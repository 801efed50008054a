/** The two servers and the messages between them, over whole runs. Messages may be
    overtaken or lost, clients come and go, and a slot is used again and again. */
module LoginProtocol {
  import opened Bytes
  import opened Connections
  import opened AccountServer

  /** The account server has let this account in, in answer to a login of this number. */
  datatype Grant = Grant(fdid: nat, account: Account)

  /** granted only records; no step reads it. */
  datatype World = World(conns: seq<Conn>, nextFdid: nat, wire: multiset<Message>, granted: set<Grant>)

  datatype Event =
    | Open(fd: nat)
    | Close(fd: nat)
    | FromClient(fd: nat, request: Request)
    | ServeLogin(ask: Message, db: Answers)
    | Serve(ask: Message, tell: Message)
    | Deliver(tell: Message, made: bool)
    | Lose(m: Message)

  function Start(size: nat): World {
    World(seq(size, _ => Fresh(0).(used := false)), 0, multiset{}, {})
  }

  function Open(w: World, fd: nat): World {
    if fd < |w.conns| then w.(conns := w.conns[fd := Fresh(w.nextFdid)], nextFdid := w.nextFdid + 1) else w
  }

  function Close(w: World, fd: nat): World {
    if fd < |w.conns| then w.(conns := w.conns[fd := w.conns[fd].(used := false)]) else w
  }

  /** Slot fd turns as o says, and what it sends goes on the wire. */
  function Turn(w: World, fd: nat, o: Outcome): World
    requires fd < |w.conns|
  {
    w.(conns := w.conns[fd := o.conn], wire := w.wire + multiset(o.sent))
  }

  function FromClient(w: World, fd: nat, r: Request): World {
    if fd < |w.conns| && w.conns[fd].used then Turn(w, fd, Dispatched(w.conns[fd], r)) else w
  }

  function Replaced(wire: multiset<Message>, m: Message, n: Message): multiset<Message> {
    wire - multiset{m} + multiset{n}
  }

  function ServeLogin(w: World, m: Message, db: Answers): World {
    if m in w.wire && m.AskLogin? then
      var flag := LoginFlag(m.account, m.ip, m.mac, db);
      World(w.conns, w.nextFdid, Replaced(w.wire, m, TellLogin(m.fdid, flag)),
            if flag == 0 then w.granted + {Grant(m.fdid, m.account)} else w.granted)
    else w
  }

  /** The replies that the other requests may get; which, the database decides. */
  predicate Answers(m: Message, n: Message) {
    n.fdid == m.fdid
    && ((m.AskList? && n.TellList?) || (m.AskLoad? && n.TellLoad?)
        || (m.AskDelete? && n.TellDelete?) || (m.AskUnlock? && n.TellUnlock?))
  }

  function Serve(w: World, m: Message, n: Message): World {
    if m in w.wire && Answers(m, n) then w.(wire := Replaced(w.wire, m, n)) else w
  }

  function Lose(w: World, m: Message): World {
    w.(wire := w.wire - multiset{m})
  }

  function Deliver(w: World, m: Message, made: bool): World {
    if m in w.wire && IsReply(m) then
      var fd := FdFrom(w.conns, m.fdid, 0);
      if fd == -1 then Lose(w, m) else Turn(Lose(w, m), fd, Replied(w.conns[fd], m, made))
    else w
  }

  function Step(w: World, e: Event): World {
    match e
    case Open(fd) => Open(w, fd)
    case Close(fd) => Close(w, fd)
    case FromClient(fd, r) => FromClient(w, fd, r)
    case ServeLogin(m, db) => ServeLogin(w, m, db)
    case Serve(m, n) => Serve(w, m, n)
    case Deliver(m, made) => Deliver(w, m, made)
    case Lose(m) => Lose(w, m)
  }

  /** What the client of the connection concerned is told at this step. */
  function ToldAt(w: World, e: Event): seq<Told> {
    match e
    case FromClient(fd, r) =>
      if fd < |w.conns| && w.conns[fd].used then Dispatched(w.conns[fd], r).told else []
    case Deliver(m, made) =>
      if m in w.wire && IsReply(m) then
        var fd := FdFrom(w.conns, m.fdid, 0);
        if fd == -1 then [] else Replied(w.conns[fd], m, made).told
      else []
    case _ => []
  }

  function Run(w: World, events: seq<Event>): World
    decreases |events|
  {
    if events == [] then w else Run(Step(w, events[0]), events[1..])
  }

  lemma {:induction false} RunSplit(w: World, before: seq<Event>, after: seq<Event>)
    ensures Run(w, before + after) == Run(Run(w, before), after)
    decreases |before|
  {
    if before == [] {
      assert before + after == after;
    } else {
      assert (before + after)[1..] == before[1..] + after;
      RunSplit(Step(w, before[0]), before[1..], after);
    }
  }

  lemma RunAppend(w: World, events: seq<Event>, e: Event)
    ensures Run(w, events + [e]) == Step(Run(w, events), e)
  {
    RunSplit(w, events, [e]);
    assert [e][1..] == [];
  }

  // ---- what every reachable state keeps

  ghost predicate Quiet(wire: multiset<Message>, fdid: nat) {
    forall m :: m in wire ==> m.fdid != fdid
  }

  ghost predicate Refused(granted: set<Grant>, fdid: nat) {
    forall g :: g in granted ==> g.fdid != fdid
  }

  /** The one request that this state is waiting for, or its reply. */
  predicate Awaited(c: Conn, m: Message) {
    match m
    case AskLogin(_, a, _, _) => c.state == WhileAuth && a == c.account
    case TellLogin(_, _) => c.state == WhileAuth
    case AskList(_, _) => c.state == WhileDownloadCharList
    case TellList(_, _) => c.state == WhileDownloadCharList
    case AskLoad(_, _, _) => c.state == WhileLogin
    case TellLoad(_, _, _, _) => c.state == WhileLogin
    case AskDelete(_, _, _) => c.state == WhileCharDelete
    case TellDelete(_, _) => c.state == WhileCharDelete
    case AskUnlock(_, _) => c.state == WhileCannotLogin
    case TellUnlock(_, _) => c.state == WhileCannotLogin
  }

  predicate Authorised(c: Conn) {
    c.state != NullConnect && c.state != WhileAuth
  }

  /** No message but one that c is waiting for carries its number. */
  ghost predicate WaitsRightly(c: Conn, wire: multiset<Message>) {
    forall m :: m in wire && m.fdid == c.fdid ==> Awaited(c, m)
  }

  ghost predicate OnlyGrant(c: Conn, granted: set<Grant>) {
    forall g :: g in granted && g.fdid == c.fdid ==> g.account == c.account
  }

  ghost predicate HoldsGrant(c: Conn, granted: set<Grant>) {
    c.ctype == Cli && Grant(c.fdid, c.account) in granted && (c.state == Login ==> c.owner == c.account.cdkey)
  }

  ghost predicate ConnOk(c: Conn, wire: multiset<Message>, granted: set<Grant>) {
    c.used ==>
      && WaitsRightly(c, wire)
      && OnlyGrant(c, granted)
      && (Authorised(c) ==> HoldsGrant(c, granted))
      && (c.state == NullConnect ==> Refused(granted, c.fdid))
      && (c.state == WhileAuth ==> c.ctype == Cli)
  }

  /** What the verdict in a login message says about the record of grants. */
  ghost predicate VerdictOk(m: Message, granted: set<Grant>) {
    match m
    case AskLogin(f, _, _, _) => Refused(granted, f)
    case TellLogin(f, flag) => if flag == 0 then !Refused(granted, f) else Refused(granted, f)
    case _ => true
  }

  /** At most one message carries any one number. */
  ghost predicate OneEach(wire: multiset<Message>) {
    (forall m :: m in wire ==> wire[m] == 1)
    && (forall m, n :: m in wire && n in wire && m.fdid == n.fdid ==> m == n)
  }

  ghost predicate Issued(w: World) {
    (forall i :: 0 <= i < |w.conns| && w.conns[i].used ==> w.conns[i].fdid < w.nextFdid)
    && (forall m :: m in w.wire ==> m.fdid < w.nextFdid)
    && (forall g :: g in w.granted ==> g.fdid < w.nextFdid)
  }

  ghost predicate Distinct(conns: seq<Conn>) {
    forall i, j :: 0 <= i < j < |conns| && conns[i].used && conns[j].used ==> conns[i].fdid != conns[j].fdid
  }

  ghost predicate GrantedOnce(granted: set<Grant>) {
    forall g, h :: g in granted && h in granted && g.fdid == h.fdid ==> g == h
  }

  ghost predicate ConnsOk(w: World) {
    forall i :: 0 <= i < |w.conns| ==> ConnOk(w.conns[i], w.wire, w.granted)
  }

  ghost predicate VerdictsOk(wire: multiset<Message>, granted: set<Grant>) {
    forall m :: m in wire ==> VerdictOk(m, granted)
  }

  ghost predicate Inv(w: World) {
    && Issued(w)
    && Distinct(w.conns)
    && OneEach(w.wire)
    && GrantedOnce(w.granted)
    && VerdictsOk(w.wire, w.granted)
    && ConnsOk(w)
  }

  lemma StartKeeps(size: nat)
    ensures Inv(Start(size))
  {
  }

  // ---- one step at a time

  lemma OpenKeeps(w: World, fd: nat)
    requires Inv(w) && fd < |w.conns|
    ensures Inv(Open(w, fd))
  {
    var c := Fresh(w.nextFdid);
    assert WaitsRightly(c, w.wire);
    assert ConnOk(c, w.wire, w.granted);
  }

  lemma CloseKeeps(w: World, fd: nat)
    requires Inv(w) && fd < |w.conns|
    ensures Inv(Close(w, fd))
  {
  }

  /** A message taken off the wire. */
  lemma LoseKeeps(w: World, m: Message)
    requires Inv(w)
    ensures Inv(Lose(w, m))
    ensures m in w.wire ==> Quiet(Lose(w, m).wire, m.fdid)
  {
    var wire := w.wire - multiset{m};
    forall i | 0 <= i < |w.conns| ensures ConnOk(w.conns[i], wire, w.granted) {
      assert ConnOk(w.conns[i], w.wire, w.granted);
    }
  }

  /** A connection that nothing is on the wire for turns, and sends at most one message. */
  lemma TurnKeeps(w: World, fd: nat, o: Outcome)
    requires Inv(w) && fd < |w.conns| && w.conns[fd].used && Quiet(w.wire, w.conns[fd].fdid)
    requires OutcomeOk(w.conns[fd], o, w.granted)
    ensures Inv(Turn(w, fd, o))
  {
    var w' := Turn(w, fd, o);
    TurnWire(w.wire, o.conn.fdid, o.sent);
    forall i | 0 <= i < |w'.conns| ensures ConnOk(w'.conns[i], w'.wire, w'.granted) {
      if i != fd { assert ConnOk(w.conns[i], w.wire, w.granted); }
    }
    assert Issued(w');
    assert Distinct(w'.conns);
  }

  lemma TurnWire(wire: multiset<Message>, fdid: nat, sent: seq<Message>)
    requires OneEach(wire) && Quiet(wire, fdid)
    requires |sent| <= 1 && forall m :: m in sent ==> m.fdid == fdid
    ensures OneEach(wire + multiset(sent))
    ensures forall m :: m in wire + multiset(sent) <==> m in wire || m in sent
  {
    if |sent| == 1 { assert sent == [sent[0]]; }
  }

  /** A reply in place of a request. */
  lemma ReplaceKeeps(w: World, m: Message, n: Message)
    requires Inv(w) && m in w.wire && n.fdid == m.fdid && VerdictOk(n, w.granted)
    requires forall c: Conn :: Awaited(c, m) ==> Awaited(c, n)
    ensures Inv(w.(wire := Replaced(w.wire, m, n)))
  {
    var wire := Replaced(w.wire, m, n);
    assert forall k :: k in wire ==> k == n || (k in w.wire && k.fdid != n.fdid);
    forall i | 0 <= i < |w.conns| ensures ConnOk(w.conns[i], wire, w.granted) {
      assert ConnOk(w.conns[i], w.wire, w.granted);
    }
  }

  /** A connection in a state that awaits nothing has no message on the wire. */
  lemma IdleIsQuiet(w: World, fd: nat)
    requires Inv(w) && fd < |w.conns| && w.conns[fd].used
    requires w.conns[fd].state == NullConnect || w.conns[fd].state == NotLogin
    ensures Quiet(w.wire, w.conns[fd].fdid)
  {
    assert ConnOk(w.conns[fd], w.wire, w.granted);
  }

  /** A request either changes nothing, or finds an idle connection. */
  lemma RequestFindsIdle(c: Conn, r: Request)
    ensures var o := Dispatched(c, r);
            (o.conn == c && o.sent == []) || c.state == NullConnect || c.state == NotLogin
  {
  }

  /** An outcome that leaves its connection as it should be. */
  ghost predicate OutcomeOk(c: Conn, o: Outcome, granted: set<Grant>) {
    && o.conn.used && o.conn.fdid == c.fdid
    && ConnOk(o.conn, multiset(o.sent), granted)
    && |o.sent| <= 1
    && forall m :: m in o.sent ==> m.fdid == c.fdid && VerdictOk(m, granted)
  }

  /** A connection that sends m and waits for the reply. */
  lemma WaitingIsOk(c: Conn, m: Message, granted: set<Grant>)
    requires ConnOk(c, multiset{}, granted) && m.fdid == c.fdid && Awaited(c, m) && VerdictOk(m, granted) && c.used
    ensures OutcomeOk(c, Outcome(c, [m], []), granted)
  {
  }

  lemma LoginRequestKeeps(c: Conn, granted: set<Grant>, a: Account, ip: seq<byte>, mac: seq<byte>)
    requires c.used && ConnOk(c, multiset{}, granted)
    ensures OutcomeOk(c, LoginRequested(c, a, ip, mac), granted)
  {
    var o := LoginRequested(c, a, ip, mac);
    if o.sent != [] { WaitingIsOk(o.conn, o.sent[0], granted); }
  }

  lemma OtherRequestKeeps(c: Conn, granted: set<Grant>, r: Request)
    requires c.used && ConnOk(c, multiset{}, granted) && !r.ClientLogin?
    ensures OutcomeOk(c, Dispatched(c, r), granted)
  {
    var o := Dispatched(c, r);
    if o.sent != [] { WaitingIsOk(o.conn, o.sent[0], granted); }
  }

  lemma RequestKeeps(c: Conn, granted: set<Grant>, r: Request)
    requires c.used && ConnOk(c, multiset{}, granted)
    ensures OutcomeOk(c, Dispatched(c, r), granted)
  {
    if r.ClientLogin? {
      LoginRequestKeeps(c, granted, r.account, r.ip, r.mac);
    } else {
      OtherRequestKeeps(c, granted, r);
    }
  }

  lemma FromClientKeeps(w: World, fd: nat, r: Request)
    requires Inv(w) && fd < |w.conns| && w.conns[fd].used
    ensures Inv(FromClient(w, fd, r))
  {
    var c := w.conns[fd];
    var o := Dispatched(c, r);
    RequestFindsIdle(c, r);
    if o.conn == c && o.sent == [] {
      assert w.conns[fd := o.conn] == w.conns;
    } else {
      IdleIsQuiet(w, fd);
      assert ConnOk(c, multiset{}, w.granted);
      RequestKeeps(c, w.granted, r);
      TurnKeeps(w, fd, o);
    }
  }

  lemma ServeKeeps(w: World, m: Message, n: Message)
    requires Inv(w) && m in w.wire && Answers(m, n)
    ensures Inv(Serve(w, m, n))
  {
    ReplaceKeeps(w, m, n);
  }

  /** The record of grants, once this login has been let in. */
  lemma GrantKeeps(w: World, m: Message)
    requires Inv(w) && m in w.wire && m.AskLogin?
    ensures var w' := World(w.conns, w.nextFdid, Replaced(w.wire, m, TellLogin(m.fdid, 0)),
                            w.granted + {Grant(m.fdid, m.account)});
            Inv(w')
  {
    var granted := w.granted + {Grant(m.fdid, m.account)};
    var wire := Replaced(w.wire, m, TellLogin(m.fdid, 0));
    GrantKeepsRecord(w.wire, w.granted, m);
    forall i | 0 <= i < |w.conns| ensures ConnOk(w.conns[i], wire, granted) {
      GrantKeepsConn(w.conns[i], w.wire, w.granted, m);
    }
  }

  /** The reply takes the place of the request, and is alone under its number. */
  lemma ReplacedIsOneEach(wire: multiset<Message>, m: Message, n: Message)
    requires OneEach(wire) && m in wire && n.fdid == m.fdid
    ensures OneEach(Replaced(wire, m, n))
    ensures forall k :: k in Replaced(wire, m, n) ==> k == n || (k in wire && k.fdid != n.fdid)
  {
    forall k | k in Replaced(wire, m, n) ensures k == n || (k in wire && k.fdid != n.fdid) {
      if k != n { assert k in wire; }
    }
  }

  lemma VerdictElsewhere(k: Message, granted: set<Grant>, g: Grant)
    requires VerdictOk(k, granted) && k.fdid != g.fdid
    ensures VerdictOk(k, granted + {g})
  {
  }

  lemma GrantKeepsRecord(wire: multiset<Message>, granted: set<Grant>, m: Message)
    requires OneEach(wire) && GrantedOnce(granted) && VerdictsOk(wire, granted) && m in wire && m.AskLogin?
    ensures var wire' := Replaced(wire, m, TellLogin(m.fdid, 0));
            var granted' := granted + {Grant(m.fdid, m.account)};
            OneEach(wire') && GrantedOnce(granted') && VerdictsOk(wire', granted')
  {
    var n, g := TellLogin(m.fdid, 0), Grant(m.fdid, m.account);
    ReplacedIsOneEach(wire, m, n);
    assert VerdictOk(m, granted);
    assert g in granted + {g};
    forall k | k in Replaced(wire, m, n) ensures VerdictOk(k, granted + {g}) {
      if k != n { VerdictElsewhere(k, granted, g); }
    }
  }

  lemma GrantKeepsConn(c: Conn, wire: multiset<Message>, granted: set<Grant>, m: Message)
    requires ConnOk(c, wire, granted) && OneEach(wire) && m in wire && m.AskLogin?
    ensures ConnOk(c, Replaced(wire, m, TellLogin(m.fdid, 0)), granted + {Grant(m.fdid, m.account)})
  {
    if c.used && c.fdid == m.fdid { assert Awaited(c, m); }
  }

  lemma ServeLoginKeeps(w: World, m: Message, db: Answers)
    requires Inv(w) && m in w.wire && m.AskLogin?
    ensures Inv(ServeLogin(w, m, db))
  {
    var flag := LoginFlag(m.account, m.ip, m.mac, db);
    if flag == 0 {
      GrantKeeps(w, m);
    } else {
      assert VerdictOk(m, w.granted);
      ReplaceKeeps(w, m, TellLogin(m.fdid, flag));
    }
  }

  /** A verdict that is awaited leaves its connection as it should be. */
  lemma VerdictKeeps(c: Conn, granted: set<Grant>, m: Message)
    requires c.used && c.ctype == Cli && OnlyGrant(c, granted) && c.state == WhileAuth
    requires m.TellLogin? && m.fdid == c.fdid && VerdictOk(m, granted)
    ensures OutcomeOk(c, LoginAnswered(c, m.flag), granted)
  {
    if m.flag == 0 {
      var g :| g in granted && g.fdid == c.fdid;
      assert g == Grant(c.fdid, c.account);
    }
  }

  /** And so does any other reply to a connection that has been let in. */
  lemma OtherReplyKeeps(c: Conn, granted: set<Grant>, m: Message, made: bool)
    requires c.used && OnlyGrant(c, granted) && HoldsGrant(c, granted) && Awaited(c, m) && m.fdid == c.fdid
    requires IsReply(m) && !m.TellLogin?
    ensures OutcomeOk(c, Replied(c, m, made), granted)
  {
    var o := Replied(c, m, made);
    if o.sent != [] { assert o.sent == [AskUnlock(c.fdid, c.account.cdkey)]; }
  }

  lemma ReplyKeeps(c: Conn, wire: multiset<Message>, granted: set<Grant>, m: Message, made: bool)
    requires c.used && ConnOk(c, wire, granted) && m in wire && m.fdid == c.fdid && IsReply(m)
    requires VerdictOk(m, granted)
    ensures OutcomeOk(c, Replied(c, m, made), granted)
  {
    assert Awaited(c, m);
    if m.TellLogin? { VerdictKeeps(c, granted, m); } else { OtherReplyKeeps(c, granted, m, made); }
  }

  lemma DeliverKeeps(w: World, m: Message, made: bool)
    requires Inv(w) && m in w.wire && IsReply(m)
    ensures Inv(Deliver(w, m, made))
  {
    LoseKeeps(w, m);
    var fd := FdFrom(w.conns, m.fdid, 0);
    if fd != -1 {
      assert VerdictOk(m, w.granted);
      ReplyKeeps(w.conns[fd], w.wire, w.granted, m, made);
      TurnKeeps(Lose(w, m), fd, Replied(w.conns[fd], m, made));
    }
  }

  lemma StepKeeps(w: World, e: Event)
    requires Inv(w)
    ensures Inv(Step(w, e))
  {
    match e
    case Open(fd) => if fd < |w.conns| { OpenKeeps(w, fd); }
    case Close(fd) => if fd < |w.conns| { CloseKeeps(w, fd); }
    case FromClient(fd, r) => if fd < |w.conns| && w.conns[fd].used { FromClientKeeps(w, fd, r); }
    case ServeLogin(m, db) => if m in w.wire && m.AskLogin? { ServeLoginKeeps(w, m, db); }
    case Serve(m, n) => if m in w.wire && Answers(m, n) { ServeKeeps(w, m, n); }
    case Deliver(m, made) => if m in w.wire && IsReply(m) { DeliverKeeps(w, m, made); }
    case Lose(m) => LoseKeeps(w, m);
  }

  lemma {:induction false} RunKeeps(w: World, events: seq<Event>)
    requires Inv(w)
    ensures Inv(Run(w, events))
    decreases |events|
  {
    if events != [] {
      StepKeeps(w, events[0]);
      RunKeeps(Step(w, events[0]), events[1..]);
    }
  }

  // ---- safety over whole runs

  /** A connection past authentication holds exactly the account that the account
      server let in under its number, and no other was ever let in under it. */
  lemma Authentication(size: nat, events: seq<Event>, fd: nat)
    requires var w := Run(Start(size), events);
             fd < |w.conns| && w.conns[fd].used && Authorised(w.conns[fd])
    ensures var w := Run(Start(size), events);
            var c := w.conns[fd];
            forall a :: Grant(c.fdid, a) in w.granted <==> a == c.account
  {
    StartKeeps(size);
    RunKeeps(Start(size), events);
    var w := Run(Start(size), events);
    assert ConnOk(w.conns[fd], w.wire, w.granted);
    forall a ensures Grant(w.conns[fd].fdid, a) in w.granted ==> a == w.conns[fd].account {
      if Grant(w.conns[fd].fdid, a) in w.granted { assert Grant(w.conns[fd].fdid, a).account == w.conns[fd].account; }
    }
  }

  ghost predicate LetInBy(e: Event, g: Grant) {
    && e.ServeLogin? && e.ask.AskLogin? && e.ask.fdid == g.fdid && e.ask.account == g.account
    && WellFormed(e.ask.account, e.ask.ip, e.ask.mac) && AccountServer.Unlocked(e.ask.mac, e.db) && Known(e.db)
  }

  /** Nothing is recorded as granted but what the account server has let in. */
  lemma {:induction false} GrantHasCause(w: World, events: seq<Event>, g: Grant)
    requires g in Run(w, events).granted && g !in w.granted
    ensures exists e :: e in events && LetInBy(e, g)
    decreases |events|
  {
    var w' := Step(w, events[0]);
    if g in w'.granted {
      assert LetInBy(events[0], g);
    } else {
      GrantHasCause(w', events[1..], g);
      var e :| e in events[1..] && LetInBy(e, g);
      assert e in events;
    }
  }

  /** Whoever is in the game plays a character of that account. */
  lemma PlaysOwnCharacter(size: nat, events: seq<Event>, fd: nat)
    requires var w := Run(Start(size), events);
             fd < |w.conns| && w.conns[fd].used && w.conns[fd].state == Login
    ensures var w := Run(Start(size), events);
            var c := w.conns[fd];
            c.owner == c.account.cdkey && Grant(c.fdid, c.account) in w.granted
  {
    StartKeeps(size);
    RunKeeps(Start(size), events);
    var w := Run(Start(size), events);
    assert ConnOk(w.conns[fd], w.wire, w.granted);
  }

  /** A number has at most one message on the wire, the one its connection waits for. */
  lemma OneOutstanding(size: nat, events: seq<Event>, m: Message, n: Message)
    requires var w := Run(Start(size), events); m in w.wire && n in w.wire && m.fdid == n.fdid
    ensures var w := Run(Start(size), events);
            && m == n && w.wire[m] == 1
            && forall fd :: 0 <= fd < |w.conns| && Has(w.conns[fd], m.fdid) ==> Awaited(w.conns[fd], m)
  {
    StartKeeps(size);
    RunKeeps(Start(size), events);
    var w := Run(Start(size), events);
    forall fd | 0 <= fd < |w.conns| && Has(w.conns[fd], m.fdid) ensures Awaited(w.conns[fd], m) {
      assert ConnOk(w.conns[fd], w.wire, w.granted);
    }
  }

  /** The replies that reset a connection without looking at its state find it in
      the one state in which that is right. */
  lemma ResetsAreAwaited(size: nat, events: seq<Event>, m: Message)
    requires var w := Run(Start(size), events); m in w.wire && (m.TellList? || m.TellLoad?)
    ensures var w := Run(Start(size), events);
            var fd := FdFrom(w.conns, m.fdid, 0);
            fd != -1 ==> w.conns[fd].state == if m.TellList? then WhileDownloadCharList else WhileLogin
  {
    OneOutstanding(size, events, m, m);
  }

  // ---- numbers are never used twice

  ghost predicate Gone(w: World, fdid: nat) {
    fdid < w.nextFdid && forall i :: 0 <= i < |w.conns| ==> !Has(w.conns[i], fdid)
  }

  lemma RequestKeepsNumber(c: Conn, r: Request)
    ensures var d := Dispatched(c, r).conn; d.used == c.used && d.fdid == c.fdid
  {
  }

  lemma ReplyKeepsNumber(c: Conn, m: Message, made: bool)
    requires IsReply(m)
    ensures var d := Replied(c, m, made).conn; d.used == c.used && d.fdid == c.fdid
  {
  }

  lemma StepKeepsSize(w: World, e: Event)
    ensures w.nextFdid <= Step(w, e).nextFdid && |Step(w, e).conns| == |w.conns|
  {
  }

  /** d is c with the same number, or a connection just opened, or closed. */
  predicate SameOrNew(c: Conn, d: Conn, nextFdid: nat) {
    d.used ==> (c.used && c.fdid == d.fdid) || d == Fresh(nextFdid)
  }

  lemma FromClientKeepsNumber(w: World, from: nat, r: Request, fd: nat)
    requires fd < |w.conns|
    ensures SameOrNew(w.conns[fd], FromClient(w, from, r).conns[fd], w.nextFdid)
  {
    if from == fd { RequestKeepsNumber(w.conns[fd], r); }
  }

  lemma DeliverKeepsNumber(w: World, m: Message, made: bool, fd: nat)
    requires fd < |w.conns|
    ensures |Deliver(w, m, made).conns| == |w.conns|
    ensures SameOrNew(w.conns[fd], Deliver(w, m, made).conns[fd], w.nextFdid)
  {
    if IsReply(m) { ReplyKeepsNumber(w.conns[fd], m, made); }
  }

  lemma StepKeepsNumber(w: World, e: Event, fd: nat)
    requires fd < |w.conns|
    ensures w.nextFdid <= Step(w, e).nextFdid && |Step(w, e).conns| == |w.conns|
    ensures SameOrNew(w.conns[fd], Step(w, e).conns[fd], w.nextFdid)
  {
    StepKeepsSize(w, e);
    if e.FromClient? {
      FromClientKeepsNumber(w, e.fd, e.request, fd);
    } else if e.Deliver? {
      DeliverKeepsNumber(w, e.tell, e.made, fd);
    }
  }

  /** Once its connection is closed a number stays out of use, so what arrives for it
      late reaches nobody. */
  lemma {:induction false} GoneForGood(w: World, events: seq<Event>, fdid: nat)
    requires Inv(w) && Gone(w, fdid)
    ensures Gone(Run(w, events), fdid)
    ensures FdFrom(Run(w, events).conns, fdid, 0) == -1
    decreases |events|
  {
    if events != [] {
      var w' := Step(w, events[0]);
      StepKeeps(w, events[0]);
      forall i | 0 <= i < |w.conns| ensures !Has(w'.conns[i], fdid) {
        StepKeepsNumber(w, events[0], i);
      }
      if |w.conns| > 0 { StepKeepsNumber(w, events[0], 0); }
      GoneForGood(w', events[1..], fdid);
    }
  }

  // ---- what has been granted stays granted, and to the same account

  ghost predicate LetIn(w: World, fd: nat, fdid: nat, a: Account) {
    fd < |w.conns| && (Has(w.conns[fd], fdid) ==> Authorised(w.conns[fd]) && w.conns[fd].account == a)
  }

  lemma RequestKeepsAccount(c: Conn, r: Request)
    requires Authorised(c)
    ensures var o := Dispatched(c, r); Authorised(o.conn) && o.conn.account == c.account
  {
  }

  lemma ReplyKeepsAccount(c: Conn, m: Message, made: bool)
    requires Authorised(c) && IsReply(m)
    ensures var o := Replied(c, m, made); Authorised(o.conn) && o.conn.account == c.account
  {
  }

  /** A connection that stays is not one that has just been opened. */
  lemma OthersStayOut(w: World, e: Event, fd: nat, fdid: nat)
    requires fd < |w.conns| && !Has(w.conns[fd], fdid) && fdid < w.nextFdid
    ensures !Has(Step(w, e).conns[fd], fdid)
  {
    StepKeepsNumber(w, e, fd);
  }

  lemma RequestKeepsLetIn(w: World, from: nat, r: Request, fd: nat, fdid: nat, a: Account)
    requires LetIn(w, fd, fdid, a) && Has(w.conns[fd], fdid)
    ensures LetIn(FromClient(w, from, r), fd, fdid, a)
  {
    if from == fd { RequestKeepsAccount(w.conns[fd], r); }
  }

  lemma ReplyKeepsLetIn(w: World, m: Message, made: bool, fd: nat, fdid: nat, a: Account)
    requires LetIn(w, fd, fdid, a) && Has(w.conns[fd], fdid)
    ensures LetIn(Deliver(w, m, made), fd, fdid, a)
  {
    if IsReply(m) { ReplyKeepsAccount(w.conns[fd], m, made); }
  }

  lemma StepKeepsAccount(w: World, e: Event, fd: nat, fdid: nat, a: Account)
    requires Inv(w) && LetIn(w, fd, fdid, a) && fdid < w.nextFdid
    ensures LetIn(Step(w, e), fd, fdid, a)
  {
    if !Has(w.conns[fd], fdid) {
      OthersStayOut(w, e, fd, fdid);
    } else if e.FromClient? {
      RequestKeepsLetIn(w, e.fd, e.request, fd, fdid, a);
    } else if e.Deliver? {
      ReplyKeepsLetIn(w, e.tell, e.made, fd, fdid, a);
    }
  }

  /** From the moment it is let in until it is closed a connection keeps its account. */
  lemma {:induction false} AccountForGood(w: World, events: seq<Event>, fd: nat, fdid: nat, a: Account)
    requires Inv(w) && LetIn(w, fd, fdid, a) && fdid < w.nextFdid
    ensures LetIn(Run(w, events), fd, fdid, a)
    decreases |events|
  {
    if events != [] {
      StepKeeps(w, events[0]);
      StepKeepsAccount(w, events[0], fd, fdid, a);
      StepKeepsNumber(w, events[0], fd);
      AccountForGood(Step(w, events[0]), events[1..], fd, fdid, a);
    }
  }
}
