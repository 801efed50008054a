/** What clients are told is true, what is sent for them is what they asked for, and
    nobody waits for a message that does not exist. */
module ClientAnswers {
  import opened Bytes
  import opened Utf8
  import opened Connections
  import AccountServer
  import opened LoginProtocol

  /** The world after a run. */
  function Reached(size: nat, events: seq<Event>): World {
    Run(Start(size), events)
  }

  lemma ReachedKeeps(size: nat, events: seq<Event>)
    ensures Inv(Reached(size, events))
  {
    StartKeeps(size);
    RunKeeps(Start(size), events);
  }

  /** Reply m is on the wire, and connection fd is the one that has its number. */
  ghost predicate Arrives(w: World, m: Message, fd: nat) {
    m in w.wire && fd < |w.conns| && FdFrom(w.conns, m.fdid, 0) == fd
  }

  lemma ArrivesAwaited(w: World, m: Message, fd: nat)
    requires Inv(w) && Arrives(w, m, fd)
    ensures Has(w.conns[fd], m.fdid) && Awaited(w.conns[fd], m)
    ensures VerdictOk(m, w.granted) && ConnOk(w.conns[fd], w.wire, w.granted)
  {
    assert ConnOk(w.conns[fd], w.wire, w.granted);
  }

  // ---- replies

  /** The client is told that it is in if and only if it is authorised from then on, by a
      grant of its own account; and that it is not, if and only if it has to log in again. */
  lemma VerdictsAreTrue(size: nat, events: seq<Event>, m: Message, made: bool, fd: nat)
    requires m.TellLogin? && Arrives(Reached(size, events), m, fd)
    ensures var w, e := Reached(size, events), Event.Deliver(m, made);
            var c, told := Step(w, e).conns[fd], ToldAt(w, e);
            && (told == [ToldLogin(true)] <==> m.flag == 0)
            && (told == [ToldLogin(true)] <==> Authorised(c) && Grant(c.fdid, c.account) in w.granted)
            && (told == [ToldLogin(false)] <==> c.state == NullConnect && LoginProtocol.Refused(w.granted, c.fdid))
            && (told == [ToldLogin(true)] || told == [ToldLogin(false)])
  {
    var w := Reached(size, events);
    ReachedKeeps(size, events);
    ArrivesAwaited(w, m, fd);
    if m.flag == 0 {
      var g :| g in w.granted && g.fdid == m.fdid;
      assert g == Grant(w.conns[fd].fdid, w.conns[fd].account);
    }
  }

  /** The list that is passed on is the one that was asked for. */
  lemma ListsAreTrue(size: nat, events: seq<Event>, m: Message, made: bool, fd: nat)
    requires m.TellList? && Arrives(Reached(size, events), m, fd)
    ensures var w, e := Reached(size, events), Event.Deliver(m, made);
            && ToldAt(w, e) == [ToldList(m.ok)]
            && w.conns[fd].state == WhileDownloadCharList && Step(w, e).conns[fd].state == NotLogin
  {
    ReachedKeeps(size, events);
    ArrivesAwaited(Reached(size, events), m, fd);
  }

  lemma DeletesAreTrue(size: nat, events: seq<Event>, m: Message, made: bool, fd: nat)
    requires m.TellDelete? && Arrives(Reached(size, events), m, fd)
    ensures var w, e := Reached(size, events), Event.Deliver(m, made);
            && ToldAt(w, e) == [ToldCharDelete(m.ok)]
            && w.conns[fd].state == WhileCharDelete && Step(w, e).conns[fd].state == NotLogin
  {
    ReachedKeeps(size, events);
    ArrivesAwaited(Reached(size, events), m, fd);
  }

  /** In the game, with a character of one's own, exactly when a loaded character is the
      account's own and can be made.  The client is told so then, and in one other case:
      the reply was successful but empty.  Otherwise it is told that it failed, and goes
      back to the characters, or to unlocking the one that was loaded. */
  lemma LoadsAreTrue(size: nat, events: seq<Event>, m: Message, made: bool, fd: nat)
    requires m.TellLoad? && Arrives(Reached(size, events), m, fd)
    ensures var w, e := Reached(size, events), Event.Deliver(m, made);
            var c, told := Step(w, e).conns[fd], ToldAt(w, e);
            && (c.state == Login <==> m.ok && !m.empty && m.owner == c.account.cdkey && made)
            && (c.state == Login ==> c.owner == m.owner == c.account.cdkey && Grant(c.fdid, c.account) in w.granted)
            && (told == [ToldCharLogin(true)] <==> c.state == Login || (m.ok && m.empty))
            && (told == [ToldCharLogin(true)] || told == [ToldCharLogin(false)])
            && (c.state != Login ==>
                  if !m.ok || m.empty then c.state == NotLogin
                  else c.state == WhileCannotLogin && AskUnlock(c.fdid, c.account.cdkey) in Step(w, e).wire)
  {
    ReachedKeeps(size, events);
    ArrivesAwaited(Reached(size, events), m, fd);
  }

  /** So a client can be told that its character is in the game when it is not: it takes
      a successful reply without data. */
  lemma EmptyLoadIsToldAsSuccess(size: nat, events: seq<Event>, m: Message, fd: nat)
    requires m.AskLoad? && Arrives(Reached(size, events), m, fd)
    ensures var n := TellLoad(m.fdid, true, true, []);
            var w := Step(Reached(size, events), Event.Serve(m, n));
            && ToldAt(w, Event.Deliver(n, true)) == [ToldCharLogin(true)]
            && Step(w, Event.Deliver(n, true)).conns[fd].state == NotLogin
  {
  }

  /** A refused unlock is asked again; any other answer to it leads back to the characters. */
  lemma UnlocksGoOn(size: nat, events: seq<Event>, m: Message, made: bool, fd: nat)
    requires m.TellUnlock? && Arrives(Reached(size, events), m, fd)
    ensures var w, e := Reached(size, events), Event.Deliver(m, made);
            var c := Step(w, e).conns[fd];
            && ToldAt(w, e) == []
            && if m.outcome == Unlock.Refused then
                 c.state == WhileCannotLogin && AskUnlock(c.fdid, c.account.cdkey) in Step(w, e).wire
               else c.state == NotLogin
  {
    ReachedKeeps(size, events);
    ArrivesAwaited(Reached(size, events), m, fd);
  }

  // ---- requests

  /** The message that passes request r of connection c on. */
  predicate PassesOn(c: Conn, r: Request, m: Message) {
    m.fdid == c.fdid
    && match r
       case ClientLogin(a, ip, mac) =>
         m.AskLogin? && m.account == a && m.ip == ip && (m.mac == mac || (m.mac == [] && !(Valid(mac) && Plain(mac))))
       case CharList => m.AskList? && m.account == c.account
       case CharLogin(name) => m.AskLoad? && m.account == c.account && m.name == name
       case CharDelete(name, passwd) =>
         m.AskDelete? && m.account.cdkey == c.account.cdkey && m.account.passwd == passwd && m.name == name
  }

  /** The refusal of a request. */
  function NoTo(r: Request): Told {
    match r
    case ClientLogin(_, _, _) => ToldLogin(false)
    case CharList => ToldList(false)
    case CharLogin(_) => ToldCharLogin(false)
    case CharDelete(_, _) => ToldCharDelete(false)
  }

  /** A login from a connection that has none, with a key of 1 to 15 and a password of
      1 to 32 acceptable bytes; anything else from one that is let in and idle. */
  predicate Served(c: Conn, r: Request) {
    match r
    case ClientLogin(a, _, _) =>
      && c.state == NullConnect && 0 < |a.cdkey| < 16 && 0 < |a.passwd| < 33
      && Valid(a.cdkey) && Plain(a.cdkey) && Valid(a.passwd) && Plain(a.passwd)
    case CharLogin(name) => c.ctype == Cli && c.state == NotLogin && name != []
    case _ => c.ctype == Cli && c.state == NotLogin
  }

  /** What is answered at once, with no: a login that is too long, and anything else from
      a client that is not idle, unless its login is still being decided. */
  predicate Declined(c: Conn, r: Request) {
    match r
    case ClientLogin(a, _, _) =>
      c.state == NullConnect && a.cdkey != [] && a.passwd != [] && (|a.cdkey| >= 16 || |a.passwd| >= 33)
    case CharLogin(name) => c.ctype == Cli && c.state != WhileAuth && (c.state != NotLogin || name == [])
    case _ => c.ctype == Cli && c.state != WhileAuth && c.state != NotLogin
  }

  lemma PassedOn(c: Conn, r: Request) returns (m: Message)
    requires Served(c, r)
    ensures var o := Dispatched(c, r);
            o.sent == [m] && o.told == [] && PassesOn(c, r, m) && Awaited(o.conn, m)
    ensures !Declined(c, r)
  {
    m := Dispatched(c, r).sent[0];
  }

  lemma NotPassedOn(c: Conn, r: Request)
    requires !Served(c, r)
    ensures var o := Dispatched(c, r);
            o.sent == [] && o.conn == c && o.told == if Declined(c, r) then [NoTo(r)] else []
  {
  }

  /** A request that is served is passed on with what the client said, nothing is told yet,
      and the connection waits for the answer to just that message. */
  lemma ServedRequests(w: World, fd: nat, r: Request) returns (m: Message)
    requires fd < |w.conns| && w.conns[fd].used && Served(w.conns[fd], r)
    ensures PassesOn(w.conns[fd], r, m) && !Declined(w.conns[fd], r)
    ensures var e := Event.FromClient(fd, r);
            && Step(w, e).wire == w.wire + multiset{m} && ToldAt(w, e) == []
            && Awaited(Step(w, e).conns[fd], m)
            && forall i :: 0 <= i < |w.conns| && i != fd ==> Step(w, e).conns[i] == w.conns[i]
  {
    m := PassedOn(w.conns[fd], r);
    assert multiset([m]) == multiset{m};
  }

  /** Any other request changes nothing; a declined one is answered with no. */
  lemma OtherRequests(w: World, fd: nat, r: Request)
    requires fd < |w.conns| && w.conns[fd].used && !Served(w.conns[fd], r)
    ensures var e := Event.FromClient(fd, r);
            Step(w, e) == w && ToldAt(w, e) == if Declined(w.conns[fd], r) then [NoTo(r)] else []
  {
    NotPassedOn(w.conns[fd], r);
    assert w.conns[fd := w.conns[fd]] == w.conns;
    assert w.wire + multiset([]) == w.wire;
  }

  /** The lists and characters that are asked for are those of the account that was let in. */
  lemma AsksForOwnAccount(size: nat, events: seq<Event>, fd: nat, r: Request, m: Message)
    requires var w := Reached(size, events);
             fd < |w.conns| && w.conns[fd].used && Served(w.conns[fd], r) && PassesOn(w.conns[fd], r, m)
    ensures var w := Reached(size, events);
            && (r.CharList? || r.CharLogin? ==> Grant(m.fdid, m.account) in w.granted)
            && (r.CharDelete? ==> exists g :: g in w.granted && g.fdid == m.fdid && g.account.cdkey == m.account.cdkey)
  {
    var w := Reached(size, events);
    ReachedKeeps(size, events);
    assert ConnOk(w.conns[fd], w.wire, w.granted);
    if !r.ClientLogin? { assert Grant(w.conns[fd].fdid, w.conns[fd].account) in w.granted; }
  }

  /** Before it logs in, a client that has just connected gets no answer to anything else. */
  lemma StrangersAreIgnored(w: World, fd: nat, r: Request)
    requires fd < |w.conns| && !r.ClientLogin?
    ensures var w' := Step(w, Event.Open(fd));
            && w'.conns[fd].used && w'.conns[fd].state == NullConnect
            && Step(w', Event.FromClient(fd, r)) == w' && ToldAt(w', Event.FromClient(fd, r)) == []
  {
    OtherRequests(Step(w, Event.Open(fd)), fd, r);
  }

  // ---- nobody waits in vain

  predicate Waits(c: Conn) {
    c.used && c.state != NullConnect && c.state != NotLogin && c.state != Login
  }

  ghost predicate Expected(c: Conn, wire: multiset<Message>) {
    Waits(c) ==> exists m :: m in wire && m.fdid == c.fdid
  }

  ghost predicate AllExpected(w: World) {
    forall i :: 0 <= i < |w.conns| ==> Expected(w.conns[i], w.wire)
  }

  lemma StillExpected(c: Conn, wire: multiset<Message>, wire': multiset<Message>, n: Message)
    requires Expected(c, wire)
    requires forall m :: m in wire && m.fdid != n.fdid ==> m in wire'
    requires c.fdid == n.fdid ==> n in wire'
    ensures Expected(c, wire')
  {
    if Waits(c) {
      var m :| m in wire && m.fdid == c.fdid;
      assert c.fdid == n.fdid ==> n in wire';
    }
  }

  /** A connection that turns either waits for what it has just sent, or for nothing. */
  lemma TurnIsExpected(c: Conn, m: Message, made: bool, wire: multiset<Message>)
    requires IsReply(m) && c.fdid == m.fdid && Awaited(c, m)
    ensures Expected(Replied(c, m, made).conn, wire + multiset(Replied(c, m, made).sent))
  {
    var o := Replied(c, m, made);
    if o.sent != [] { assert o.sent[0] in wire + multiset(o.sent); }
  }

  lemma DeliverExpects(w: World, m: Message, made: bool)
    requires Inv(w) && AllExpected(w) && m in w.wire && IsReply(m)
    ensures AllExpected(Step(w, Event.Deliver(m, made)))
  {
    var w', fd := Step(w, Event.Deliver(m, made)), FdFrom(w.conns, m.fdid, 0);
    forall i | 0 <= i < |w.conns| ensures Expected(w'.conns[i], w'.wire) {
      if i == fd {
        ArrivesAwaited(w, m, fd);
        TurnIsExpected(w.conns[fd], m, made, w.wire - multiset{m});
      } else if w.conns[i].used {
        if fd != -1 { assert w.conns[i].fdid != w.conns[fd].fdid; }
        StillExpected(w.conns[i], w.wire, w'.wire, m);
      }
    }
  }

  lemma FromClientExpects(w: World, fd: nat, r: Request)
    requires AllExpected(w)
    ensures AllExpected(Step(w, Event.FromClient(fd, r)))
  {
    if fd < |w.conns| && w.conns[fd].used {
      var o, w' := Dispatched(w.conns[fd], r), Step(w, Event.FromClient(fd, r));
      forall i | 0 <= i < |w.conns| ensures Expected(w'.conns[i], w'.wire) {
        if i == fd && Served(w.conns[fd], r) {
          var m := PassedOn(w.conns[fd], r);
          assert m in w'.wire && o.conn.fdid == m.fdid;
        } else {
          if i == fd { NotPassedOn(w.conns[fd], r); }
          Grows(w.conns[i], w.wire, multiset(o.sent));
        }
      }
    }
  }

  lemma Grows(c: Conn, wire: multiset<Message>, more: multiset<Message>)
    requires Expected(c, wire)
    ensures Expected(c, wire + more)
  {
    if Waits(c) {
      var m :| m in wire && m.fdid == c.fdid;
      assert m in wire + more;
    }
  }

  lemma ReplaceExpects(w: World, m: Message, n: Message, granted: set<Grant>)
    requires AllExpected(w) && m in w.wire && n.fdid == m.fdid
    ensures AllExpected(World(w.conns, w.nextFdid, Replaced(w.wire, m, n), granted))
  {
    var wire := Replaced(w.wire, m, n);
    forall i | 0 <= i < |w.conns| ensures Expected(w.conns[i], wire) {
      StillExpected(w.conns[i], w.wire, wire, n);
    }
  }

  lemma StepExpects(w: World, e: Event)
    requires Inv(w) && AllExpected(w) && !e.Lose?
    ensures AllExpected(Step(w, e))
  {
    match e
    case Open(fd) =>
    case Close(fd) =>
    case FromClient(fd, r) => FromClientExpects(w, fd, r);
    case ServeLogin(m, db) =>
      if m in w.wire && m.AskLogin? {
        var flag := AccountServer.LoginFlag(m.account, m.ip, m.mac, db);
        ReplaceExpects(w, m, TellLogin(m.fdid, flag), Step(w, e).granted);
      }
    case Serve(m, n) =>
      if m in w.wire && Answers(m, n) { ReplaceExpects(w, m, n, w.granted); }
    case Deliver(m, made) =>
      if m in w.wire && IsReply(m) { DeliverExpects(w, m, made); }
    case Lose(m) =>
  }

  lemma {:induction false} RunExpects(w: World, events: seq<Event>)
    requires Inv(w) && AllExpected(w) && forall e :: e in events ==> !e.Lose?
    ensures AllExpected(Run(w, events))
    decreases |events|
  {
    if events != [] {
      StepKeeps(w, events[0]);
      StepExpects(w, events[0]);
      RunExpects(Step(w, events[0]), events[1..]);
    }
  }

  /** As long as no message is lost, whoever waits for an answer has a message under way:
      the request, or the reply to it. */
  lemma NobodyWaitsInVain(size: nat, events: seq<Event>, fd: nat)
    requires forall e :: e in events ==> !e.Lose?
    requires fd < |Reached(size, events).conns| && Waits(Reached(size, events).conns[fd])
    ensures var w := Reached(size, events);
            exists m :: m in w.wire && m.fdid == w.conns[fd].fdid && Awaited(w.conns[fd], m)
  {
    var w := Reached(size, events);
    StartKeeps(size);
    RunExpects(Start(size), events);
    ReachedKeeps(size, events);
    assert Expected(w.conns[fd], w.wire) && ConnOk(w.conns[fd], w.wire, w.granted);
  }
}
