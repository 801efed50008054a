/** A client connection of the game server, and what one message does to it. */
module Connections {
  import opened Bytes
  import opened Utf8

  const CDKEYLEN: nat := 16
  const PASSWDLEN: nat := 33

  datatype LoginType =
    | NullConnect | NotLogin | Login | WhileLogin | WhileCannotLogin
    | WhileCharDelete | WhileDownloadCharList | WhileLostCharDelete | WhileAuth

  datatype ConnectType = NotDetected | Cli

  datatype Account = Account(cdkey: seq<byte>, passwd: seq<byte>)

  /** One entry of Connect; owner is the key stored in the character it plays. */
  datatype Conn = Conn(used: bool, fdid: nat, ctype: ConnectType, state: LoginType,
                       account: Account, owner: seq<byte>)

  /** What a client may ask; mac and ip are those of the client. */
  datatype Request =
    | ClientLogin(account: Account, ip: seq<byte>, mac: seq<byte>)
    | CharList
    | CharLogin(name: seq<byte>)
    | CharDelete(name: seq<byte>, passwd: seq<byte>)

  /** What a client is told. */
  datatype Told = ToldLogin(ok: bool) | ToldList(ok: bool) | ToldCharLogin(ok: bool) | ToldCharDelete(ok: bool)

  datatype Unlock = Unlocked | WasNotLocked | Refused

  /** Messages between the two servers: requests, and the replies that answer them. */
  datatype Message =
    | AskLogin(fdid: nat, account: Account, ip: seq<byte>, mac: seq<byte>)
    | AskList(fdid: nat, account: Account)
    | AskLoad(fdid: nat, account: Account, name: seq<byte>)
    | AskDelete(fdid: nat, account: Account, name: seq<byte>)
    | AskUnlock(fdid: nat, cdkey: seq<byte>)
    | TellLogin(fdid: nat, flag: nat)
    | TellList(fdid: nat, ok: bool)
    | TellLoad(fdid: nat, ok: bool, empty: bool, owner: seq<byte>)   // empty: no character data with it
    | TellDelete(fdid: nat, ok: bool)
    | TellUnlock(fdid: nat, outcome: Unlock)

  /** What becomes of a connection, what goes to the account server, what the client is told. */
  datatype Outcome = Outcome(conn: Conn, sent: seq<Message>, told: seq<Told>)

  function Unchanged(c: Conn): Outcome {
    Outcome(c, [], [])
  }

  function Answered(c: Conn, t: Told): Outcome {
    Outcome(c, [], [t])
  }

  function Fresh(fdid: nat): Conn {
    Conn(true, fdid, NotDetected, NullConnect, Account([], []), [])
  }

  /** checkStringErr. */
  predicate StringErr(s: seq<byte>) {
    !(Valid(s) && Plain(s))
  }

  predicate TooLong(a: Account) {
    |a.cdkey| >= CDKEYLEN || |a.passwd| >= PASSWDLEN
  }

  predicate Blank(a: Account) {
    a.cdkey == [] || a.passwd == []
  }

  function LoginRequested(c: Conn, a: Account, ip: seq<byte>, mac: seq<byte>): Outcome {
    if c.state != NullConnect then Unchanged(c)
    else if Blank(a) || TooLong(a) then Answered(c, ToldLogin(false))
    else if StringErr(a.cdkey) || StringErr(a.passwd) then Unchanged(c)
    else Outcome(c.(account := a, ctype := Cli, state := WhileAuth),
                 [AskLogin(c.fdid, a, ip, if StringErr(mac) then [] else mac)], [])
  }

  function ListRequested(c: Conn): Outcome {
    if c.ctype != Cli then Unchanged(c)
    else if c.state != NotLogin then Answered(c, ToldList(false))
    else Outcome(c.(state := WhileDownloadCharList), [AskList(c.fdid, c.account)], [])
  }

  function CharLoginRequested(c: Conn, name: seq<byte>): Outcome {
    if c.ctype != Cli then Unchanged(c)
    else if name == [] || c.state != NotLogin then Answered(c, ToldCharLogin(false))
    else Outcome(c.(state := WhileLogin), [AskLoad(c.fdid, c.account, name)], [])
  }

  function CharDeleteRequested(c: Conn, name: seq<byte>, passwd: seq<byte>): Outcome {
    if c.ctype != Cli then Unchanged(c)
    else if c.state != NotLogin then Answered(c, ToldCharDelete(false))
    else Outcome(c.(state := WhileCharDelete), [AskDelete(c.fdid, Account(c.account.cdkey, passwd), name)], [])
  }

  /** The dispatcher: nothing gets through while the account server is deciding. */
  function Dispatched(c: Conn, r: Request): Outcome {
    if c.state == WhileAuth then Unchanged(c)
    else match r
      case ClientLogin(a, ip, mac) => if Blank(a) then Unchanged(c) else LoginRequested(c, a, ip, mac)
      case CharList => ListRequested(c)
      case CharLogin(name) => CharLoginRequested(c, name)
      case CharDelete(name, passwd) => CharDeleteRequested(c, name, passwd)
  }

  function LoginAnswered(c: Conn, flag: nat): Outcome {
    if c.state != WhileAuth then Unchanged(c)
    else if flag == 0 then Answered(c.(state := NotLogin), ToldLogin(true))
    else Answered(c.(state := NullConnect), ToldLogin(false))
  }

  /** made: nothing but a foreign owner kept the character from being made. */
  function LoadAnswered(c: Conn, ok: bool, empty: bool, owner: seq<byte>, made: bool): Outcome {
    if !ok || empty then Answered(c.(state := NotLogin), ToldCharLogin(ok))
    else if owner == c.account.cdkey && made then Answered(c.(state := Login, owner := owner), ToldCharLogin(true))
    else Outcome(c.(state := WhileCannotLogin), [AskUnlock(c.fdid, c.account.cdkey)], [ToldCharLogin(false)])
  }

  function DeleteAnswered(c: Conn, ok: bool): Outcome {
    match c.state
    case WhileLostCharDelete => Unchanged(c.(state := NotLogin))
    case WhileCharDelete => Answered(c.(state := NotLogin), ToldCharDelete(ok))
    case _ => Unchanged(c)
  }

  function UnlockAnswered(c: Conn, outcome: Unlock): Outcome {
    if c.state != WhileCannotLogin then Unchanged(c)
    else if outcome == Refused then Outcome(c, [AskUnlock(c.fdid, c.account.cdkey)], [])
    else Unchanged(c.(state := NotLogin))
  }

  predicate IsReply(m: Message) {
    m.TellLogin? || m.TellList? || m.TellLoad? || m.TellDelete? || m.TellUnlock?
  }

  /** A reply for this connection. */
  function Replied(c: Conn, m: Message, made: bool): Outcome
    requires IsReply(m)
  {
    match m
    case TellLogin(_, flag) => LoginAnswered(c, flag)
    case TellList(_, ok) => Answered(c.(state := NotLogin), ToldList(ok))
    case TellLoad(_, ok, empty, owner) => LoadAnswered(c, ok, empty, owner, made)
    case TellDelete(_, ok) => DeleteAnswered(c, ok)
    case TellUnlock(_, outcome) => UnlockAnswered(c, outcome)
  }

  // ---- finding a connection by its number

  predicate Has(c: Conn, fdid: nat) {
    c.used && c.fdid == fdid
  }

  /** The first connection from slot i on that is in use under this number, or -1. */
  function FdFrom(conns: seq<Conn>, fdid: nat, i: nat): (fd: int)
    ensures fd == -1 ==> forall k :: i <= k < |conns| ==> !Has(conns[k], fdid)
    ensures fd != -1 ==> i <= fd < |conns| && Has(conns[fd], fdid)
    decreases |conns| - i
  {
    if i >= |conns| then -1 else if Has(conns[i], fdid) then i else FdFrom(conns, fdid, i + 1)
  }
}
