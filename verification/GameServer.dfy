/** The game server's side: the connection table, updated in place. What arrives at
    it and what it sends are the steps of a run of the login protocol. */
module GameServers {
  import opened Bytes
  import opened Utf8
  import opened Connections
  import LoginProtocol

  const EHOSTUNREACH: int := 113
  const ECONNRESET: int := 104

  /** Every string of a request ends at its terminator. */
  predicate CStrings(r: Request) {
    match r
    case ClientLogin(a, _, mac) => NulFree(a.cdkey) && NulFree(a.passwd) && NulFree(mac)
    case _ => true
  }

  class GameServer {
    const connect: array<Conn>
    var nextFdid: nat
    ghost var world: LoginProtocol.World
    ghost var history: seq<LoginProtocol.Event>

    constructor (size: nat)
      ensures Valid() && fresh(connect) && connect.Length == size && history == []
      ensures forall i :: 0 <= i < size ==> !connect[i].used
    {
      connect := new Conn[size](_ => Fresh(0).(used := false));
      nextFdid := 0;
      world := LoginProtocol.Start(size);
      history := [];
      new;
      assert connect[..] == world.conns;
    }

    /** The table is that of the protocol's world, after the run so far. */
    ghost predicate Valid()
      reads this, connect
    {
      && world == LoginProtocol.Run(LoginProtocol.Start(connect.Length), history)
      && connect[..] == world.conns && nextFdid == world.nextFdid
    }

    /** One step of the protocol has been taken. */
    twostate predicate Took(e: LoginProtocol.Event)
      reads this, connect
    {
      Valid() && history == old(history) + [e] && world == LoginProtocol.Step(old(world), e)
    }

    ghost method Record(e: LoginProtocol.Event)
      requires world == LoginProtocol.Run(LoginProtocol.Start(connect.Length), history)
      requires var w := LoginProtocol.Step(world, e); connect[..] == w.conns && nextFdid == w.nextFdid
      modifies this`world, this`history
      ensures Took(e)
    {
      LoginProtocol.RunAppend(LoginProtocol.Start(connect.Length), history, e);
      world, history := LoginProtocol.Step(world, e), history + [e];
    }

    /** The account server and the network take their steps without this server. */
    ghost method Elsewhere(e: LoginProtocol.Event)
      requires Valid() && (e.ServeLogin? || e.Serve? || e.Lose?)
      modifies this`world, this`history
      ensures Took(e)
    {
      Record(e);
    }

    predicate Checkfd(fd: int)
      reads connect
    {
      0 <= fd < connect.Length && connect[fd].used
    }

    method InitConnectOne(fd: nat)
      requires Valid() && fd < connect.Length
      modifies this, connect
      ensures connect[..] == old(connect[..])[fd := Fresh(old(nextFdid))]
      ensures nextFdid == old(nextFdid) + 1
      ensures Took(LoginProtocol.Event.Open(fd))
    {
      connect[fd] := Conn(true, nextFdid, NotDetected, NullConnect, Account([], []), []);
      nextFdid := nextFdid + 1;
      Record(LoginProtocol.Event.Open(fd));
    }

    /** _CONNECT_endOne; errno is whatever an earlier call left there. */
    method EndOne(fd: nat, errno: int)
      requires Valid() && fd < connect.Length
      modifies this`world, this`history, connect
      ensures errno == EHOSTUNREACH || errno == ECONNRESET ==> connect[..] == old(connect[..]) && Valid()
      ensures errno != EHOSTUNREACH && errno != ECONNRESET ==>
                && connect[..] == old(connect[..])[fd := old(connect[fd]).(used := false)]
                && Took(LoginProtocol.Event.Close(fd))
    {
      if errno == EHOSTUNREACH || errno == ECONNRESET {
        return;
      }
      assert connect[..] == connect[..][fd := connect[fd]];
      if connect[fd].used {
        connect[fd] := connect[fd].(used := false);
      }
      Record(LoginProtocol.Event.Close(fd));
    }

    method GetfdFromFdid(fdid: nat) returns (fd: int)
      ensures fd == FdFrom(connect[..], fdid, 0)
    {
      for i := 0 to connect.Length
        invariant FdFrom(connect[..], fdid, 0) == FdFrom(connect[..], fdid, i)
      {
        if connect[i].used && connect[i].fdid == fdid {
          return i;
        }
      }
      return -1;
    }

    method SetState(fd: nat, state: LoginType)
      requires fd < connect.Length
      modifies connect
      ensures connect[..] == old(connect[..])[fd := old(connect[fd]).(state := state)]
    {
      connect[fd] := connect[fd].(state := state);
    }

    /** Slot fd, and only it, has become what o says. */
    twostate predicate Turned(fd: nat, o: Outcome)
      reads connect
    {
      fd < connect.Length && connect[..] == old(connect[..])[fd := o.conn]
    }

    method ClientLogin(fd: nat, account: Account, ip: seq<byte>, mac: seq<byte>)
      returns (sent: seq<Message>, told: seq<Told>)
      requires Checkfd(fd) && NulFree(account.cdkey) && NulFree(account.passwd) && NulFree(mac)
      modifies connect
      ensures var o := LoginRequested(old(connect[fd]), account, ip, mac);
              Turned(fd, o) && sent == o.sent && told == o.told
    {
      sent, told := [], [];
      assert connect[..] == connect[..][fd := connect[fd]];
      if connect[fd].state != NullConnect {
        return;
      }
      if |account.cdkey| == 0 || |account.passwd| == 0
         || |account.cdkey| >= CDKEYLEN || |account.passwd| >= PASSWDLEN {
        told := [ToldLogin(false)];
        return;
      }
      var err := CheckStringErr(account.cdkey);
      if err {
        return;
      }
      err := CheckStringErr(account.passwd);
      if err {
        return;
      }
      connect[fd] := connect[fd].(account := account, ctype := Cli);
      err := CheckStringErr(mac);
      var m := if err then [] else mac;
      connect[fd] := connect[fd].(state := WhileAuth);
      sent := [AskLogin(connect[fd].fdid, account, ip, m)];
    }

    method CharList(fd: nat) returns (sent: seq<Message>, told: seq<Told>)
      requires Checkfd(fd)
      modifies connect
      ensures var o := ListRequested(old(connect[fd]));
              Turned(fd, o) && sent == o.sent && told == o.told
    {
      sent, told := [], [];
      assert connect[..] == connect[..][fd := connect[fd]];
      if connect[fd].ctype != Cli {
        return;
      }
      if connect[fd].state != NotLogin {
        told := [ToldList(false)];
        return;
      }
      sent := [AskList(connect[fd].fdid, connect[fd].account)];
      SetState(fd, WhileDownloadCharList);
    }

    method CharLogin(fd: nat, name: seq<byte>) returns (sent: seq<Message>, told: seq<Told>)
      requires Checkfd(fd)
      modifies connect
      ensures var o := CharLoginRequested(old(connect[fd]), name);
              Turned(fd, o) && sent == o.sent && told == o.told
    {
      sent, told := [], [];
      assert connect[..] == connect[..][fd := connect[fd]];
      if connect[fd].ctype != Cli {
        return;
      }
      if |name| == 0 {
        told := [ToldCharLogin(false)];
        return;
      }
      if connect[fd].state != NotLogin {
        told := [ToldCharLogin(false)];
        return;
      }
      sent := [AskLoad(connect[fd].fdid, connect[fd].account, name)];
      SetState(fd, WhileLogin);
    }

    method CharDelete(fd: nat, name: seq<byte>, passwd: seq<byte>) returns (sent: seq<Message>, told: seq<Told>)
      requires Checkfd(fd)
      modifies connect
      ensures var o := CharDeleteRequested(old(connect[fd]), name, passwd);
              Turned(fd, o) && sent == o.sent && told == o.told
    {
      sent, told := [], [];
      assert connect[..] == connect[..][fd := connect[fd]];
      if connect[fd].ctype != Cli {
        return;
      }
      if connect[fd].state != NotLogin {
        told := [ToldCharDelete(false)];
        return;
      }
      sent := [AskDelete(connect[fd].fdid, Account(connect[fd].account.cdkey, passwd), name)];
      SetState(fd, WhileCharDelete);
    }

    /** The head of the dispatcher and its four cases. */
    method Dispatch(fd: nat, r: Request) returns (sent: seq<Message>, told: seq<Told>)
      requires Valid() && Checkfd(fd) && CStrings(r)
      modifies this`world, this`history, connect
      ensures Took(LoginProtocol.Event.FromClient(fd, r))
      ensures told == LoginProtocol.ToldAt(old(world), LoginProtocol.Event.FromClient(fd, r))
      ensures var o := Dispatched(old(connect[fd]), r);
              Turned(fd, o) && sent == o.sent && told == o.told
    {
      sent, told := [], [];
      assert connect[..] == connect[..][fd := connect[fd]];
      if connect[fd].state != WhileAuth {
        match r {
          case ClientLogin(account, ip, mac) =>
            if |account.cdkey| > 0 && |account.passwd| > 0 {
              sent, told := ClientLogin(fd, account, ip, mac);
            }
          case CharList =>
            sent, told := CharList(fd);
          case CharLogin(name) =>
            sent, told := CharLogin(fd, name);
          case CharDelete(name, passwd) =>
            sent, told := CharDelete(fd, name, passwd);
        }
      }
      Record(LoginProtocol.Event.FromClient(fd, r));
    }

    /** What a reply does to the table: it goes to the connection that has its number, if any. */
    twostate predicate ReplyTaken(m: Message, made: bool, sent: seq<Message>, told: seq<Told>)
      requires IsReply(m)
      reads connect
    {
      var fd := FdFrom(old(connect[..]), m.fdid, 0);
      if fd == -1 then connect[..] == old(connect[..]) && sent == [] && told == []
      else
        var o := Replied(old(connect[fd]), m, made);
        Turned(fd, o) && sent == o.sent && told == o.told
    }

    method ACCharLoginRecv(fdid: nat, flag: nat) returns (told: seq<Told>)
      modifies connect
      ensures ReplyTaken(TellLogin(fdid, flag), true, [], told)
    {
      told := [];
      var fd := GetfdFromFdid(fdid);
      if !Checkfd(fd) {
        return;
      }
      assert connect[..] == connect[..][fd := connect[fd]];
      if connect[fd].state != WhileAuth {
        return;
      }
      if flag == 0 {
        SetState(fd, NotLogin);
        told := [ToldLogin(true)];
      } else {
        SetState(fd, NullConnect);
        told := [ToldLogin(false)];
      }
    }

    method ACCharListRecv(fdid: nat, ok: bool) returns (told: seq<Told>)
      modifies connect
      ensures ReplyTaken(TellList(fdid, ok), true, [], told)
    {
      told := [];
      var fd := GetfdFromFdid(fdid);
      if !Checkfd(fd) {
        return;
      }
      told := [ToldList(ok)];
      SetState(fd, NotLogin);
    }

    method ACCharLoadRecv(fdid: nat, ok: bool, empty: bool, owner: seq<byte>, made: bool)
      returns (sent: seq<Message>, told: seq<Told>)
      modifies connect
      ensures ReplyTaken(TellLoad(fdid, ok, empty, owner), made, sent, told)
    {
      sent, told := [], [];
      var fd := GetfdFromFdid(fdid);
      if !Checkfd(fd) {
        return;
      }
      if !ok || empty {
        told := [ToldCharLogin(ok)];
        SetState(fd, NotLogin);
      } else if owner != connect[fd].account.cdkey || !made {
        sent := [AskUnlock(connect[fd].fdid, connect[fd].account.cdkey)];
        SetState(fd, WhileCannotLogin);
        told := [ToldCharLogin(false)];
      } else {
        connect[fd] := connect[fd].(state := Login, owner := owner);
        told := [ToldCharLogin(true)];
      }
    }

    method ACCharDeleteRecv(fdid: nat, ok: bool) returns (told: seq<Told>)
      modifies connect
      ensures ReplyTaken(TellDelete(fdid, ok), true, [], told)
      ensures var fd := FdFrom(old(connect[..]), fdid, 0);
              fd != -1 ==>
                var state := old(connect[fd]).state;
                && told == (if state == WhileCharDelete then [ToldCharDelete(ok)] else [])
                && connect[fd].state == (if state == WhileCharDelete || state == WhileLostCharDelete then NotLogin
                                         else state)
    {
      told := [];
      var fd := GetfdFromFdid(fdid);
      if !Checkfd(fd) {
        return;
      }
      assert connect[..] == connect[..][fd := connect[fd]];
      match connect[fd].state {
        case WhileLostCharDelete =>
          SetState(fd, NotLogin);
        case WhileCharDelete =>
          told := [ToldCharDelete(ok)];
          SetState(fd, NotLogin);
        case _ =>
      }
    }

    method ACLockRecv(fdid: nat, outcome: Unlock) returns (sent: seq<Message>)
      modifies connect
      ensures ReplyTaken(TellUnlock(fdid, outcome), true, sent, [])
    {
      sent := [];
      var fd := GetfdFromFdid(fdid);
      if !Checkfd(fd) {
        return;
      }
      assert connect[..] == connect[..][fd := connect[fd]];
      if connect[fd].state == WhileCannotLogin {
        if outcome == Unlocked || outcome == WasNotLocked {
          SetState(fd, NotLogin);
        } else {
          sent := [AskUnlock(connect[fd].fdid, connect[fd].account.cdkey)];
        }
      }
    }

    /** The dispatcher of the account server's messages: a reply is taken off the wire. */
    method Receive(m: Message, made: bool) returns (sent: seq<Message>, told: seq<Told>)
      requires Valid() && IsReply(m) && m in world.wire
      modifies this`world, this`history, connect
      ensures Took(LoginProtocol.Event.Deliver(m, made))
      ensures told == LoginProtocol.ToldAt(old(world), LoginProtocol.Event.Deliver(m, made))
      ensures ReplyTaken(m, made, sent, told)
    {
      sent, told := [], [];
      match m {
        case TellLogin(fdid, flag) =>
          told := ACCharLoginRecv(fdid, flag);
        case TellList(fdid, ok) =>
          told := ACCharListRecv(fdid, ok);
        case TellLoad(fdid, ok, empty, owner) =>
          sent, told := ACCharLoadRecv(fdid, ok, empty, owner, made);
        case TellDelete(fdid, ok) =>
          told := ACCharDeleteRecv(fdid, ok);
        case TellUnlock(fdid, outcome) =>
          sent := ACLockRecv(fdid, outcome);
      }
      Record(LoginProtocol.Event.Deliver(m, made));
    }

    // ---- what the runs of the protocol guarantee, of the table itself

    /** A connection past authentication holds exactly the account that the account
        server let in under its number, and the one outstanding message of that number,
        if any, is the one it waits for. */
    lemma Authenticated(fd: nat)
      requires Valid() && Checkfd(fd) && LoginProtocol.Authorised(connect[fd])
      ensures forall a :: LoginProtocol.Grant.Grant(connect[fd].fdid, a) in world.granted <==> a == connect[fd].account
      ensures connect[fd].state == Login ==> connect[fd].owner == connect[fd].account.cdkey
      ensures forall m :: m in world.wire && m.fdid == connect[fd].fdid ==>
                LoginProtocol.Awaited(connect[fd], m) && world.wire[m] == 1
    {
      LoginProtocol.Authentication(connect.Length, history, fd);
      if connect[fd].state == Login {
        LoginProtocol.PlaysOwnCharacter(connect.Length, history, fd);
      }
      forall m | m in world.wire && m.fdid == connect[fd].fdid
        ensures LoginProtocol.Awaited(connect[fd], m) && world.wire[m] == 1
      {
        LoginProtocol.OneOutstanding(connect.Length, history, m, m);
        assert Has(world.conns[fd], m.fdid);
      }
    }

    /** Whatever happens between two moments, a connection that has been let in and is
        still there is still let in, and under the same account. */
    twostate lemma KeepsAccount(fd: nat)
      requires old(Valid()) && Valid() && old(history) <= history
      requires old(Checkfd(fd)) && LoginProtocol.Authorised(old(connect[fd]))
      requires Has(connect[fd], old(connect[fd].fdid))
      ensures LoginProtocol.Authorised(connect[fd]) && connect[fd].account == old(connect[fd].account)
    {
      var start, before := LoginProtocol.Start(connect.Length), old(history);
      var c, after := old(connect[fd]), history[|before|..];
      assert before + after == history;
      LoginProtocol.RunSplit(start, before, after);
      LoginProtocol.StartKeeps(connect.Length);
      LoginProtocol.RunKeeps(start, before);
      LoginProtocol.AccountForGood(old(world), after, fd, c.fdid, c.account);
    }
  }
}
