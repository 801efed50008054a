/** The account server's decision on a login. */
module AccountServer {
  import opened Bytes
  import opened Utf8
  import opened Connections

  const USERID_MAX: nat := 32
  const SAAC_PASSWORD_MAX: nat := 32
  const SAAC_IP_MAX: nat := 45
  const SAAC_MAC_MAX: nat := 127

  /** What the database answers while one login is decided. */
  datatype Answers = Answers(idLocked: bool, ipLocked: bool, macLocked: bool,
                             query: int, registered: bool, itemPetLocked: int)

  predicate WellFormed(a: Account, ip: seq<byte>, mac: seq<byte>) {
    && 0 < |a.cdkey| < USERID_MAX
    && 0 < |a.passwd| <= SAAC_PASSWORD_MAX
    && 0 < |ip| <= SAAC_IP_MAX
    && |mac| <= SAAC_MAC_MAX
  }

  /** Nothing that the login names is locked. */
  predicate Unlocked(mac: seq<byte>, db: Answers) {
    !db.idLocked && !db.ipLocked && (mac == [] || !db.macLocked)
  }

  /** The database knows the pair, or has just registered it, or knows it by the
      character lock (any answer but "known" and "not registered" is asked again there). */
  predicate Known(db: Answers) {
    db.query == 1 || (db.query == 3 && db.registered)
    || (db.query != 1 && db.query != 3 && db.itemPetLocked == 1)
  }

  /** The flag of the reply to a login. */
  function LoginFlag(a: Account, ip: seq<byte>, mac: seq<byte>, db: Answers): (flag: nat)
    ensures flag == 0 <==> WellFormed(a, ip, mac) && Unlocked(mac, db) && Known(db)
  {
    if !WellFormed(a, ip, mac) then 1
    else if db.idLocked then 2
    else if !Unlocked(mac, db) then 3
    else if Known(db) then 0
    else if db.query == 3 then 5 else 6
  }

  /** SaacServer_ACCharLogin_recv: the flag of the one reply that it sends. */
  method ACCharLogin(a: Account, ip: seq<byte>, mac: seq<byte>, db: Answers) returns (flag: nat)
    ensures flag == LoginFlag(a, ip, mac, db)
    ensures flag == 0 <==> WellFormed(a, ip, mac) && Unlocked(mac, db) && Known(db)
    ensures flag == 1 <==> !WellFormed(a, ip, mac)
    ensures flag == 2 <==> WellFormed(a, ip, mac) && db.idLocked
    ensures flag == 3 <==> WellFormed(a, ip, mac) && !db.idLocked && !Unlocked(mac, db)
    ensures flag == 5 <==> WellFormed(a, ip, mac) && Unlocked(mac, db) && !Known(db) && db.query == 3
    ensures flag == 6 <==> WellFormed(a, ip, mac) && Unlocked(mac, db) && !Known(db) && db.query != 3
  {
    if |a.cdkey| == 0 || |a.cdkey| >= USERID_MAX || |a.passwd| == 0 || |a.passwd| > SAAC_PASSWORD_MAX
       || |ip| == 0 || |ip| > SAAC_IP_MAX || |mac| > SAAC_MAC_MAX {
      return 1;
    }
    if db.idLocked {
      return 2;
    }
    if db.ipLocked {
      return 3;
    }
    if |mac| > 0 {
      if db.macLocked {
        return 3;
      }
    }
    if db.query == 3 {
      if !db.registered {
        return 5;
      }
    } else if db.query != 1 {
      if db.itemPetLocked != 1 {
        return 6;
      }
    }
    return 0;
  }

  /** The account server never finds fault with the form of what the game server
      sends: the key and password have passed narrower checks there. */
  lemma SentLoginsAreWellFormed(c: Conn, r: Request, m: Message)
    requires m in Dispatched(c, r).sent && m.AskLogin?
    requires 0 < |m.ip| <= SAAC_IP_MAX && |m.mac| <= SAAC_MAC_MAX
    ensures WellFormed(m.account, m.ip, m.mac)
    ensures Valid(m.account.cdkey) && Plain(m.account.cdkey) && Valid(m.account.passwd) && Plain(m.account.passwd)
    ensures Valid(m.mac) && Plain(m.mac)
  {
  }
}
