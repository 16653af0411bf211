/** The user cache of the ISUCON5 application (5/webapp/go/cache.go): three
    maps from id, account name and email to a user, filled by
    `unsafeSetUser` and read by `fromID`, `fromAccount` and `fromEmail`. The
    Go maps hold references to fresh copies that nothing mutates, so the model
    stores the records themselves; the unused lock array is not modelled. */
module UserCache {
  import opened Wrappers

  /** The `User` struct of the application. */
  datatype User = User(id: int, accountName: string, nickName: string, email: string)

  class Cache {
    var byId: map<int, User>
    var byAccount: map<string, User>
    var byEmail: map<string, User>

    /** Every record is filed under its own id, account name and email. */
    ghost predicate FiledUnderOwnKeys()
      reads this
    {
      && (forall id :: id in byId ==> byId[id].id == id)
      && (forall a :: a in byAccount ==> byAccount[a].accountName == a)
      && (forall e :: e in byEmail ==> byEmail[e].email == e)
    }

    /** The package's `init`: all three maps empty. */
    constructor ()
      ensures byId == map[] && byAccount == map[] && byEmail == map[]
      ensures FiledUnderOwnKeys()
    {
      byId, byAccount, byEmail := map[], map[], map[];
    }

    /** `unsafeSetUser`: file `user` under its account name, its email and its
        id, overwriting those three entries and no other; an entry under a
        former account name or email stays. */
    method SetUser(user: User)
      modifies this
      ensures byAccount == old(byAccount)[user.accountName := user]
      ensures byEmail == old(byEmail)[user.email := user]
      ensures byId == old(byId)[user.id := user]
      ensures old(FiledUnderOwnKeys()) ==> FiledUnderOwnKeys()
    {
      byAccount := byAccount[user.accountName := user];
      byEmail := byEmail[user.email := user];
      byId := byId[user.id := user];
    }

    /** `fromAccount`: the cached user and `true`, or nil and `false`. */
    method FromAccount(name: string) returns (user: Option<User>, ok: bool)
      ensures ok <==> name in byAccount
      ensures ok ==> user == Some(byAccount[name])
      ensures !ok ==> user == None
    {
      ok := name in byAccount;
      user := if ok then Some(byAccount[name]) else None;
    }

    /** `fromEmail`. */
    method FromEmail(email: string) returns (user: Option<User>, ok: bool)
      ensures ok <==> email in byEmail
      ensures ok ==> user == Some(byEmail[email])
      ensures !ok ==> user == None
    {
      ok := email in byEmail;
      user := if ok then Some(byEmail[email]) else None;
    }

    /** `fromID`. */
    method FromId(id: int) returns (user: Option<User>, ok: bool)
      ensures ok <==> id in byId
      ensures ok ==> user == Some(byId[id])
      ensures !ok ==> user == None
    {
      ok := id in byId;
      user := if ok then Some(byId[id]) else None;
    }
  }

  /** After `unsafeSetUser(user)` all three lookups by `user`'s keys return it. */
  method SetThenLookUp(c: Cache, user: User) returns (a: Option<User>, e: Option<User>, i: Option<User>)
    modifies c
    ensures a == Some(user) && e == Some(user) && i == Some(user)
  {
    c.SetUser(user);
    var ok: bool;
    a, ok := c.FromAccount(user.accountName);
    e, ok := c.FromEmail(user.email);
    i, ok := c.FromId(user.id);
  }

  /** A fresh cache knows no one. */
  method EmptyCacheMisses(id: int, name: string, email: string) returns (okA: bool, okE: bool, okI: bool)
    ensures !okA && !okE && !okI
  {
    var c := new Cache();
    var u: Option<User>;
    u, okA := c.FromAccount(name);
    u, okE := c.FromEmail(email);
    u, okI := c.FromId(id);
  }

  /** Re-setting a user under a new email leaves the old email mapped to the
      old record: nothing is evicted. */
  method StaleEmailAfterChange(c: Cache, user: User, newEmail: string) returns (stale: Option<User>, ok: bool)
    requires newEmail != user.email
    modifies c
    ensures ok && stale == Some(user)
  {
    c.SetUser(user);
    c.SetUser(user.(email := newEmail));
    stale, ok := c.FromEmail(user.email);
  }
}
