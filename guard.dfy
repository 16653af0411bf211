/** The login brute-force guard of the ISUCON4 application
    (4/webapp/db.go:11-124): every attempt is decided by a fixed chain of
    checks against the Redis counters and the users table, and then, whatever
    the outcome, recorded in both the counters and the ledger. */
module Guard {
  import opened Wrappers
  import opened Strconv
  import opened Ledger
  import opened Counters
  import opened Util

  /** A row of the users table. */
  datatype User = User(id: int, login: string, passwordHash: string, salt: string)

  /** The four rejections `attemptLogin` returns. */
  datatype LoginError = BannedIP | LockedUser | UserNotFound | WrongPassword

  /** The address an attempt is keyed by: the `X-Forwarded-For` header when it
      is non-empty, the peer address otherwise. */
  function ClientAddr(remoteAddr: string, forwardedFor: string): (ip: string)
    ensures forwardedFor != "" ==> ip == forwardedFor
    ensures forwardedFor == "" ==> ip == remoteAddr
  {
    if |forwardedFor| > 0 then forwardedFor else remoteAddr
  }

  /** The counter key of a user: the id in decimal, as the Redis client writes it. */
  function UserKey(id: int): string
  {
    Itoa(id)
  }

  /** `SELECT ... FROM users WHERE login = ?`. */
  function FindUser(users: map<string, User>, login: string): (r: Option<User>)
    ensures r.None? <==> login !in users
    ensures r.Some? ==> r.value == users[login]
  {
    if login in users then Some(users[login]) else None
  }

  function UserIdOf(user: Option<User>): Option<int>
  {
    if user.Some? then Some(user.value.id) else None
  }

  /** `isBannedIP` on the reply to `GET ip`: (banned, error returned). A missing
      counter reads as Redis nil, which the integer conversion turns into an
      error, so missing and unreadable counters both mean "not banned". */
  function IsBannedIP(reply: Reply, threshold: int): (r: (bool, bool))
    ensures r.0 <==> reply.Int? && threshold <= reply.n
    ensures r.1 <==> !reply.Int?
  {
    match reply
    case Int(n) => (threshold <= n, false)
    case _ => (false, true)
  }

  /** `isLockedUser`; `reply` answers `GET user.ID` and is not consulted for an
      unresolved user. Every read failure is swallowed: the error is always nil. */
  function IsLockedUser(user: Option<User>, reply: Reply, threshold: int): (r: (bool, bool))
    ensures r.0 <==> user.Some? && reply.Int? && threshold <= reply.n
    ensures !r.1
  {
    if user.None? then (false, false)
    else match reply
      case Int(n) => (threshold <= n, false)
      case _ => (false, false)
  }

  /** The decision chain of `attemptLogin`: ban, then lock, then unknown user,
      then password; the first check that fires is the answer. */
  function Decide(banned: bool, locked: bool, found: Option<User>, sha: string -> string, password: string)
    : (r: (Option<User>, Option<LoginError>))
    ensures r.1 == Some(BannedIP) <==> banned
    ensures r.1 == Some(LockedUser) <==> !banned && locked
    ensures r.1 == Some(UserNotFound) <==> !banned && !locked && found.None?
    ensures r.1 == Some(WrongPassword) <==>
              !banned && !locked && found.Some? && found.value.passwordHash != CalcPassHash(sha, password, found.value.salt)
    ensures r.1.None? <==> !banned && !locked && found.Some?
                           && found.value.passwordHash == CalcPassHash(sha, password, found.value.salt)
    ensures r.1.None? ==> r.0 == found
    ensures r.1.Some? ==> r.0.None?
  {
    if banned then (None, Some(BannedIP))
    else if locked then (None, Some(LockedUser))
    else if found.None? then (None, Some(UserNotFound))
    else if found.value.passwordHash != CalcPassHash(sha, password, found.value.salt) then (None, Some(WrongPassword))
    else (found, None)
  }

  /** The counter updates of `createLoginLog`: for a resolved user its key
      first, then the IP's key; `DEL` on success, `INCR` on failure. */
  function LoggedCounters(m: map<string, int>, succeeded: bool, ip: string, user: Option<User>): (m': map<string, int>)
    ensures succeeded ==> ip !in m' && (user.Some? ==> UserKey(user.value.id) !in m')
    ensures !succeeded ==> ip in m' && (user.Some? ==> UserKey(user.value.id) in m')
    ensures forall k :: k in m && k != ip && (user.None? || k != UserKey(user.value.id)) ==> k in m' && m'[k] == m[k]
    ensures forall k :: k in m' ==> k in m || k == ip || (user.Some? && k == UserKey(user.value.id))
  {
    var m1 := if user.None? then m
              else if succeeded then AfterDel(m, UserKey(user.value.id))
              else AfterIncr(m, UserKey(user.value.id));
    if succeeded then AfterDel(m1, ip) else AfterIncr(m1, ip)
  }

  /** The counters and the ledger agree: a key holds a counter exactly when the
      ledger gives it a positive count, and then holds that count. */
  ghost predicate CountersAgree(m: map<string, int>, l: Log)
  {
    && (forall key :: key in m ==> m[key] == CounterFromLog(l, key))
    && (forall key :: CounterFromLog(l, key) > 0 ==> key in m)
  }

  /** Recording an attempt in both stores keeps them in agreement. */
  lemma LoggingKeepsAgreement(m: map<string, int>, l: Log, r: Attempt, user: Option<User>)
    requires CountersAgree(m, l)
    requires r.userId == UserIdOf(user)
    ensures CountersAgree(LoggedCounters(m, r.succeeded, r.ip, user), l + [r])
  {
    var m' := LoggedCounters(m, r.succeeded, r.ip, user);
    var l' := l + [r];
    assert Init(l') == l && Last(l') == r;
    forall key
      ensures key in m' ==> m'[key] == CounterFromLog(l', key)
      ensures CounterFromLog(l', key) > 0 ==> key in m'
    {
      LoggedCounterAt(m, r, user, key);
      assert CounterFromLog(l', key) == if Touches(r, key) == 0 then CounterFromLog(l, key)
                                        else if r.succeeded then 0
                                        else CounterFromLog(l, key) + Touches(r, key);
    }
  }

  /** The counter updates of one attempt, read at a single key: an untouched
      key keeps its counter, a success clears a touched key, and a failure
      adds the number of times the attempt names the key. */
  lemma LoggedCounterAt(m: map<string, int>, r: Attempt, user: Option<User>, key: string)
    requires r.userId == UserIdOf(user)
    ensures var m' := LoggedCounters(m, r.succeeded, r.ip, user);
            && (Touches(r, key) == 0 ==> (key in m' <==> key in m) && (key in m ==> m'[key] == m[key]))
            && (Touches(r, key) > 0 && r.succeeded ==> key !in m')
            && (Touches(r, key) > 0 && !r.succeeded ==>
                  key in m' && m'[key] == (if key in m then m[key] else 0) + Touches(r, key))
  {
  }

  /** Once an IP's counter has reached the threshold, a further failed attempt
      keeps it there: rejections feed the counter too. */
  lemma FailureKeepsBan(m: map<string, int>, ip: string, user: Option<User>, threshold: int)
    requires IsBannedIP(ReplyOf(m, true, ip), threshold).0
    ensures IsBannedIP(ReplyOf(LoggedCounters(m, false, ip, user), true, ip), threshold).0
  {
  }

  /** A success clears the IP's counter and, for a resolved user, the user's. */
  lemma SuccessClearsCounters(m: map<string, int>, ip: string, user: Option<User>)
    ensures ip !in LoggedCounters(m, true, ip, user)
    ensures user.Some? ==> UserKey(user.value.id) !in LoggedCounters(m, true, ip, user)
  {
  }

  /** A failure adds exactly one to the IP's counter, creating it at 1, and
      touches no user key when the login did not resolve. */
  lemma FailureCountsOnce(m: map<string, int>, ip: string)
    ensures LoggedCounters(m, false, ip, None) == AfterIncr(m, ip)
    ensures LoggedCounters(m, false, ip, None)[ip] == (if ip in m then m[ip] + 1 else 1)
  {
  }

  class LoginGuard {
    const userLockThreshold: int
    const ipBanThreshold: int
    /** The users table, by login. */
    const users: map<string, User>
    /** SHA-256 in hex. */
    const sha: string -> string
    const store: CounterStore
    /** The `login_log` table. */
    var ledger: Log
    /** Every attempt so far found the counter store reachable, and it started empty. */
    ghost var synced: bool

    ghost predicate Valid()
      reads this, store
    {
      IdsSequential(ledger) && (synced ==> CountersAgree(store.counts, ledger))
    }

    constructor (userLockThreshold: int, ipBanThreshold: int, users: map<string, User>,
                 sha: string -> string, store: CounterStore)
      ensures Valid()
      ensures this.userLockThreshold == userLockThreshold && this.ipBanThreshold == ipBanThreshold
      ensures this.users == users && this.sha == sha && this.store == store
      ensures ledger == [] && synced == (store.counts == map[])
    {
      this.userLockThreshold := userLockThreshold;
      this.ipBanThreshold := ipBanThreshold;
      this.users := users;
      this.sha := sha;
      this.store := store;
      ledger := [];
      synced := store.counts == map[];
    }

    /** The outcome `attemptLogin` returns for an attempt keyed by `ip` for
        `found`, against counters `m` read over a connection that is `up`. */
    function Verdict(m: map<string, int>, up: bool, ip: string, found: Option<User>, password: string)
      : (r: (Option<User>, Option<LoginError>))
      ensures r.1 == Some(BannedIP) <==> up && ip in m && ipBanThreshold <= m[ip]
      ensures r.1 == Some(LockedUser) <==>
                !(up && ip in m && ipBanThreshold <= m[ip]) && found.Some? && up
                && UserKey(found.value.id) in m && userLockThreshold <= m[UserKey(found.value.id)]
      ensures !up ==> r == Decide(false, false, found, sha, password)
    {
      var banned := IsBannedIP(ReplyOf(m, up, ip), ipBanThreshold).0;
      var lockReply := if found.Some? then ReplyOf(m, up, UserKey(found.value.id)) else Nil;
      var locked := IsLockedUser(found, lockReply, userLockThreshold).0;
      Decide(banned, locked, found, sha, password)
    }

    /** `createLoginLog`: update both counters, then append one ledger row
        stamped with the clock reading `now`. */
    method CreateLoginLog(succeeded: bool, remoteAddr: string, login: string, user: Option<User>, now: int)
      requires Valid()
      modifies this, store
      ensures Valid()
      ensures ledger == old(ledger) + [Attempt(|old(ledger)| + 1, now, UserIdOf(user), login, remoteAddr, succeeded)]
      ensures store.up == old(store.up)
      ensures store.counts == if old(store.up) then LoggedCounters(old(store.counts), succeeded, remoteAddr, user)
                              else old(store.counts)
      ensures synced == (old(synced) && old(store.up))
    {
      if user.Some? {
        var id := UserKey(user.value.id);
        if succeeded {
          store.Del(id);
        } else {
          store.Incr(id);
        }
      }
      if succeeded {
        store.Del(remoteAddr);
      } else {
        store.Incr(remoteAddr);
      }
      var row := Attempt(|ledger| + 1, now, UserIdOf(user), login, remoteAddr, succeeded);
      if synced && store.up {
        LoggingKeepsAgreement(old(store.counts), ledger, row, user);
      }
      ledger := ledger + [row];
      synced := synced && store.up;
    }

    /** `attemptLogin`. The final `CreateLoginLog` is the deferred call, which
        sees the resolved user and whether the attempt succeeded. */
    method AttemptLogin(login: string, password: string, remoteAddr: string, forwardedFor: string, now: int)
      returns (user: Option<User>, err: Option<LoginError>)
      requires Valid()
      modifies this, store
      ensures Valid()
      ensures (user, err) == Verdict(old(store.counts), old(store.up), ClientAddr(remoteAddr, forwardedFor),
                                     FindUser(users, login), password)
      ensures ledger == old(ledger) + [Attempt(|old(ledger)| + 1, now, UserIdOf(FindUser(users, login)), login,
                                               ClientAddr(remoteAddr, forwardedFor), err.None?)]
      ensures store.up == old(store.up)
      ensures store.counts == if old(store.up)
                              then LoggedCounters(old(store.counts), err.None?, ClientAddr(remoteAddr, forwardedFor),
                                                  FindUser(users, login))
                              else old(store.counts)
      ensures synced == (old(synced) && old(store.up))
    {
      var ip := ClientAddr(remoteAddr, forwardedFor);
      var found := FindUser(users, login);
      var banReply := store.Get(ip);
      if IsBannedIP(banReply, ipBanThreshold).0 {
        user, err := None, Some(BannedIP);
      } else {
        var lockReply := Nil;
        if found.Some? {
          lockReply := store.Get(UserKey(found.value.id));
        }
        if IsLockedUser(found, lockReply, userLockThreshold).0 {
          user, err := None, Some(LockedUser);
        } else if found.None? {
          user, err := None, Some(UserNotFound);
        } else if found.value.passwordHash != CalcPassHash(sha, password, found.value.salt) {
          user, err := None, Some(WrongPassword);
        } else {
          user, err := found, None;
        }
      }
      CreateLoginLog(err.None?, ip, login, found, now);
    }
  }

  /** A banned IP is refused before any credential is looked at: the correct
      password of an existing user still yields `BannedIP`. */
  lemma BannedBeforeCredentials(g: LoginGuard, m: map<string, int>, ip: string, found: Option<User>, password: string)
    requires ip in m && g.ipBanThreshold <= m[ip]
    ensures g.Verdict(m, true, ip, found, password) == (None, Some(BannedIP))
  {
  }

  /** A counter store that cannot be read bans and locks no one. */
  lemma UnreachableStoreFailsOpen(g: LoginGuard, m: map<string, int>, ip: string, found: Option<User>, password: string)
    ensures g.Verdict(m, false, ip, found, password).1 !in {Some(BannedIP), Some(LockedUser)}
  {
  }
}
