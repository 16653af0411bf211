/** End-to-end runs of the login guard with the default thresholds (3 failures
    lock an account, 10 ban an IP), each starting from an empty counter store
    and an empty ledger. */
module GuardScenarios {
  import opened Wrappers
  import opened Strconv
  import opened Counters
  import opened Util
  import opened Guard

  lemma UserKey42()
    ensures UserKey(42) == "42"
  {
    assert Digits(4) == "4";
    assert Digits(42) == Digits(4) + [DigitChar(2)];
  }

  /** Three failures from an IP for an unknown login, then the right password
      for an existing account from the same IP: the IP is below the ban
      threshold, the login succeeds and the IP's counter is cleared. */
  method SuccessBelowBanThreshold(sha: string -> string) returns (user: Option<User>, ipCleared: bool)
    ensures user == Some(User(42, "alice", CalcPassHash(sha, "secret", "salt"), "salt"))
    ensures ipCleared
  {
    var alice := User(42, "alice", CalcPassHash(sha, "secret", "salt"), "salt");
    var ip := "1.2.3.4";
    var store := new CounterStore();
    var g := new LoginGuard(3, 10, map["alice" := alice], sha, store);
    var i := 0;
    while i < 3
      invariant 0 <= i <= 3
      invariant g.Valid() && store.up
      invariant store.counts == AfterIncrs(map[], ip, i)
    {
      var _, _ := g.AttemptLogin("bob", "guess", ip, "", 0);
      i := i + 1;
    }
    ConsecutiveIncrs(map[], ip, 3);
    assert FindUser(g.users, "alice") == Some(alice);
    assert "42" !in store.counts;
    var err;
    user, err := g.AttemptLogin("alice", "secret", ip, "", 0);
    ipCleared := ip !in store.counts;
  }

  /** Ten failures from an IP, then the right password for an existing
      account from that IP: refused as a banned IP. */
  method BannedIpRefusesCorrectPassword(sha: string -> string) returns (err: Option<LoginError>)
    ensures err == Some(BannedIP)
  {
    var alice := User(42, "alice", CalcPassHash(sha, "secret", "salt"), "salt");
    var ip := "1.2.3.4";
    var store := new CounterStore();
    var g := new LoginGuard(3, 10, map["alice" := alice], sha, store);
    var i := 0;
    while i < 10
      invariant 0 <= i <= 10
      invariant g.Valid() && store.up
      invariant store.counts == AfterIncrs(map[], ip, i)
    {
      ConsecutiveIncrs(map[], ip, i);
      var _, _ := g.AttemptLogin("mallory", "guess", ip, "", 0);
      i := i + 1;
    }
    ConsecutiveIncrs(map[], ip, 10);
    var user;
    user, err := g.AttemptLogin("alice", "secret", ip, "", 0);
  }

  /** Three wrong passwords for account 42, then the right one: refused as a
      locked account. */
  method LockedAccountRefusesCorrectPassword(sha: string -> string) returns (err: Option<LoginError>)
    requires CalcPassHash(sha, "guess", "salt") != CalcPassHash(sha, "secret", "salt")
    ensures err == Some(LockedUser)
  {
    var alice := User(42, "alice", CalcPassHash(sha, "secret", "salt"), "salt");
    var ip := "1.2.3.4";
    UserKey42();
    var store := new CounterStore();
    var g := new LoginGuard(3, 10, map["alice" := alice], sha, store);
    var i := 0;
    while i < 3
      invariant 0 <= i <= 3
      invariant g.Valid() && store.up
      invariant store.counts == if i == 0 then map[] else map["42" := i, ip := i]
    {
      assert FindUser(g.users, "alice") == Some(alice);
      var _, _ := g.AttemptLogin("alice", "guess", ip, "", 0);
      i := i + 1;
    }
    assert store.counts["42"] == 3;
    var user;
    user, err := g.AttemptLogin("alice", "secret", ip, "", 0);
  }

  /** User ids and IPs share the counter keyspace, and `X-Forwarded-For` is
      chosen by the client: three failures that claim to come from "42" lock
      account 42, whose owner is then refused with the right password. */
  method ForwardedForLocksAccount(sha: string -> string) returns (err: Option<LoginError>)
    ensures err == Some(LockedUser)
  {
    var alice := User(42, "alice", CalcPassHash(sha, "secret", "salt"), "salt");
    UserKey42();
    var store := new CounterStore();
    var g := new LoginGuard(3, 10, map["alice" := alice], sha, store);
    var i := 0;
    while i < 3
      invariant 0 <= i <= 3
      invariant g.Valid() && store.up
      invariant store.counts == AfterIncrs(map[], "42", i)
    {
      var _, _ := g.AttemptLogin("mallory", "guess", "10.0.0.1", "42", 0);
      i := i + 1;
    }
    ConsecutiveIncrs(map[], "42", 3);
    var user;
    user, err := g.AttemptLogin("alice", "secret", "1.2.3.4", "", 0);
  }
}
