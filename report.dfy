/** The `/report` queries of the ISUCON4 application (4/webapp/db.go:141-273):
    `bannedIPs` and `lockedUsers` recompute bans and locks from the ledger
    alone. Each query's result rows are a selection from the ledger's groups;
    the Go loops that walk those rows are methods. Any database error makes a
    function return the list built so far. */
module Report {
  import opened Wrappers
  import opened Ledger
  import opened Counters
  import opened Guard

  /** The selections the queries make from the groups. */
  datatype Rule =
    | NeverSucceededAtLeast(t: int)      // max_succeeded = 0 AND cnt >= t
    | SucceededOnce                      // WHERE succeeded = 1 GROUP BY ...
    | AtLeastAfterLatestSuccess(t: int)  // t <= COUNT(...) WHERE ... AND last_login_id < id

  predicate Holds(l: Log, rule: Rule, k: Key)
  {
    match rule
    case NeverSucceededAtLeast(t) => LatestSuccess(l, k).None? && t <= Count(l, k)
    case SucceededOnce => LatestSuccess(l, k).Some?
    case AtLeastAfterLatestSuccess(t) =>
      LatestSuccess(l, k).Some? && t <= CountAfter(l, k, LatestSuccess(l, k).value)
  }

  /** The groups of `ks` a rule keeps, in order. */
  function Select(l: Log, rule: Rule, ks: seq<Key>): seq<Key>
  {
    if |ks| == 0 then []
    else Select(l, rule, ks[..|ks| - 1]) + (if Holds(l, rule, ks[|ks| - 1]) then [ks[|ks| - 1]] else [])
  }

  /** A selection keeps exactly the groups the rule holds for. */
  lemma {:induction false} SelectMembership(l: Log, rule: Rule, ks: seq<Key>, k: Key)
    ensures k in Select(l, rule, ks) <==> k in ks && Holds(l, rule, k)
  {
    if |ks| > 0 {
      SelectMembership(l, rule, ks[..|ks| - 1], k);
      assert ks == ks[..|ks| - 1] + [ks[|ks| - 1]];
    }
  }

  lemma {:induction false} SelectPrefix(l: Log, rule: Rule, ks: seq<Key>, j: nat)
    requires j <= |ks|
    ensures Select(l, rule, ks[..j]) <= Select(l, rule, ks)
    decreases |ks|
  {
    if j < |ks| {
      assert ks[..|ks| - 1][..j] == ks[..j];
      SelectPrefix(l, rule, ks[..|ks| - 1], j);
    } else {
      assert ks[..j] == ks;
    }
  }

  lemma SelectStep(l: Log, rule: Rule, ks: seq<Key>, j: nat)
    requires j < |ks|
    ensures Select(l, rule, ks[..j + 1]) ==
            Select(l, rule, ks[..j]) + (if Holds(l, rule, ks[j]) then [ks[j]] else [])
  {
    assert ks[..j + 1][..j] == ks[..j];
  }

  /** The `ip` column of IP rows. */
  function IpsOf(ks: seq<Key>): (ips: seq<string>)
    ensures |ips| == |ks|
  {
    if |ks| == 0 then [] else IpsOf(ks[..|ks| - 1]) + [if ks[|ks| - 1].ByIp? then ks[|ks| - 1].ip else ""]
  }

  /** The `login` column of user rows. */
  function LoginsOf(l: Log, ks: seq<Key>): (logins: seq<string>)
    ensures |logins| == |ks|
  {
    if |ks| == 0 then [] else LoginsOf(l, ks[..|ks| - 1]) + [GroupLogin(l, ks[|ks| - 1])]
  }

  lemma {:induction false} IpsOfAt(ks: seq<Key>, i: nat)
    requires i < |ks| && ks[i].ByIp?
    ensures IpsOf(ks)[i] == ks[i].ip
  {
    if i < |ks| - 1 {
      IpsOfAt(ks[..|ks| - 1], i);
    }
  }

  lemma {:induction false} IpsOfMembership(ks: seq<Key>, ip: string)
    requires forall k :: k in ks ==> k.ByIp?
    ensures ip in IpsOf(ks) <==> ByIp(ip) in ks
  {
    if |ks| > 0 {
      var p := ks[..|ks| - 1];
      assert forall k :: k in p ==> k in ks;
      IpsOfMembership(p, ip);
      assert ks == p + [ks[|ks| - 1]];
    }
  }

  lemma {:induction false} IpsOfAppend(a: seq<Key>, b: seq<Key>)
    ensures IpsOf(a + b) == IpsOf(a) + IpsOf(b)
    decreases |b|
  {
    if |b| > 0 {
      assert (a + b)[..|a + b| - 1] == a + b[..|b| - 1];
      IpsOfAppend(a, b[..|b| - 1]);
    } else {
      assert a + b == a;
    }
  }

  lemma {:induction false} LoginsOfAppend(l: Log, a: seq<Key>, b: seq<Key>)
    ensures LoginsOf(l, a + b) == LoginsOf(l, a) + LoginsOf(l, b)
    decreases |b|
  {
    if |b| > 0 {
      assert (a + b)[..|a + b| - 1] == a + b[..|b| - 1];
      LoginsOfAppend(l, a, b[..|b| - 1]);
    } else {
      assert a + b == a;
    }
  }

  lemma {:induction false} IpsOfPrefix(a: seq<Key>, b: seq<Key>)
    requires a <= b
    ensures IpsOf(a) <= IpsOf(b)
  {
    assert b == a + b[|a|..];
    IpsOfAppend(a, b[|a|..]);
  }

  lemma {:induction false} LoginsOfPrefix(l: Log, a: seq<Key>, b: seq<Key>)
    requires a <= b
    ensures LoginsOf(l, a) <= LoginsOf(l, b)
  {
    assert b == a + b[|a|..];
    LoginsOfAppend(l, a, b[|a|..]);
  }

  /** Rows of the first `bannedIPs` query (db.go:144-149). */
  function FailedIpRows(l: Log, t: int): seq<Key>
  {
    Select(l, NeverSucceededAtLeast(t), IpGroups(l))
  }

  /** Rows of the second `bannedIPs` query (db.go:168-170). */
  function SucceededIpRows(l: Log): seq<Key>
  {
    Select(l, SucceededOnce, IpGroups(l))
  }

  /** The two-part rule `bannedIPs` means to apply: IPs that never succeeded
      with at least `t` attempts, then IPs with at least `t` attempts after
      their latest success. */
  function IntendedBannedRows(l: Log, t: int): seq<Key>
  {
    FailedIpRows(l, t) + Select(l, AtLeastAfterLatestSuccess(t), SucceededIpRows(l))
  }

  /** The rows whose logins `lockedUsers` lists: the same two-part rule per
      resolved user id (db.go:210-215, 235-237, 255-265). */
  function LockedUserRows(l: Log, t: int): seq<Key>
  {
    Select(l, NeverSucceededAtLeast(t), UserGroups(l))
    + Select(l, AtLeastAfterLatestSuccess(t), Select(l, SucceededOnce, UserGroups(l)))
  }

  /** The two-part rule for one group. */
  ghost predicate OverThreshold(l: Log, k: Key, t: int)
  {
    match LatestSuccess(l, k)
    case None => t <= Count(l, k)
    case Some(last) => t <= CountAfter(l, k, last)
  }

  /** One more row of a selection adds its column value when the rule holds. */
  lemma IpsOfSelectStep(l: Log, rule: Rule, ks: seq<Key>, j: nat)
    requires j < |ks| && ks[j].ByIp?
    ensures IpsOf(Select(l, rule, ks[..j + 1])) ==
            IpsOf(Select(l, rule, ks[..j])) + (if Holds(l, rule, ks[j]) then [ks[j].ip] else [])
  {
    assert IpsOf([ks[j]]) == [ks[j].ip];
    SelectStep(l, rule, ks, j);
    IpsOfAppend(Select(l, rule, ks[..j]), if Holds(l, rule, ks[j]) then [ks[j]] else []);
  }

  lemma LoginsOfSelectStep(l: Log, rule: Rule, ks: seq<Key>, j: nat)
    requires j < |ks|
    ensures LoginsOf(l, Select(l, rule, ks[..j + 1])) ==
            LoginsOf(l, Select(l, rule, ks[..j])) + (if Holds(l, rule, ks[j]) then [GroupLogin(l, ks[j])] else [])
  {
    SelectStep(l, rule, ks, j);
    LoginsOfAppend(l, Select(l, rule, ks[..j]), if Holds(l, rule, ks[j]) then [ks[j]] else []);
  }

  /** `bannedIPs` as written. Database calls: 0 is the first query, 1 the
      second. At db.go:181 the second loop scans `rows`, whose iteration has
      ended and which is therefore closed, instead of `rowsB`; that `Scan`
      fails on the first row and the function returns, so the rule about
      attempts after a success never adds an IP. */
  method BannedIPs(ledger: Log, iPBanThreshold: int, failsAt: Option<nat>) returns (ips: seq<string>)
    ensures failsAt == Some(0) ==> ips == []
    ensures failsAt != Some(0) ==> ips == IpsOf(FailedIpRows(ledger, iPBanThreshold))
  {
    ips := [];
    if failsAt == Some(0) {
      return;
    }
    var rows := FailedIpRows(ledger, iPBanThreshold);
    var i := 0;
    while i < |rows|
      invariant 0 <= i <= |rows|
      invariant ips == IpsOf(rows[..i])
    {
      assert rows[..i + 1][..i] == rows[..i];
      SelectMembership(ledger, NeverSucceededAtLeast(iPBanThreshold), IpGroups(ledger), rows[i]);
      ips := ips + [rows[i].ip];
      i := i + 1;
    }
    assert rows[..i] == rows;
    if failsAt == Some(1) {
      return;
    }
    var rowsB := SucceededIpRows(ledger);
    if |rowsB| > 0 {
      // rows.Scan on the exhausted first result set: an error, so return.
      return;
    }
  }

  /** The second loop of `bannedIPs` once it scans `rowsB` (db.go:180-193):
      for each IP with a success, count the attempts after its latest success
      (database call 2 + j for the j-th row) and keep the IP when that count
      reaches `t`. `failed` reports a database error, after which the loop
      stops with the IPs found so far. */
  method ScanIpsAfterSuccess(ledger: Log, t: int, rowsB: seq<Key>, failsAt: Option<nat>)
    returns (ips: seq<string>, failed: bool)
    requires forall k :: k in rowsB ==> k.ByIp? && LatestSuccess(ledger, k).Some?
    ensures ips <= IpsOf(Select(ledger, AtLeastAfterLatestSuccess(t), rowsB))
    ensures !failed ==> ips == IpsOf(Select(ledger, AtLeastAfterLatestSuccess(t), rowsB))
    ensures failed <==> failsAt.Some? && 2 <= failsAt.value < 2 + |rowsB|
  {
    var rule := AtLeastAfterLatestSuccess(t);
    ips := [];
    failed := false;
    var j := 0;
    while j < |rowsB| && !failed
      decreases |rowsB| - j, if failed then 0 else 1
      invariant 0 <= j <= |rowsB|
      invariant ips == IpsOf(Select(ledger, rule, rowsB[..j]))
      invariant failed ==> failsAt == Some(2 + j) && j < |rowsB|
      invariant !(failsAt.Some? && 2 <= failsAt.value < 2 + j)
    {
      if failsAt == Some(2 + j) {
        failed := true;
      } else {
        var k := rowsB[j];
        var lastLoginId := LatestSuccess(ledger, k).value;
        var count := CountAfter(ledger, k, lastLoginId);
        IpsOfSelectStep(ledger, rule, rowsB, j);
        assert Holds(ledger, rule, k) <==> t <= count;
        if t <= count {
          ips := ips + [k.ip];
        }
        j := j + 1;
      }
    }
    if failed {
      SelectPrefix(ledger, rule, rowsB, j);
      IpsOfPrefix(Select(ledger, rule, rowsB[..j]), Select(ledger, rule, rowsB));
    } else {
      assert rowsB[..j] == rowsB;
    }
  }

  /** The second loop of `lockedUsers` (db.go:254-269), on user groups. */
  method ScanLoginsAfterSuccess(ledger: Log, t: int, rowsB: seq<Key>, failsAt: Option<nat>)
    returns (logins: seq<string>, failed: bool)
    requires forall k :: k in rowsB ==> LatestSuccess(ledger, k).Some?
    ensures logins <= LoginsOf(ledger, Select(ledger, AtLeastAfterLatestSuccess(t), rowsB))
    ensures !failed ==> logins == LoginsOf(ledger, Select(ledger, AtLeastAfterLatestSuccess(t), rowsB))
    ensures failed <==> failsAt.Some? && 2 <= failsAt.value < 2 + |rowsB|
  {
    var rule := AtLeastAfterLatestSuccess(t);
    logins := [];
    failed := false;
    var j := 0;
    while j < |rowsB| && !failed
      decreases |rowsB| - j, if failed then 0 else 1
      invariant 0 <= j <= |rowsB|
      invariant logins == LoginsOf(ledger, Select(ledger, rule, rowsB[..j]))
      invariant failed ==> failsAt == Some(2 + j) && j < |rowsB|
      invariant !(failsAt.Some? && 2 <= failsAt.value < 2 + j)
    {
      if failsAt == Some(2 + j) {
        failed := true;
      } else {
        var k := rowsB[j];
        var lastLoginId := LatestSuccess(ledger, k).value;
        var count := CountAfter(ledger, k, lastLoginId);
        LoginsOfSelectStep(ledger, rule, rowsB, j);
        assert Holds(ledger, rule, k) <==> t <= count;
        if t <= count {
          logins := logins + [GroupLogin(ledger, k)];
        }
        j := j + 1;
      }
    }
    if failed {
      SelectPrefix(ledger, rule, rowsB, j);
      LoginsOfPrefix(ledger, Select(ledger, rule, rowsB[..j]), Select(ledger, rule, rowsB));
    } else {
      assert rowsB[..j] == rowsB;
    }
  }

  /** `bannedIPs` with the second loop scanning `rowsB`. Database calls: 0
      and 1 are the two queries, 2 + j the count query for the j-th row of
      the second. */
  method BannedIPsCorrected(ledger: Log, iPBanThreshold: int, failsAt: Option<nat>) returns (ips: seq<string>)
    ensures failsAt.None? ==> ips == IpsOf(IntendedBannedRows(ledger, iPBanThreshold))
    ensures ips <= IpsOf(IntendedBannedRows(ledger, iPBanThreshold))
    ensures failsAt == Some(0) ==> ips == []
  {
    var t := iPBanThreshold;
    var rows := FailedIpRows(ledger, t);
    var rowsB := SucceededIpRows(ledger);
    IpsOfAppend(rows, Select(ledger, AtLeastAfterLatestSuccess(t), rowsB));
    ips := [];
    if failsAt == Some(0) {
      return;
    }
    var i := 0;
    while i < |rows|
      invariant 0 <= i <= |rows|
      invariant ips == IpsOf(rows[..i])
    {
      assert rows[..i + 1][..i] == rows[..i];
      SelectMembership(ledger, NeverSucceededAtLeast(t), IpGroups(ledger), rows[i]);
      ips := ips + [rows[i].ip];
      i := i + 1;
    }
    assert rows[..i] == rows;
    if failsAt == Some(1) {
      IpsOfPrefix([], Select(ledger, AtLeastAfterLatestSuccess(t), rowsB));
      return;
    }
    forall k | k in rowsB
      ensures k.ByIp? && LatestSuccess(ledger, k).Some?
    {
      SelectMembership(ledger, SucceededOnce, IpGroups(ledger), k);
    }
    var more, _ := ScanIpsAfterSuccess(ledger, t, rowsB, failsAt);
    ips := ips + more;
  }

  /** `lockedUsers`. Database calls: 0 and 1 are the two queries, 2 + j the
      count query for the j-th row of the second. */
  method LockedUsers(ledger: Log, userLockThreshold: int, failsAt: Option<nat>) returns (logins: seq<string>)
    ensures failsAt.None? ==> logins == LoginsOf(ledger, LockedUserRows(ledger, userLockThreshold))
    ensures logins <= LoginsOf(ledger, LockedUserRows(ledger, userLockThreshold))
    ensures failsAt == Some(0) ==> logins == []
  {
    var t := userLockThreshold;
    var rows := Select(ledger, NeverSucceededAtLeast(t), UserGroups(ledger));
    var rowsB := Select(ledger, SucceededOnce, UserGroups(ledger));
    LoginsOfAppend(ledger, rows, Select(ledger, AtLeastAfterLatestSuccess(t), rowsB));
    logins := [];
    if failsAt == Some(0) {
      return;
    }
    var i := 0;
    while i < |rows|
      invariant 0 <= i <= |rows|
      invariant logins == LoginsOf(ledger, rows[..i])
    {
      assert rows[..i + 1][..i] == rows[..i];
      logins := logins + [GroupLogin(ledger, rows[i])];
      i := i + 1;
    }
    assert rows[..i] == rows;
    if failsAt == Some(1) {
      LoginsOfPrefix(ledger, [], Select(ledger, AtLeastAfterLatestSuccess(t), rowsB));
      return;
    }
    forall k | k in rowsB
      ensures LatestSuccess(ledger, k).Some?
    {
      SelectMembership(ledger, SucceededOnce, UserGroups(ledger), k);
    }
    var more, _ := ScanLoginsAfterSuccess(ledger, t, rowsB, failsAt);
    logins := logins + more;
  }

  /** With sequential ids the two-part rule is one condition: at least `t`
      attempts since the group's latest success. */
  lemma OverThresholdIsTrailing(l: Log, k: Key, t: int)
    requires IdsSequential(l)
    ensures OverThreshold(l, k, t) <==> t <= Trailing(l, k)
  {
    ReportCountsAreTrailing(l, k);
  }

  /** An IP is among the intended banned rows exactly when it appears in the
      ledger and passes the two-part rule. */
  lemma IntendedBannedMembership(l: Log, t: int, ip: string)
    ensures ByIp(ip) in IntendedBannedRows(l, t) <==>
            (exists i :: 0 <= i < |l| && l[i].ip == ip) && OverThreshold(l, ByIp(ip), t)
  {
    var k := ByIp(ip);
    SelectMembership(l, NeverSucceededAtLeast(t), IpGroups(l), k);
    SelectMembership(l, SucceededOnce, IpGroups(l), k);
    SelectMembership(l, AtLeastAfterLatestSuccess(t), SucceededIpRows(l), k);
  }

  /** An IP is among the rows of the first `bannedIPs` query exactly when it
      appears in the ledger, never succeeded and has at least `t` rows. */
  lemma FailedIpMembership(l: Log, t: int, ip: string)
    ensures ByIp(ip) in FailedIpRows(l, t) <==>
            (exists i :: 0 <= i < |l| && l[i].ip == ip) && LatestSuccess(l, ByIp(ip)).None? && t <= Count(l, ByIp(ip))
  {
    SelectMembership(l, NeverSucceededAtLeast(t), IpGroups(l), ByIp(ip));
  }

  lemma IntendedBannedAreIps(l: Log, t: int)
    ensures forall k :: k in IntendedBannedRows(l, t) ==> k.ByIp?
  {
    forall k | k in IntendedBannedRows(l, t)
      ensures k.ByIp?
    {
      SelectMembership(l, NeverSucceededAtLeast(t), IpGroups(l), k);
      SelectMembership(l, SucceededOnce, IpGroups(l), k);
      SelectMembership(l, AtLeastAfterLatestSuccess(t), SucceededIpRows(l), k);
    }
  }

  /** A user is among the rows `lockedUsers` lists exactly when the user has
      ledger rows and passes the two-part rule. */
  lemma LockedUserMembership(l: Log, t: int, u: int)
    ensures ByUser(u) in LockedUserRows(l, t) <==>
            (exists i :: 0 <= i < |l| && l[i].userId == Some(u)) && OverThreshold(l, ByUser(u), t)
  {
    var k := ByUser(u);
    SelectMembership(l, NeverSucceededAtLeast(t), UserGroups(l), k);
    SelectMembership(l, SucceededOnce, UserGroups(l), k);
    SelectMembership(l, AtLeastAfterLatestSuccess(t), Select(l, SucceededOnce, UserGroups(l)), k);
  }

  /** A positive threshold reached by a group's trailing failures means the
      group has rows. */
  lemma TrailingReachedMeansRows(l: Log, k: Key, t: int)
    requires 1 <= t <= Trailing(l, k)
    ensures exists i :: 0 <= i < |l| && Matches(l[i], k)
  {
    CountPositive(l, k);
  }

  /** The fast path and the report agree on bans: while the counters agree
      with the ledger and no user id is written like the IP, `isBannedIP`
      bans an IP exactly when the intended `bannedIPs` lists it. */
  lemma BanAgreement(m: map<string, int>, l: Log, ip: string, t: int)
    requires IdsSequential(l) && CountersAgree(m, l) && NoUserKeyLike(l, ip) && 1 <= t
    ensures IsBannedIP(ReplyOf(m, true, ip), t).0 <==> ip in IpsOf(IntendedBannedRows(l, t))
  {
    IpCounterIsTrailing(l, ip);
    OverThresholdIsTrailing(l, ByIp(ip), t);
    IntendedBannedMembership(l, t, ip);
    IntendedBannedAreIps(l, t);
    IpsOfMembership(IntendedBannedRows(l, t), ip);
    if t <= Trailing(l, ByIp(ip)) {
      TrailingReachedMeansRows(l, ByIp(ip), t);
    }
  }

  /** The fast path and the report agree on locks: while the counters agree
      with the ledger and no IP is written like the user's id, `isLockedUser`
      locks a user exactly when the user is among the rows `lockedUsers`
      lists. */
  lemma LockAgreement(m: map<string, int>, l: Log, user: User, t: int)
    requires IdsSequential(l) && CountersAgree(m, l) && NoIpLike(l, user.id) && 1 <= t
    ensures IsLockedUser(Some(user), ReplyOf(m, true, UserKey(user.id)), t).0 <==>
            ByUser(user.id) in LockedUserRows(l, t)
  {
    UserCounterIsTrailing(l, user.id);
    OverThresholdIsTrailing(l, ByUser(user.id), t);
    LockedUserMembership(l, t, user.id);
    if t <= Trailing(l, ByUser(user.id)) {
      TrailingReachedMeansRows(l, ByUser(user.id), t);
    }
  }

  /** The ledger of a success followed by one failure from the same IP. */
  function RebanLedger(): Log
  {
    [Attempt(1, 0, Some(1), "alice", "1.2.3.4", true), Attempt(2, 0, None, "x", "1.2.3.4", false)]
  }

  /** With threshold 1 the IP of `RebanLedger` is over the two-part rule, so
      the fast path bans it (`BanAgreement`), yet `bannedIPs` as written,
      which stops at the first query (`BannedIPs`), does not list it. */
  lemma RebanMissedAsWritten()
    ensures "1.2.3.4" in IpsOf(IntendedBannedRows(RebanLedger(), 1))
    ensures "1.2.3.4" !in IpsOf(FailedIpRows(RebanLedger(), 1))
  {
    var l := RebanLedger();
    var k := ByIp("1.2.3.4");
    assert l[0].ip == "1.2.3.4";
    assert Trailing(l, k) == 1 by {
      assert Init(l) == [l[0]];
      assert Init(Init(l)) == [];
    }
    assert IdsSequential(l);
    OverThresholdIsTrailing(l, k, 1);
    IntendedBannedMembership(l, 1, "1.2.3.4");
    IntendedBannedAreIps(l, 1);
    IpsOfMembership(IntendedBannedRows(l, 1), "1.2.3.4");
    LatestSuccessIsMax(l, k);
    assert !NeverSucceeded(l, k) by {
      assert Matches(l[0], k) && l[0].succeeded;
    }
    SelectMembership(l, NeverSucceededAtLeast(1), IpGroups(l), k);
    forall k' | k' in FailedIpRows(l, 1)
      ensures k'.ByIp?
    {
      SelectMembership(l, NeverSucceededAtLeast(1), IpGroups(l), k');
    }
    IpsOfMembership(FailedIpRows(l, 1), "1.2.3.4");
  }
}
