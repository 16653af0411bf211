/** The `login_log` table of the ISUCON4 application: the durable ledger of
    login attempts that `createLoginLog` (4/webapp/db.go:43-47) appends to and
    that the report queries aggregate. SQL aggregates become functions over the
    sequence of rows. */
module Ledger {
  import opened Wrappers
  import opened Strconv

  /** One ledger row. `userId` is NULL when the login did not resolve;
      `createdAt` is the clock reading of the insert, which only
      `getLastLogin` reads back (the auto-increment `id` orders the rows). */
  datatype Attempt = Attempt(id: int, createdAt: int, userId: Option<int>, login: string, ip: string, succeeded: bool)

  type Log = seq<Attempt>

  /** Row `i` carries id `i + 1`: the ids the table's auto-increment hands out
      to a ledger that is only ever appended to. */
  ghost predicate IdsSequential(l: Log)
  {
    forall i :: 0 <= i < |l| ==> l[i].id == i + 1
  }

  /** What a query groups or selects by: `ip = ?` or `user_id = ?`. */
  datatype Key = ByIp(ip: string) | ByUser(userId: int)

  predicate Matches(r: Attempt, k: Key)
  {
    match k
    case ByIp(ip) => r.ip == ip
    case ByUser(u) => r.userId == Some(u)
  }

  function Init(l: Log): Log
    requires |l| > 0
  {
    l[..|l| - 1]
  }

  function Last(l: Log): Attempt
    requires |l| > 0
  {
    l[|l| - 1]
  }

  /** `COUNT(1)` over the rows of group `k`. */
  function Count(l: Log, k: Key): (n: nat)
    ensures n <= |l|
  {
    if |l| == 0 then 0
    else Count(Init(l), k) + (if Matches(Last(l), k) then 1 else 0)
  }

  /** A group has rows exactly when it has some row at all. */
  lemma {:induction false} CountPositive(l: Log, k: Key)
    ensures Count(l, k) > 0 <==> exists i :: 0 <= i < |l| && Matches(l[i], k)
  {
    if |l| > 0 {
      CountPositive(Init(l), k);
      if Matches(Last(l), k) {
        assert Matches(l[|l| - 1], k);
      }
    }
  }

  /** `MAX(succeeded) = 0` for group `k`: no row of the group succeeded. */
  ghost predicate NeverSucceeded(l: Log, k: Key)
  {
    forall i :: 0 <= i < |l| && Matches(l[i], k) ==> !l[i].succeeded
  }

  /** `MAX(id)` over the successful rows of group `k`; NULL (None) when
      there is no such row. */
  function LatestSuccess(l: Log, k: Key): (r: Option<int>)
  {
    if |l| == 0 then None
    else
      var m := LatestSuccess(Init(l), k);
      var r := Last(l);
      if !(r.succeeded && Matches(r, k)) then m
      else if m.Some? && r.id <= m.value then m
      else Some(r.id)
  }

  /** `LatestSuccess` is NULL exactly for a group without a success, and
      otherwise is the id of one of the group's successes and no smaller than
      the id of any other. */
  lemma {:induction false} LatestSuccessIsMax(l: Log, k: Key)
    ensures LatestSuccess(l, k).None? <==> NeverSucceeded(l, k)
    ensures LatestSuccess(l, k).Some? ==>
              exists i :: 0 <= i < |l| && Matches(l[i], k) && l[i].succeeded && l[i].id == LatestSuccess(l, k).value
    ensures LatestSuccess(l, k).Some? ==>
              forall i :: 0 <= i < |l| && Matches(l[i], k) && l[i].succeeded ==> l[i].id <= LatestSuccess(l, k).value
  {
    if |l| > 0 {
      LatestSuccessIsMax(Init(l), k);
      assert l == Init(l) + [Last(l)];
    }
  }

  /** `COUNT(1) ... WHERE <k> AND ? < id`: rows of group `k` with an id above `after`. */
  function CountAfter(l: Log, k: Key, after: int): (n: nat)
    ensures n <= Count(l, k)
  {
    if |l| == 0 then 0
    else CountAfter(Init(l), k, after) + (if Matches(Last(l), k) && after < Last(l).id then 1 else 0)
  }

  /** The rows of group `k` after the group's last success, counted from the
      end of the ledger: the quantity both ban rules are about. */
  function Trailing(l: Log, k: Key): (n: nat)
    ensures n <= Count(l, k)
  {
    if |l| == 0 then 0
    else if !Matches(Last(l), k) then Trailing(Init(l), k)
    else if Last(l).succeeded then 0
    else Trailing(Init(l), k) + 1
  }

  lemma {:induction false} CountAfterBeyond(l: Log, k: Key, after: int)
    requires forall i :: 0 <= i < |l| ==> l[i].id <= after
    ensures CountAfter(l, k, after) == 0
  {
    if |l| > 0 {
      CountAfterBeyond(Init(l), k, after);
    }
  }

  /** With sequential ids, both halves of the report's two-part rule measure the
      same thing: a group that never succeeded counts all its rows, and a group
      that did counts the rows after its latest success. */
  lemma {:induction false} ReportCountsAreTrailing(l: Log, k: Key)
    requires IdsSequential(l)
    ensures LatestSuccess(l, k).None? ==> Count(l, k) == Trailing(l, k)
    ensures LatestSuccess(l, k).Some? ==> CountAfter(l, k, LatestSuccess(l, k).value) == Trailing(l, k)
  {
    if |l| > 0 {
      var p, r := Init(l), Last(l);
      assert IdsSequential(p);
      ReportCountsAreTrailing(p, k);
      var m := LatestSuccess(p, k);
      LatestSuccessIsMax(p, k);
      if m.Some? {
        assert m.value <= |p|;
      }
      if Matches(r, k) && r.succeeded {
        CountAfterBeyond(p, k, r.id);
      }
    }
  }

  /** Distinct IPs of the ledger in order of first appearance: the groups of `GROUP BY ip`. */
  function IpGroups(l: Log): (ks: seq<Key>)
    ensures forall k :: k in ks ==> k.ByIp?
    ensures forall ip :: ByIp(ip) in ks <==> exists i :: 0 <= i < |l| && l[i].ip == ip
    ensures forall i, j :: 0 <= i < j < |ks| ==> ks[i] != ks[j]
  {
    if |l| == 0 then []
    else
      var g := IpGroups(Init(l));
      var k := ByIp(Last(l).ip);
      if k in g then g else g + [k]
  }

  /** Distinct non-NULL user ids of the ledger in order of first appearance:
      the groups of `GROUP BY user_id ... WHERE user_id IS NOT NULL`. */
  function UserGroups(l: Log): (ks: seq<Key>)
    ensures forall k :: k in ks ==> k.ByUser?
    ensures forall u :: ByUser(u) in ks <==> exists i :: 0 <= i < |l| && l[i].userId == Some(u)
    ensures forall i, j :: 0 <= i < j < |ks| ==> ks[i] != ks[j]
  {
    if |l| == 0 then []
    else
      var g := UserGroups(Init(l));
      match Last(l).userId
      case None => g
      case Some(u) => if ByUser(u) in g then g else g + [ByUser(u)]
  }

  /** The login column of a group: the login of its first row (the database
      may return the login of any row of the group). */
  function GroupLogin(l: Log, k: Key): string
  {
    if |l| == 0 then ""
    else if Matches(l[0], k) then l[0].login
    else GroupLogin(l[1..], k)
  }

  /** The value a Redis counter key holds when every attempt of `l` updated the
      store: user ids and IPs share one keyspace, so a row touches `key` once
      through its IP and once more through its user id's decimal form. */
  function Touches(r: Attempt, key: string): nat
  {
    (if r.ip == key then 1 else 0)
    + (if r.userId.Some? && Itoa(r.userId.value) == key then 1 else 0)
  }

  function CounterFromLog(l: Log, key: string): nat
  {
    if |l| == 0 then 0
    else if Touches(Last(l), key) == 0 then CounterFromLog(Init(l), key)
    else if Last(l).succeeded then 0
    else CounterFromLog(Init(l), key) + Touches(Last(l), key)
  }

  /** No resolved user id of the ledger is written the same way as `ip`. */
  ghost predicate NoUserKeyLike(l: Log, ip: string)
  {
    forall i :: 0 <= i < |l| && l[i].userId.Some? ==> Itoa(l[i].userId.value) != ip
  }

  /** No IP of the ledger is the decimal form of `u`. */
  ghost predicate NoIpLike(l: Log, u: int)
  {
    forall i :: 0 <= i < |l| ==> l[i].ip != Itoa(u)
  }

  /** Without a collision in the shared keyspace, an IP's counter is its
      trailing failures. */
  lemma {:induction false} IpCounterIsTrailing(l: Log, ip: string)
    requires NoUserKeyLike(l, ip)
    ensures CounterFromLog(l, ip) == Trailing(l, ByIp(ip))
  {
    if |l| > 0 {
      assert NoUserKeyLike(Init(l), ip);
      IpCounterIsTrailing(Init(l), ip);
      assert Touches(Last(l), ip) == (if Last(l).ip == ip then 1 else 0);
    }
  }

  /** Without a collision in the shared keyspace, a user's counter is the
      user's trailing failures. */
  lemma {:induction false} UserCounterIsTrailing(l: Log, u: int)
    requires NoIpLike(l, u)
    ensures CounterFromLog(l, Itoa(u)) == Trailing(l, ByUser(u))
  {
    if |l| > 0 {
      assert NoIpLike(Init(l), u);
      UserCounterIsTrailing(Init(l), u);
      var r := Last(l);
      if r.userId.Some? && Itoa(r.userId.value) == Itoa(u) {
        ItoaInjective(r.userId.value, u);
      }
      assert Touches(r, Itoa(u)) == (if r.userId == Some(u) then 1 else 0);
    }
  }
}
