/** `getLastLogin` of the ISUCON4 application (4/webapp/user.go:20-41): the
    login shown on `/mypage`. The query takes the user's successful attempts,
    newest first, at most two; the loop scans every row into one struct, so
    the value left behind is the previous successful login, not the current
    one. Database faults are a parameter, as in the report queries. */
module LastLogins {
  import opened Wrappers
  import opened Ledger

  /** The `LastLogin` struct; the zero value has empty strings and time 0. */
  datatype LastLogin = LastLogin(login: string, ip: string, createdAt: int)

  const ZeroLastLogin := LastLogin("", "", 0)

  function LastLoginOf(r: Attempt): LastLogin
  {
    LastLogin(r.login, r.ip, r.createdAt)
  }

  predicate SucceededFor(r: Attempt, userId: int)
  {
    r.succeeded && r.userId == Some(userId)
  }

  /** The user's successful attempts, in ledger order: every one of them and
      nothing else. */
  function Successes(l: Log, userId: int): (s: seq<Attempt>)
    ensures |s| <= |l|
    ensures forall r :: r in s ==> r in l && SucceededFor(r, userId)
    ensures forall i :: 0 <= i < |l| && SucceededFor(l[i], userId) ==> l[i] in s
  {
    if |l| == 0 then []
    else
      assert forall i :: 0 <= i < |l| - 1 ==> l[i] == Init(l)[i];
      Successes(Init(l), userId) + (if SucceededFor(Last(l), userId) then [Last(l)] else [])
  }

  /** With sequential ids the successes come in ascending id order, the
      order `ORDER BY id DESC` reverses. */
  lemma {:induction false} SuccessesInIdOrder(l: Log, userId: int)
    requires IdsSequential(l)
    ensures forall i, j :: 0 <= i < j < |Successes(l, userId)| ==>
              Successes(l, userId)[i].id < Successes(l, userId)[j].id
  {
    if |l| > 0 {
      var p := Successes(Init(l), userId);
      assert IdsSequential(Init(l));
      SuccessesInIdOrder(Init(l), userId);
      forall r | r in p
        ensures r.id < Last(l).id
      {
        var k :| 0 <= k < |Init(l)| && Init(l)[k] == r;
      }
    }
  }

  /** The rows of `... WHERE succeeded = 1 AND user_id = ? ORDER BY id DESC
      LIMIT n`: ids grow along the ledger, so newest first is from the end. */
  function NewestSuccesses(l: Log, userId: int, n: nat): (q: seq<Attempt>)
    ensures |q| <= n
    ensures forall r :: r in q ==> r in l && SucceededFor(r, userId)
  {
    if |l| == 0 || n == 0 then []
    else if SucceededFor(Last(l), userId) then [Last(l)] + NewestSuccesses(Init(l), userId, n - 1)
    else NewestSuccesses(Init(l), userId, n)
  }

  function Min(a: nat, b: nat): nat
  {
    if a <= b then a else b
  }

  /** The query returns the `n` most recent successes, most recent first. */
  lemma {:induction false} NewestSuccessesAreLatest(l: Log, userId: int, n: nat)
    ensures |NewestSuccesses(l, userId, n)| == Min(n, |Successes(l, userId)|)
    ensures forall i :: 0 <= i < |NewestSuccesses(l, userId, n)| ==>
              NewestSuccesses(l, userId, n)[i] == Successes(l, userId)[|Successes(l, userId)| - 1 - i]
  {
    if |l| > 0 && n > 0 {
      var s, p := Successes(l, userId), Successes(Init(l), userId);
      var q := NewestSuccesses(l, userId, n);
      if SucceededFor(Last(l), userId) {
        NewestSuccessesAreLatest(Init(l), userId, n - 1);
        var q' := NewestSuccesses(Init(l), userId, n - 1);
        assert s == p + [Last(l)];
        assert q == [Last(l)] + q';
        forall i | 0 <= i < |q|
          ensures q[i] == s[|s| - 1 - i]
        {
          if i > 0 {
            assert q[i] == q'[i - 1];
          }
        }
      } else {
        NewestSuccessesAreLatest(Init(l), userId, n);
        assert s == p;
      }
    }
  }

  /** What `/mypage` shows for a user with successes `s`: the previous
      successful login when there are two or more, the only one when there is
      one, and the zero value when there is none. */
  function PreviousLogin(s: seq<Attempt>): LastLogin
  {
    if |s| >= 2 then LastLoginOf(s[|s| - 2])
    else if |s| == 1 then LastLoginOf(s[0])
    else ZeroLastLogin
  }

  /** One more row adds itself to the successes exactly when it is one. */
  lemma SuccessesAppend(l: Log, r: Attempt, userId: int)
    ensures Successes(l + [r], userId) == Successes(l, userId) + (if SucceededFor(r, userId) then [r] else [])
  {
    assert Init(l + [r]) == l && Last(l + [r]) == r;
  }

  /** Right after a successful login, `/mypage` shows the success before it
      when there is one, and the new login itself when it is the first. */
  lemma PreviousLoginAfterSuccess(l: Log, r: Attempt, userId: int)
    requires SucceededFor(r, userId)
    ensures var s := Successes(l, userId);
            PreviousLogin(Successes(l + [r], userId)) ==
            if |s| == 0 then LastLoginOf(r) else LastLoginOf(s[|s| - 1])
  {
    var s := Successes(l, userId);
    SuccessesAppend(l, r, userId);
    var s' := Successes(l + [r], userId);
    if |s| > 0 {
      assert s'[|s'| - 2] == s[|s| - 1];
    }
  }

  /** `getLastLogin`. Database calls: 0 is the query, 1 + i the scan of the
      i-th row. Any failing call yields nil. */
  method GetLastLogin(ledger: Log, userId: int, failsAt: Option<nat>) returns (r: Option<LastLogin>)
    ensures r.None? <==> failsAt.Some? && failsAt.value <= Min(2, |Successes(ledger, userId)|)
    ensures r.Some? ==> r.value == PreviousLogin(Successes(ledger, userId))
  {
    if failsAt == Some(0) {
      return None;
    }
    var rows := NewestSuccesses(ledger, userId, 2);
    NewestSuccessesAreLatest(ledger, userId, 2);
    var lastLogin := ZeroLastLogin;
    var i := 0;
    while i < |rows|
      invariant 0 <= i <= |rows|
      invariant lastLogin == if i == 0 then ZeroLastLogin else LastLoginOf(rows[i - 1])
      invariant !(failsAt.Some? && failsAt.value <= i)
    {
      if failsAt == Some(1 + i) {
        return None;
      }
      lastLogin := LastLoginOf(rows[i]);
      i := i + 1;
    }
    return Some(lastLogin);
  }
}
