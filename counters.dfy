/** The Redis counter store the login guard talks to through `conn.Do`
    (4/webapp/db.go:31-40, 57, 66): a key-to-integer map in which user ids and
    IP addresses share one keyspace. `up` says whether the connection works;
    when it does not, every command fails and changes nothing. */
module Counters {

  /** A reply to `GET`: an integer, Redis nil for a missing key, or an error. */
  datatype Reply = Int(n: int) | Nil | ConnError

  /** The reply `GET key` gets from a store holding `m` over a connection that is `up` or not. */
  function ReplyOf(m: map<string, int>, up: bool, key: string): (r: Reply)
    ensures r.Int? <==> up && key in m
    ensures r.Int? ==> r.n == m[key]
    ensures r == ConnError <==> !up
  {
    if !up then ConnError else if key in m then Int(m[key]) else Nil
  }

  /** `INCR`: add one, creating the key at 1. */
  function AfterIncr(m: map<string, int>, key: string): (m': map<string, int>)
    ensures m'.Keys == m.Keys + {key}
    ensures m'[key] == (if key in m then m[key] + 1 else 1)
    ensures forall k :: k in m && k != key ==> m'[k] == m[k]
  {
    m[key := if key in m then m[key] + 1 else 1]
  }

  /** `DEL`: remove the key; removing an absent key changes nothing. */
  function AfterDel(m: map<string, int>, key: string): (m': map<string, int>)
    ensures m'.Keys == m.Keys - {key}
    ensures forall k :: k in m' ==> m'[k] == m[k]
  {
    m - {key}
  }

  /** `n` consecutive `INCR`s. */
  function AfterIncrs(m: map<string, int>, key: string, n: nat): map<string, int>
  {
    if n == 0 then m else AfterIncr(AfterIncrs(m, key, n - 1), key)
  }

  /** After `n` consecutive failures on a key with no counter, the counter reads `n`. */
  lemma {:induction false} ConsecutiveIncrs(m: map<string, int>, key: string, n: nat)
    requires key !in m
    ensures n > 0 ==> key in AfterIncrs(m, key, n) && AfterIncrs(m, key, n)[key] == n
    ensures n == 0 ==> key !in AfterIncrs(m, key, n)
  {
    if n > 0 {
      ConsecutiveIncrs(m, key, n - 1);
    }
  }

  /** `DEL` twice is `DEL` once. */
  lemma DelIdempotent(m: map<string, int>, key: string)
    ensures AfterDel(AfterDel(m, key), key) == AfterDel(m, key)
  {
  }

  class CounterStore {
    var counts: map<string, int>
    var up: bool

    constructor ()
      ensures counts == map[] && up
    {
      counts := map[];
      up := true;
    }

    /** `GET key`. */
    method Get(key: string) returns (r: Reply)
      ensures r == ReplyOf(counts, up, key)
    {
      if !up {
        r := ConnError;
      } else if key in counts {
        r := Int(counts[key]);
      } else {
        r := Nil;
      }
    }

    /** `INCR key`; the error a broken connection returns is ignored by every caller. */
    method Incr(key: string)
      modifies this
      ensures up == old(up)
      ensures counts == if up then AfterIncr(old(counts), key) else old(counts)
    {
      if up {
        counts := AfterIncr(counts, key);
      }
    }

    /** `DEL key`. */
    method Del(key: string)
      modifies this
      ensures up == old(up)
      ensures counts == if up then AfterDel(old(counts), key) else old(counts)
    {
      if up {
        counts := AfterDel(counts, key);
      }
    }
  }
}
