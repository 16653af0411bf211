/** `MultiMapLastLogin` of the ISUCON4 application (4/webapp/multimap.go): a
    map from user id to last login split over `size` partitions, key `k`
    living in partition `k % size`. The per-partition locks only serialise
    access and are not modelled; `contents` is the one map the partitions
    together stand for. */
module LastLoginMap {

  /** The package's `lastLogin` struct. */
  datatype Entry = Entry(id: int, login: string, ip: string, createdAt: int)

  /** The zero value a missed `Get` returns. */
  const ZeroEntry := Entry(0, "", "", 0)

  const DefaultPartitions := 256

  /** Go's `%` on `int`, which truncates toward zero: the remainder takes the
      sign of the dividend. */
  function GoRem(a: int, b: int): (r: int)
    requires b > 0
    ensures 0 <= a ==> 0 <= r < b
    ensures a < 0 ==> -b < r <= 0
    ensures -b < a < b ==> r == a
  {
    if a >= 0 then
      ModOfSmall(a, b);
      a % b
    else
      ModOfSmall(-a, b);
      -((-a) % b)
  }

  /** A dividend below the divisor is its own remainder. */
  lemma ModOfSmall(a: int, b: int)
    ensures 0 <= a < b ==> a % b == a
  {
  }

  /** `hash`: the partition of `key`. */
  function Hash(key: int, size: int): (p: int)
    requires size > 0
    ensures 0 <= key ==> 0 <= p < size
    ensures key < 0 ==> -size < p <= 0
    ensures -size < key < size ==> p == key
  {
    GoRem(key, size)
  }

  /** A negative key gets a negative partition index, on which every
      operation panics, unless `size` divides it. */
  lemma NegativeKeys()
    ensures Hash(-1, DefaultPartitions) == -1
    ensures Hash(-257, DefaultPartitions) == -1
    ensures Hash(-512, DefaultPartitions) == 0
  {
  }

  class LoginMap {
    const size: int
    const data: array<map<int, Entry>>
    /** The map the partitions together represent. */
    ghost var contents: map<int, Entry>

    /** Every stored key sits in its own partition only, and `contents` is the
        union of the partitions. */
    ghost predicate Valid()
      reads this, data
    {
      && 0 < size == data.Length
      && (forall p, k :: 0 <= p < size && k in data[p] ==> Hash(k, size) == p)
      && (forall k :: k in contents <==> 0 <= Hash(k, size) && k in data[Hash(k, size)])
      && (forall k :: k in contents ==> contents[k] == data[Hash(k, size)][k])
    }

    /** `NewLoginMap`: a non-positive size falls back to 256 partitions, all
        empty. */
    constructor (size: int)
      ensures Valid()
      ensures this.size == if size <= 0 then DefaultPartitions else size
      ensures forall p :: 0 <= p < this.size ==> data[p] == map[]
      ensures contents == map[]
      ensures fresh(data)
    {
      var n := if size <= 0 then DefaultPartitions else size;
      var d := new map<int, Entry>[n];
      var i := 0;
      while i < n
        invariant 0 <= i <= n
        invariant forall p :: 0 <= p < i ==> d[p] == map[]
      {
        d[i] := map[];
        i := i + 1;
      }
      this.size := n;
      this.data := d;
      contents := map[];
    }

    /** `Set`: store `value` under `key`, replacing any earlier value; no
        other partition and no other key changes. */
    method Set(key: int, value: Entry)
      requires Valid() && 0 <= Hash(key, size)
      modifies this, data
      ensures Valid()
      ensures contents == old(contents)[key := value]
      ensures data[Hash(key, size)] == old(data[Hash(key, size)])[key := value]
      ensures forall p :: 0 <= p < size && p != Hash(key, size) ==> data[p] == old(data[p])
    {
      var k := Hash(key, size);
      data[k] := data[k][key := value];
      contents := contents[key := value];
    }

    /** `Del`: remove `key`; deleting an absent key changes nothing. */
    method Del(key: int)
      requires Valid() && 0 <= Hash(key, size)
      modifies this, data
      ensures Valid()
      ensures contents == old(contents) - {key}
      ensures data[Hash(key, size)] == old(data[Hash(key, size)]) - {key}
      ensures key !in old(contents) ==> data[Hash(key, size)] == old(data[Hash(key, size)])
      ensures forall p :: 0 <= p < size && p != Hash(key, size) ==> data[p] == old(data[p])
    {
      var k := Hash(key, size);
      data[k] := data[k] - {key};
      contents := contents - {key};
    }

    /** `Get`: the stored value and `true`, or the zero value and `false`. */
    method Get(key: int) returns (v: Entry, ok: bool)
      requires Valid() && 0 <= Hash(key, size)
      ensures ok <==> key in contents
      ensures v == if ok then contents[key] else ZeroEntry
    {
      var k := Hash(key, size);
      ok := key in data[k];
      v := if ok then data[k][key] else ZeroEntry;
    }

    /** `Has`: the `ok` of `Get`. */
    method Has(key: int) returns (ok: bool)
      requires Valid() && 0 <= Hash(key, size)
      ensures ok <==> key in contents
    {
      var k := Hash(key, size);
      ok := key in data[k];
    }
  }

  /** A `Get` right after `Set(key, value)` finds `value`, and a `Has` right
      after `Del(key)` finds nothing, whatever the map held before. */
  method SetGetDelHas(m: LoginMap, key: int, value: Entry) returns (v: Entry, ok: bool, present: bool)
    requires m.Valid() && 0 <= Hash(key, m.size)
    modifies m, m.data
    ensures m.Valid()
    ensures v == value && ok
    ensures !present
    ensures m.contents == old(m.contents) - {key}
  {
    m.Set(key, value);
    v, ok := m.Get(key);
    m.Del(key);
    present := m.Has(key);
  }
}
