/**
 The match cache: a map with a ring buffer of its keys in insertion order.

 `Fifo` is the value it stands for. A reference that knows nothing of rings or evictions is the
 log of insertions: the cache holds the last `capacity` of them.
 */
module MatchCache {
  import opened Text

  /** Keys in insertion order, oldest first, and their values. */
  datatype Fifo<V> = Fifo(order: seq<string>, data: map<string, V>)

  ghost predicate Distinct(s: seq<string>) {
    forall i, j :: 0 <= i < j < |s| ==> s[i] != s[j]
  }

  ghost predicate Sound<V>(f: Fifo<V>, capacity: nat) {
    Distinct(f.order) && (forall k :: k in f.data <==> k in f.order) && |f.order| <= capacity
  }

  function Put<V>(f: Fifo<V>, capacity: nat, key: string, value: V): Fifo<V> {
    if key in f.data then Fifo(f.order, f.data[key := value])
    else if |f.order| >= capacity && |f.order| > 0 then
      Fifo(f.order[1..] + [key], (f.data - {f.order[0]})[key := value])
    else Fifo(f.order + [key], f.data[key := value])
  }

  lemma PutSound<V>(f: Fifo<V>, capacity: nat, key: string, value: V)
    requires Sound(f, capacity) && capacity > 0
    ensures Sound(Put(f, capacity, key, value), capacity)
  {
    var g := Put(f, capacity, key, value);
    if key !in f.data && |f.order| >= capacity {
      forall k
        ensures k in g.data <==> k in g.order
      {
        assert f.order == [f.order[0]] + f.order[1..];
      }
    }
  }

  // Runs

  datatype Op<V> = Set(key: string, value: V) | Clear

  function Apply<V>(f: Fifo<V>, op: Op<V>, capacity: nat): Fifo<V> {
    match op
    case Set(key, value) => Put(f, capacity, key, value)
    case Clear => Fifo([], map[])
  }

  function Run<V>(ops: seq<Op<V>>, capacity: nat): Fifo<V> {
    if ops == [] then Fifo([], map[]) else Apply(Run(ops[..|ops| - 1], capacity), ops[|ops| - 1], capacity)
  }

  /** The last `n` entries of a log. */
  function Last(log: seq<string>, n: nat): seq<string> {
    if |log| <= n then log else log[|log| - n..]
  }

  /** The insertions since the last clear: a set is one unless its key is among the last `capacity`. */
  function Insertions<V>(ops: seq<Op<V>>, capacity: nat): seq<string> {
    if ops == [] then []
    else
      var before := Insertions(ops[..|ops| - 1], capacity);
      match ops[|ops| - 1]
      case Set(key, _) => if key in Last(before, capacity) then before else before + [key]
      case Clear => []
  }

  /** The value the latest set of `key` gave it. */
  ghost predicate LatestSet<V>(ops: seq<Op<V>>, key: string, value: V) {
    exists i :: 0 <= i < |ops| && ops[i] == Set(key, value) &&
                forall j :: i < j < |ops| ==> ops[j] != Clear && !(ops[j].Set? && ops[j].key == key)
  }

  lemma LatestExtends<V>(ops: seq<Op<V>>, op: Op<V>, key: string, value: V)
    requires LatestSet(ops, key, value) && op.Set? && op.key != key
    ensures LatestSet(ops + [op], key, value)
  {
    var i :| 0 <= i < |ops| && ops[i] == Set(key, value) &&
             forall j :: i < j < |ops| ==> ops[j] != Clear && !(ops[j].Set? && ops[j].key == key);
    assert (ops + [op])[i] == Set(key, value);
  }

  lemma LatestIsLast<V>(ops: seq<Op<V>>, key: string, value: V)
    ensures LatestSet(ops + [Set(key, value)], key, value)
  {
    assert (ops + [Set(key, value)])[|ops|] == Set(key, value);
  }

  /** `f` holds the last `capacity` insertions in order, each with the value its latest set gave it. */
  ghost predicate HoldsLast<V>(ops: seq<Op<V>>, f: Fifo<V>, capacity: nat) {
    && Sound(f, capacity)
    && f.order == Last(Insertions(ops, capacity), capacity)
    && forall k :: k in f.data ==> LatestSet(ops, k, f.data[k])
  }

  /** Over every run the cache is sound and holds exactly the last insertions. */
  lemma {:induction false} RunHoldsLast<V>(ops: seq<Op<V>>, capacity: nat)
    requires capacity > 0
    ensures HoldsLast(ops, Run(ops, capacity), capacity)
  {
    if ops != [] {
      var front, op := ops[..|ops| - 1], ops[|ops| - 1];
      RunHoldsLast(front, capacity);
      ApplyHoldsLast(front, Run(front, capacity), op, capacity);
      assert ops == front + [op];
    }
  }

  lemma ApplyHoldsLast<V>(ops: seq<Op<V>>, f: Fifo<V>, op: Op<V>, capacity: nat)
    requires capacity > 0 && HoldsLast(ops, f, capacity)
    ensures HoldsLast(ops + [op], Apply(f, op, capacity), capacity)
  {
    assert (ops + [op])[..|ops|] == ops;
    if op.Set? {
      PutSound(f, capacity, op.key, op.value);
      WindowStep(f, Insertions(ops, capacity), capacity, op.key, op.value);
      LatestStep(ops, f, capacity, op.key, op.value);
    }
  }

  lemma WindowStep<V>(f: Fifo<V>, log: seq<string>, capacity: nat, key: string, value: V)
    requires capacity > 0 && Sound(f, capacity) && f.order == Last(log, capacity)
    ensures Put(f, capacity, key, value).order == Last(if key in Last(log, capacity) then log else log + [key], capacity)
  {
  }

  lemma LatestStep<V>(ops: seq<Op<V>>, f: Fifo<V>, capacity: nat, key: string, value: V)
    requires forall k :: k in f.data ==> LatestSet(ops, k, f.data[k])
    ensures forall k :: k in Put(f, capacity, key, value).data ==>
                          LatestSet(ops + [Set(key, value)], k, Put(f, capacity, key, value).data[k])
  {
    var g := Put(f, capacity, key, value);
    LatestIsLast(ops, key, value);
    forall k | k in g.data
      ensures LatestSet(ops + [Set(key, value)], k, g.data[k])
    {
      if k != key {
        LatestExtends(ops, Set(key, value), k, f.data[k]);
      }
    }
  }

  /** Reduces an index that is at most one lap ahead. */
  lemma Wrap(a: nat, n: nat)
    requires 0 < n && a < 2 * n
    ensures a % n == if a < n then a else a - n
  {
    if a >= n {
      assert a == n * 1 + (a - n);
      ModUnique(a, n, 1, a - n);
    } else {
      ModUnique(a, n, 0, a);
    }
  }

  lemma ModUnique(a: int, n: int, q: int, r: int)
    requires n > 0 && 0 <= r < n && a == n * q + r
    ensures a % n == r
  {
    var d := a / n - q;
    assert a == n * (a / n) + a % n;
    assert n * d == r - a % n;
    assert (d >= 1 ==> n * d >= n) && (d <= -1 ==> n * d <= -n);
  }

  /** The ring slot of the `i`-th oldest key. */
  function Slot(head: nat, i: nat, n: nat): (slot: nat)
    requires n > 0
    ensures slot < n
  {
    (head + i) % n
  }

  /** The live window of a ring, oldest key first. */
  function Live(ring: seq<string>, head: nat, size: nat): (order: seq<string>)
    requires head < |ring| && size <= |ring|
    ensures |order| == size
    ensures forall i :: 0 <= i < size ==> order[i] == ring[Slot(head, i, |ring|)]
  {
    seq(size, i requires 0 <= i < size => ring[Slot(head, i, |ring|)])
  }

  /** Distinct places in the window are distinct slots. */
  lemma SlotsDistinct(head: nat, i: nat, j: nat, n: nat)
    requires head < n && i < j < n
    ensures Slot(head, i, n) != Slot(head, j, n)
  {
    Wrap(head + i, n);
    Wrap(head + j, n);
  }

  lemma SlotShift(head: nat, i: nat, n: nat)
    requires head < n && i + 1 < n
    ensures Slot(Slot(head, 1, n), i, n) == Slot(head, i + 1, n)
  {
    Wrap(head + 1, n);
    Wrap(head + i + 1, n);
    Wrap(Slot(head, 1, n) + i, n);
  }

  lemma LiveAppend(ring: seq<string>, head: nat, size: nat, key: string)
    requires head < |ring| && size < |ring|
    ensures Live(ring[Slot(head, size, |ring|) := key], head, size + 1) == Live(ring, head, size) + [key]
  {
    forall i | 0 <= i < size
      ensures Slot(head, i, |ring|) != Slot(head, size, |ring|)
    {
      SlotsDistinct(head, i, size, |ring|);
    }
  }

  lemma LiveRotate(ring: seq<string>, head: nat, key: string)
    requires head < |ring|
    ensures Slot(head, 0, |ring|) == head
    ensures Live(ring[head := key], Slot(head, 1, |ring|), |ring|) == Live(ring, head, |ring|)[1..] + [key]
  {
    var n := |ring|;
    var head' := Slot(head, 1, n);
    Wrap(head, n);
    forall i | 0 <= i < n
      ensures Live(ring[head := key], head', n)[i] == (Live(ring, head, n)[1..] + [key])[i]
    {
      if i < n - 1 {
        SlotShift(head, i, n);
        SlotsDistinct(head, 0, i + 1, n);
      } else {
        Wrap(head + 1, n);
        Wrap(head' + i, n);
      }
    }
  }

  class MatchCache<V> {
    const capacity: nat
    var data: map<string, V>
    var ring: array<string>
    var head: nat
    var size: nat

    ghost predicate Shape()
      reads this
    {
      capacity > 0 && ring.Length == capacity && head < capacity && size <= capacity
    }

    ghost function Contents(): Fifo<V>
      requires Shape()
      reads this, ring
    {
      Fifo(Live(ring[..], head, size), data)
    }

    ghost predicate Valid()
      reads this, ring
    {
      Shape() && Sound(Contents(), capacity)
    }

    /** `newMatchCache`; a non-positive capacity means the default. */
    constructor (requested: int)
      ensures capacity == (if requested <= 0 then 100 else requested)
      ensures Valid() && fresh(ring) && Contents() == Fifo([], map[])
    {
      capacity := if requested <= 0 then 100 else requested;
      data := map[];
      ring := new string[if requested <= 0 then 100 else requested](_ => "");
      head, size := 0, 0;
    }

    method Get(key: string) returns (value: Option<V>)
      requires Valid()
      ensures value == if key in Contents().order then Some(Contents().data[key]) else None
    {
      value := if key in data then Some(data[key]) else None;
    }

    method Set(key: string, value: V)
      requires Valid()
      modifies this`data, this`head, this`size, ring
      ensures Valid() && Contents() == Put(old(Contents()), capacity, key, value)
    {
      PutSound(Contents(), capacity, key, value);
      if key in data {
        data := data[key := value];
      } else if size >= capacity {
        Evict(key, value);
      } else {
        Append(key, value);
      }
    }

    /** The full case of `Set`: the oldest entry goes, the new key takes its slot. */
    method Evict(key: string, value: V)
      requires Valid() && key !in data && size == capacity
      modifies this`data, this`head, ring
      ensures Shape() && Contents() == Put(old(Contents()), capacity, key, value)
    {
      LiveRotate(ring[..], head, key);
      var oldest := ring[head];
      assert oldest == Contents().order[0];
      data := data - {oldest};
      ring[head] := key;
      assert ring[..] == old(ring[..])[head := key];
      head := Slot(head, 1, capacity);
      data := data[key := value];
    }

    /** The other new-key case of `Set`: the key goes behind the window. */
    method Append(key: string, value: V)
      requires Valid() && key !in data && size < capacity
      modifies this`data, this`size, ring
      ensures Shape() && Contents() == Put(old(Contents()), capacity, key, value)
    {
      var tail := Slot(head, size, capacity);
      LiveAppend(ring[..], head, size, key);
      ring[tail] := key;
      assert ring[..] == old(ring[..])[tail := key];
      size := size + 1;
      data := data[key := value];
    }

    method Clear()
      requires Valid()
      modifies this`data, this`ring, this`head, this`size
      ensures Valid() && fresh(ring) && Contents() == Fifo([], map[])
    {
      data := map[];
      ring := new string[capacity](_ => "");
      head, size := 0, 0;
    }
  }
}
