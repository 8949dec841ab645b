/** The counter record of include/plugin_types.h and the vector of pointers to it. */
module PluginTypes {
  import opened CStrings

  const INT32_MAX := 0x7FFF_FFFF
  const UINT32_MAX := 0xFFFF_FFFF
  const UINT64_MAX := 0xFFFF_FFFF_FFFF_FFFF

  type uint32 = x: int | 0 <= x <= UINT32_MAX
  type uint64 = x: int | 0 <= x <= UINT64_MAX

  type int32 = x: int | -0x8000_0000 <= x <= INT32_MAX

  function ToUint32(x: int): uint32 {
    x % 0x1_0000_0000
  }

  function ToUint64(x: int): uint64 {
    x % 0x1_0000_0000_0000_0000
  }

  /** Sums and differences of 64-bit numbers, which wrap around. */
  function AddUint64(x: uint64, y: uint64): uint64 {
    if x + y <= UINT64_MAX then x + y else x + y - UINT64_MAX - 1
  }

  function SubUint64(x: uint64, y: uint64): uint64 {
    if y <= x then x - y else x - y + UINT64_MAX + 1
  }

  lemma Remainder(x: int, m: int, q: int, r: int)
    requires 0 <= r < m && x == m * q + r
    ensures x % m == r
  {
    var d := x / m - q;
    assert m * d == r - x % m;
    assert d >= 1 ==> m * d >= m;
    assert d <= -1 ==> m * d <= -m;
  }

  /** Counting on modulo `m`. */
  lemma NextRemainder(n: nat, m: int)
    requires m > 1
    ensures (n + 1) % m == (n % m + 1) % m == if n % m == m - 1 then 0 else n % m + 1
  {
    var q, r := n / m, n % m;
    if r == m - 1 {
      assert n + 1 == m * (q + 1) + 0;
      Remainder(n + 1, m, q + 1, 0);
      Remainder(r + 1, m, 1, 0);
    } else {
      Remainder(n + 1, m, q, r + 1);
      Remainder(r + 1, m, 0, r + 1);
    }
  }

  /** The quotient, rounded up. */
  function CeilDiv(n: nat, d: nat): nat
    requires d > 0
  {
    (n + d - 1) / d
  }

  /** The size of the `name` field of a counter record, and of the buffers a name is built in. */
  const NAME_SIZE: nat := 512

  /** The content of one counter record. */
  datatype CounterRecord = CounterRecord(
    name: CString,
    scorepCounterId: uint32,
    alreadyRenamed: bool,
    value: uint64,
    prevValue: uint64)

  /** One heap-allocated counter record. */
  class CounterData {
    var name: CString
    var scorepCounterId: uint32
    var alreadyRenamed: bool
    var value: uint64
    var prevValue: uint64

    constructor (name: CString, id: uint32, value: uint64)
      ensures Record() == CounterRecord(name, id, false, value, UINT64_MAX)
    {
      this.name, scorepCounterId, alreadyRenamed, this.value := name, id, false, value;
      prevValue := UINT64_MAX;
    }

    ghost function Record(): CounterRecord
      reads this
    {
      CounterRecord(name, scorepCounterId, alreadyRenamed, value, prevValue)
    }
  }

  /** The counters list: a vector of pointers, no record in it twice. */
  class CounterList {
    var items: seq<CounterData>
    ghost var Repr: set<object>

    ghost predicate Valid()
      reads this, Repr
      ensures Valid() ==> this in Repr
    {
      && this in Repr
      && (forall i :: 0 <= i < |items| ==> items[i] in Repr)
      && (forall i, j :: 0 <= i < j < |items| ==> items[i] != items[j])
    }

    ghost function Records(): (r: seq<CounterRecord>)
      requires Valid()
      reads this, Repr
      ensures |r| == |items|
    {
      seq(|items|, i requires 0 <= i < |items| && Valid() reads this, Repr => items[i].Record())
    }

    constructor ()
      ensures Valid() && fresh(Repr) && Records() == []
    {
      items, Repr := [], {this};
    }

    method PushBack(name: CString, id: uint32, value: uint64)
      requires Valid()
      modifies this
      ensures Valid() && fresh(Repr - old(Repr)) && old(Repr) <= Repr
      ensures Records() == old(Records()) + [CounterRecord(name, id, false, value, UINT64_MAX)]
    {
      var counter := new CounterData(name, id, value);
      items, Repr := items + [counter], Repr + {counter};
    }

    method SetValue(i: nat, value: uint64)
      requires Valid() && i < |items|
      modifies Repr
      ensures Valid() && Repr == old(Repr) && items == old(items)
      ensures Records() == old(Records())[i := old(Records()[i]).(value := value)]
    {
      items[i].value := value;
    }

    /** Hands out the value with the previously handed-out one, and remembers it. */
    method Read(i: nat) returns (value: uint64, prevValue: uint64)
      requires Valid() && i < |items|
      modifies Repr
      ensures Valid() && Repr == old(Repr) && items == old(items)
      ensures value == old(Records()[i].value) && prevValue == old(Records()[i].prevValue)
      ensures Records() == old(Records())[i := old(Records()[i]).(prevValue := value)]
    {
      value := items[i].value;
      prevValue := items[i].prevValue;
      items[i].prevValue := value;
    }

    method MarkRenamed(i: nat)
      requires Valid() && i < |items|
      modifies Repr
      ensures Valid() && Repr == old(Repr) && items == old(items)
      ensures Records() == old(Records())[i := old(Records()[i]).(alreadyRenamed := true)]
    {
      items[i].alreadyRenamed := true;
    }
  }
}
