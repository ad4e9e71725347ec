/**
 * The weighted multiset behind the balancer (balancer/weighted_slice.go): a
 * slot array in which an item of weight w occupies w slots, and an index from
 * each value to the slot positions recorded for it. The mutex of the source is
 * not modelled; every operation is one atomic step on an immutable value.
 */
module WeightedSlices {

  /** An item together with the number of slots it asks for. */
  datatype WeightedItem<T> = WeightedItem(value: T, weight: int)

  /** The slot array `elements` and the index `indexMap`. */
  datatype WeightedSlice<T(==)> = WeightedSlice(elements: seq<WeightedItem<T>>, indexMap: map<T, seq<int>>)

  // ---------------------------------------------------------------------------
  // Vocabulary
  // ---------------------------------------------------------------------------

  /** The number of slots (Len). */
  function Len<T(==)>(ws: WeightedSlice<T>): nat
  {
    |ws.elements|
  }

  function Max0(k: int): nat
  {
    if k > 0 then k else 0
  }

  /** `k` copies of an item; none when `k` is not positive. */
  function Copies<T>(item: WeightedItem<T>, k: int): (r: seq<WeightedItem<T>>)
    ensures |r| == Max0(k)
    ensures forall i :: 0 <= i < |r| ==> r[i] == item
  {
    if k <= 0 then [] else Copies(item, k - 1) + [item]
  }

  /** The `n` consecutive positions starting at `lo`. */
  function Range(lo: int, n: nat): seq<int>
  {
    seq(n, i => lo + i)
  }

  /** The positions recorded for `v`; a missing key reads as an empty list, as a nil slice does. */
  function Lookup<T(==)>(m: map<T, seq<int>>, v: T): seq<int>
  {
    if v in m then m[v] else []
  }

  /** The positions listed in `ps`, as a set (the removeMap of the source). */
  function Members(ps: seq<int>): set<int>
  {
    set i | i in ps
  }

  /** The positions, in increasing order, of the slots that hold `v`. */
  function PositionsOf<T(==)>(s: seq<WeightedItem<T>>, v: T): (ps: seq<int>)
    ensures forall i {:trigger i in ps} :: i in ps <==> 0 <= i < |s| && s[i].value == v
    ensures forall j, k :: 0 <= j < k < |ps| ==> ps[j] < ps[k]
  {
    if s == [] then []
    else
      var p := s[..|s| - 1];
      assert forall i :: 0 <= i < |p| ==> p[i] == s[i];
      var q := PositionsOf(p, v);
      assert forall j :: 0 <= j < |q| ==> q[j] < |p| by {
        forall j | 0 <= j < |q|
          ensures q[j] < |p|
        {
          assert q[j] in q;
        }
      }
      q + (if s[|s| - 1].value == v then [|s| - 1] else [])
  }

  /** Appending one slot adds its position to its own value's list only. */
  lemma PositionsOfSnoc<T>(p: seq<WeightedItem<T>>, x: WeightedItem<T>)
    ensures forall v :: PositionsOf(p + [x], v) == PositionsOf(p, v) + (if x.value == v then [|p|] else [])
  {
    assert (p + [x])[..|p|] == p;
  }

  lemma RangeSnoc(lo: int, n: nat)
    ensures Range(lo, n) + [lo + n] == Range(lo, n + 1)
  {
  }

  /** Appending one slot raises its own value's count by one. */
  lemma CountSnoc<T>(p: seq<WeightedItem<T>>, x: WeightedItem<T>)
    ensures forall v :: Count(p + [x], v) == Count(p, v) + (if x.value == v then 1 else 0)
  {
    PositionsOfSnoc(p, x);
  }

  /** The number of slots that hold `v`. */
  function Count<T(==)>(s: seq<WeightedItem<T>>, v: T): nat
  {
    |PositionsOf(s, v)|
  }

  predicate HasSlot<T(==)>(ws: WeightedSlice<T>, v: T)
  {
    Count(ws.elements, v) > 0
  }

  /**
   * The index is exact: a value is a key iff it holds a slot, and its entry
   * lists exactly the positions holding it, in increasing order.
   */
  ghost predicate IndexExact<T(!new)>(ws: WeightedSlice<T>)
  {
    && (forall v :: v in ws.indexMap ==> ws.indexMap[v] == PositionsOf(ws.elements, v) && ws.indexMap[v] != [])
    && (forall v :: PositionsOf(ws.elements, v) != [] ==> v in ws.indexMap)
  }

  // ---------------------------------------------------------------------------
  // NewWeightedSlice, AddItem
  // ---------------------------------------------------------------------------

  function NewWeightedSlice<T(==,!new)>(): (ws: WeightedSlice<T>)
    ensures Len(ws) == 0
    ensures IndexExact(ws)
  {
    WeightedSlice([], map[])
  }

  /** One iteration of the AddItem loop: append the item and record its position. */
  function AppendSlot<T(==)>(ws: WeightedSlice<T>, item: WeightedItem<T>): WeightedSlice<T>
  {
    WeightedSlice(ws.elements + [item], ws.indexMap[item.value := Lookup(ws.indexMap, item.value) + [|ws.elements|]])
  }

  /** `k` iterations of the AddItem loop, in closed form. */
  function AddCopies<T(==)>(ws: WeightedSlice<T>, item: WeightedItem<T>, k: int): (r: WeightedSlice<T>)
    ensures r.elements == ws.elements + Copies(item, k)
    ensures r.indexMap == if k <= 0 then ws.indexMap
                          else ws.indexMap[item.value := Lookup(ws.indexMap, item.value) + Range(|ws.elements|, k)]
    decreases k
  {
    if k <= 0 then ws
    else
      var a := AddCopies(ws, item, k - 1);
      assert Range(|ws.elements|, k - 1) + [|ws.elements| + k - 1] == Range(|ws.elements|, k);
      assert Lookup(a.indexMap, item.value) == Lookup(ws.indexMap, item.value) + Range(|ws.elements|, k - 1) by {
        if k == 1 {
          assert Range(|ws.elements|, 0) == [];
        }
      }
      assert |a.elements| == |ws.elements| + k - 1;
      var m := ws.indexMap[item.value := Lookup(ws.indexMap, item.value) + Range(|ws.elements|, k)];
      assert Lookup(a.indexMap, item.value) + [|a.elements|] == Lookup(ws.indexMap, item.value) + Range(|ws.elements|, k);
      assert a.indexMap.Keys + {item.value} == m.Keys;
      assert forall x :: x in m && x != item.value ==> a.indexMap[x] == m[x];
      assert a.indexMap[item.value := Lookup(a.indexMap, item.value) + [|a.elements|]] == m;
      AppendSlot(a, item)
  }

  /** Appending copies of `item` adds slots for `item.value` at the end and none for anything else. */
  lemma {:induction false} PositionsAfterCopies<T>(s: seq<WeightedItem<T>>, item: WeightedItem<T>, k: int, v: T)
    ensures PositionsOf(s + Copies(item, k), v)
            == PositionsOf(s, v) + (if item.value == v then Range(|s|, Max0(k)) else [])
    decreases Max0(k)
  {
    if k <= 0 {
      assert s + Copies(item, k) == s;
    } else {
      PositionsAfterCopies(s, item, k - 1, v);
      PositionsAfterOneMoreCopy(s, item, k, v);
      var ps, r := PositionsOf(s, v), Range(|s|, k - 1);
      if item.value == v {
        AppendAssoc(ps, r, [|s| + (k - 1)]);
        RangeSnoc(|s|, k - 1);
      } else {
        assert ps + [] == ps;
      }
    }
  }

  /** The k-th copy of an item lands at position `|s| + k - 1`. */
  lemma PositionsAfterOneMoreCopy<T>(s: seq<WeightedItem<T>>, item: WeightedItem<T>, k: int, v: T)
    requires k > 0
    ensures PositionsOf(s + Copies(item, k), v)
            == PositionsOf(s + Copies(item, k - 1), v) + (if item.value == v then [|s| + (k - 1)] else [])
  {
    var p := s + Copies(item, k - 1);
    assert Copies(item, k) == Copies(item, k - 1) + [item];
    assert s + Copies(item, k) == p + [item];
    PositionsOfSnoc(p, item);
  }

  /**
   * Regrouping a concatenation, kept as a lemma of its own: asserted inside
   * PositionsAfterCopies the same step makes the solver search among the
   * PositionsOf facts in scope.
   */
  lemma AppendAssoc<X>(a: seq<X>, b: seq<X>, c: seq<X>)
    ensures (a + b) + c == a + (b + c)
  {
  }

  /** Slot counts after appending copies, for every value. */
  lemma CountsAfterCopies<T>(s: seq<WeightedItem<T>>, item: WeightedItem<T>, k: int)
    ensures forall x :: Count(s + Copies(item, k), x) == Count(s, x) + (if x == item.value then Max0(k) else 0)
  {
    forall x
      ensures Count(s + Copies(item, k), x) == Count(s, x) + (if x == item.value then Max0(k) else 0)
    {
      PositionsAfterCopies(s, item, k, x);
    }
  }

  /**
   * AddItem: appends `max(weight, 0)` copies of the item behind the existing
   * slots, records their positions in increasing order under `item.value`, and
   * touches no other key. A non-positive weight changes nothing, not even the
   * key set.
   */
  function AddItem<T(==,!new)>(ws: WeightedSlice<T>, item: WeightedItem<T>): (r: WeightedSlice<T>)
    ensures Len(r) == Len(ws) + Max0(item.weight)
    ensures r.elements[..Len(ws)] == ws.elements
    ensures forall i :: Len(ws) <= i < Len(r) ==> r.elements[i] == item
    ensures forall x :: Count(r.elements, x) == Count(ws.elements, x) + (if x == item.value then Max0(item.weight) else 0)
    ensures item.weight > 0 ==> item.value in r.indexMap
                                && r.indexMap[item.value] == Lookup(ws.indexMap, item.value) + Range(Len(ws), item.weight)
    ensures forall x :: x != item.value ==> (x in r.indexMap <==> x in ws.indexMap) && Lookup(r.indexMap, x) == Lookup(ws.indexMap, x)
    ensures item.weight <= 0 ==> r == ws
  {
    CountsAfterCopies(ws.elements, item, item.weight);
    AddCopies(ws, item, item.weight)
  }

  /** AddItem of a weight-one item appends one slot and one position. */
  lemma AddSingle<T(!new)>(ws: WeightedSlice<T>, item: WeightedItem<T>)
    requires item.weight == 1
    ensures AddItem(ws, item).elements == ws.elements + [item]
    ensures AddItem(ws, item).indexMap == ws.indexMap[item.value := Lookup(ws.indexMap, item.value) + [Len(ws)]]
  {
    assert Copies(item, 1) == [item];
    assert Range(Len(ws), 1) == [Len(ws)];
  }

  /** AddItem keeps the index exact. */
  lemma AddItemKeepsIndexExact<T(!new)>(ws: WeightedSlice<T>, item: WeightedItem<T>)
    requires IndexExact(ws)
    ensures IndexExact(AddItem(ws, item))
  {
    var r := AddItem(ws, item);
    forall v
      ensures v in r.indexMap ==> r.indexMap[v] == PositionsOf(r.elements, v) && r.indexMap[v] != []
      ensures PositionsOf(r.elements, v) != [] ==> v in r.indexMap
    {
      PositionsAfterCopies(ws.elements, item, item.weight, v);
      if v == item.value && item.weight > 0 {
        assert Range(Len(ws), item.weight)[0] == Len(ws);
      }
    }
  }

  // ---------------------------------------------------------------------------
  // GetRandomItem
  // ---------------------------------------------------------------------------

  /**
   * GetRandomItem with the random index made a parameter. The source panics on
   * an empty slice (`rand.Intn(0)`), hence the requires. The drawn value owns
   * the drawn slot and, when the index is exact, has an index entry.
   */
  function GetRandomItem<T(==,!new)>(ws: WeightedSlice<T>, choice: nat): (v: T)
    requires choice < Len(ws)
    ensures choice in PositionsOf(ws.elements, v)
    ensures HasSlot(ws, v)
    ensures IndexExact(ws) ==> v in ws.indexMap
  {
    ws.elements[choice].value
  }

  // ---------------------------------------------------------------------------
  // RemoveItemByValue
  // ---------------------------------------------------------------------------

  /** The number of positions below `i` that are not in `drop`. */
  function Rank(i: nat, drop: set<int>): (r: nat)
    ensures r <= i
  {
    if i == 0 then 0 else Rank(i - 1, drop) + (if i - 1 in drop then 0 else 1)
  }

  /**
   * `r` consists of the slots of `s` whose positions are not in `drop`, in
   * their original order: the kept slot at position i lands at index Rank(i).
   */
  ghost predicate KeepsUnlisted<T>(s: seq<T>, r: seq<T>, drop: set<int>)
  {
    && |r| == Rank(|s|, drop)
    && forall i {:trigger s[i]} :: 0 <= i < |s| && i !in drop ==> Rank(i, drop) < |r| && r[Rank(i, drop)] == s[i]
  }

  /** The compaction loop of RemoveItemByValue. */
  function Keep<T>(s: seq<T>, drop: set<int>): (r: seq<T>)
    ensures KeepsUnlisted(s, r, drop)
  {
    if s == [] then []
    else
      var kp := Keep(s[..|s| - 1], drop);
      var r := kp + (if |s| - 1 in drop then [] else [s[|s| - 1]]);
      KeepStep(s, kp, r, drop);
      r
  }

  /** One iteration of the compaction loop keeps KeepsUnlisted. */
  lemma KeepStep<T>(s: seq<T>, kp: seq<T>, r: seq<T>, drop: set<int>)
    requires s != [] && KeepsUnlisted(s[..|s| - 1], kp, drop)
    requires r == kp + (if |s| - 1 in drop then [] else [s[|s| - 1]])
    ensures KeepsUnlisted(s, r, drop)
  {
    var n := |s| - 1;
    forall i | 0 <= i < |s| && i !in drop
      ensures Rank(i, drop) < |r| && r[Rank(i, drop)] == s[i]
    {
      if i < n {
        assert s[..n][i] == s[i];
        assert r[Rank(i, drop)] == kp[Rank(i, drop)];
      } else {
        assert Rank(i, drop) == |kp|;
      }
    }
  }

  /** Only the positions inside the slot array matter to the compaction. */
  lemma {:induction false} KeepIgnoresOutOfRange<T>(s: seq<T>, d1: set<int>, d2: set<int>)
    requires forall i :: 0 <= i < |s| ==> (i in d1 <==> i in d2)
    ensures Keep(s, d1) == Keep(s, d2)
  {
    if s != [] {
      KeepIgnoresOutOfRange(s[..|s| - 1], d1, d2);
    }
  }

  /** The reference meaning of "remove all instances of v": filter the slots by value. */
  function FilterOut<T(==,!new)>(s: seq<WeightedItem<T>>, v: T): (r: seq<WeightedItem<T>>)
    ensures forall x :: Count(r, x) == if x == v then 0 else Count(s, x)
    ensures |r| == |s| - Count(s, v)
  {
    if s == [] then []
    else
      var p := s[..|s| - 1];
      var last := s[|s| - 1];
      assert s == p + [last];
      CountSnoc(p, last);
      var fp := FilterOut(p, v);
      if last.value == v then fp
      else
        CountSnoc(fp, last);
        fp + [last]
  }

  /** Filtering removes every item with value `v` and keeps every other item as often as it occurred. */
  lemma {:induction false} FilterOutMultiset<T(!new)>(s: seq<WeightedItem<T>>, v: T)
    ensures forall e: WeightedItem<T> :: e.value == v ==> multiset(FilterOut(s, v))[e] == 0
    ensures forall e: WeightedItem<T> :: e.value != v ==> multiset(FilterOut(s, v))[e] == multiset(s)[e]
  {
    if s != [] {
      var p, last := s[..|s| - 1], s[|s| - 1];
      assert s == p + [last];
      FilterOutMultiset(p, v);
      var fp := FilterOut(p, v);
      assert multiset(s) == multiset(p) + multiset{last};
      if last.value == v {
        assert FilterOut(s, v) == fp;
      } else {
        assert FilterOut(s, v) == fp + [last];
        assert multiset(fp + [last]) == multiset(fp) + multiset{last};
      }
    }
  }

  /** Dropping the positions of `v` is the same as filtering `v` out. */
  lemma {:induction false} KeepPositionsIsFilterOut<T(!new)>(s: seq<WeightedItem<T>>, v: T)
    ensures Keep(s, Members(PositionsOf(s, v))) == FilterOut(s, v)
  {
    if s != [] {
      var p := s[..|s| - 1];
      var d := Members(PositionsOf(s, v));
      var dp := Members(PositionsOf(p, v));
      assert forall i :: 0 <= i < |p| ==> (i in d <==> i in dp);
      KeepIgnoresOutOfRange(p, d, dp);
      KeepPositionsIsFilterOut(p, v);
      assert |s| - 1 in d <==> s[|s| - 1].value == v;
    }
  }

  /** Filtering out a value that holds no slot changes nothing. */
  lemma {:induction false} FilterOutAbsent<T(!new)>(s: seq<WeightedItem<T>>, v: T)
    ensures PositionsOf(s, v) == [] ==> FilterOut(s, v) == s
  {
    if s != [] && PositionsOf(s, v) == [] {
      var p := s[..|s| - 1];
      assert PositionsOf(p, v) == [] by {
        assert |PositionsOf(p, v)| <= |PositionsOf(s, v)|;
      }
      FilterOutAbsent(p, v);
      assert s[|s| - 1].value != v by {
        assert |s| - 1 !in PositionsOf(s, v);
      }
      assert s == p + [s[|s| - 1]];
    }
  }

  /**
   * RemoveItemByValue as written: when `v` has an index entry, the slots at
   * the listed positions are dropped and the rest are compacted in order; the
   * key `v` is deleted and every other entry is kept as it was, not
   * re-indexed. Without an entry nothing changes.
   */
  function RemoveItemByValue<T(==)>(ws: WeightedSlice<T>, v: T): (r: WeightedSlice<T>)
    ensures v !in ws.indexMap ==> r == ws
    ensures v in ws.indexMap ==> KeepsUnlisted(ws.elements, r.elements, Members(ws.indexMap[v]))
    ensures r.indexMap.Keys == ws.indexMap.Keys - {v}
    ensures forall x :: x in r.indexMap ==> r.indexMap[x] == ws.indexMap[x]
    ensures Len(r) <= Len(ws)
  {
    if v !in ws.indexMap then ws
    else WeightedSlice(Keep(ws.elements, Members(ws.indexMap[v])), ws.indexMap - {v})
  }

  /**
   * The documented promise, "removes all instances of items with the given
   * value", holds when the index is exact.
   */
  lemma RemoveExactRemovesAllCopies<T(!new)>(ws: WeightedSlice<T>, v: T)
    ensures IndexExact(ws) ==> RemoveItemByValue(ws, v).elements == FilterOut(ws.elements, v)
  {
    if !IndexExact(ws) {
    } else if v in ws.indexMap {
      KeepPositionsIsFilterOut(ws.elements, v);
    } else {
      FilterOutAbsent(ws.elements, v);
    }
  }

  /**
   * Len is the number of slots: adding an item grows it by the item's
   * weight, and removing a value through an exact index shrinks it by that
   * value's slot count.
   */
  lemma LenCountsSlots<T(!new)>(ws: WeightedSlice<T>, item: WeightedItem<T>, v: T)
    requires IndexExact(ws)
    ensures Len(AddItem(ws, item)) == Len(ws) + Max0(item.weight)
    ensures Len(RemoveItemByValue(ws, v)) == Len(ws) - Count(ws.elements, v)
  {
    RemoveExactRemovesAllCopies(ws, v);
  }

  /** On a fresh slice, adding an item and removing its value leaves no slot. */
  lemma AddThenRemoveEmpties<T(!new)>(v: T, w: int)
    ensures Len(RemoveItemByValue(AddItem(NewWeightedSlice(), WeightedItem(v, w)), v)) == 0
  {
    var ws := AddItem(NewWeightedSlice(), WeightedItem(v, w));
    AddItemKeepsIndexExact(NewWeightedSlice(), WeightedItem(v, w));
    RemoveExactRemovesAllCopies(ws, v);
    assert Count(ws.elements, v) == Max0(w);
  }

  // ---------------------------------------------------------------------------
  // The stale index left behind by RemoveItemByValue
  // ---------------------------------------------------------------------------

  /** Exactness is not preserved: removing x from [x, y] leaves y recorded at position 1 of a one-slot array. */
  lemma RemovalBreaksIndexExact<T(!new)>(x: T, y: T)
    requires x != y
    ensures var ws := AddItem(AddItem(NewWeightedSlice(), WeightedItem(x, 1)), WeightedItem(y, 1));
            IndexExact(ws) && !IndexExact(RemoveItemByValue(ws, x))
  {
    var ws0 := NewWeightedSlice();
    var ws1 := AddItem(ws0, WeightedItem(x, 1));
    AddItemKeepsIndexExact(ws0, WeightedItem(x, 1));
    AddItemKeepsIndexExact(ws1, WeightedItem(y, 1));
    ScenarioTwoItems(x, y);
    var r := RemoveItemByValue(WeightedSlice([WeightedItem(x, 1), WeightedItem(y, 1)], map[x := [0], y := [1]]), x);
    assert r.indexMap[y] == [1];
    assert 1 !in PositionsOf(r.elements, y);
  }

  /**
   * The sequence add x(1), add y(1), remove x, add z(1), remove y: the stale
   * position of y points at z's slot, so z's slot is removed and y's
   * survives; y can never be removed again because its key is gone, and z
   * keeps a key without a slot.
   */
  lemma StaleIndexRemovesWrongCopy<T(!new)>(x: T, y: T, z: T)
    requires x != y && y != z && x != z
    ensures var s2 := AddItem(AddItem(NewWeightedSlice(), WeightedItem(x, 1)), WeightedItem(y, 1));
            var s4 := AddItem(RemoveItemByValue(s2, x), WeightedItem(z, 1));
            var s5 := RemoveItemByValue(s4, y);
            && s5.elements == [WeightedItem(y, 1)]
            && y !in s5.indexMap
            && z in s5.indexMap && !HasSlot(s5, z)
  {
    StaleIndexAfterReAdd(x, y, z);
    StaleIndexFinalRemoval(y, z);
  }

  /** After add x(1), add y(1), remove x, add z(1), both y and z are recorded at position 1. */
  lemma StaleIndexAfterReAdd<T(!new)>(x: T, y: T, z: T)
    requires x != y && y != z && x != z
    ensures var s2 := AddItem(AddItem(NewWeightedSlice(), WeightedItem(x, 1)), WeightedItem(y, 1));
            AddItem(RemoveItemByValue(s2, x), WeightedItem(z, 1))
            == WeightedSlice([WeightedItem(y, 1), WeightedItem(z, 1)], map[y := [1], z := [1]])
  {
    var s3 := WeightedSlice([WeightedItem(y, 1)], map[y := [1]]);
    StaleIndexAfterRemoval(x, y);
    AddSingle(s3, WeightedItem(z, 1));
    assert Lookup(s3.indexMap, z) + [Len(s3)] == [1];
  }

  /** Removing x from [x, y] compacts y to position 0 but leaves its entry at 1. */
  lemma StaleIndexAfterRemoval<T(!new)>(x: T, y: T)
    requires x != y
    ensures RemoveItemByValue(AddItem(AddItem(NewWeightedSlice(), WeightedItem(x, 1)), WeightedItem(y, 1)), x)
            == WeightedSlice([WeightedItem(y, 1)], map[y := [1]])
  {
    ScenarioTwoItems(x, y);
    var s2 := WeightedSlice([WeightedItem(x, 1), WeightedItem(y, 1)], map[x := [0], y := [1]]);
    var s3 := RemoveItemByValue(s2, x);
    assert Members([0]) == {0};
    assert Rank(1, {0}) == 0 && Rank(2, {0}) == 1;
    assert s2.elements[1] == WeightedItem(y, 1);
    assert s3.elements == [WeightedItem(y, 1)];
    assert s3.indexMap == map[y := [1]];
  }

  /** Removing y through its stale position 1 drops z's slot and keeps y's. */
  lemma StaleIndexFinalRemoval<T(!new)>(y: T, z: T)
    requires y != z
    ensures var s5 := RemoveItemByValue(WeightedSlice([WeightedItem(y, 1), WeightedItem(z, 1)], map[y := [1], z := [1]]), y);
            && s5.elements == [WeightedItem(y, 1)]
            && y !in s5.indexMap
            && z in s5.indexMap && !HasSlot(s5, z)
  {
    var s4 := WeightedSlice([WeightedItem(y, 1), WeightedItem(z, 1)], map[y := [1], z := [1]]);
    var s5 := RemoveItemByValue(s4, y);
    assert s5.elements == [WeightedItem(y, 1)] by {
      assert Members([1]) == {1};
      assert Rank(0, {1}) == 0 && Rank(1, {1}) == 1 && Rank(2, {1}) == 1;
      assert s4.elements[0] == WeightedItem(y, 1);
    }
    assert PositionsOf(s5.elements, z) == [];
  }

  /** Adding x(1) and then y(1) to a fresh slice. */
  lemma ScenarioTwoItems<T(!new)>(x: T, y: T)
    requires x != y
    ensures AddItem(AddItem(NewWeightedSlice(), WeightedItem(x, 1)), WeightedItem(y, 1))
            == WeightedSlice([WeightedItem(x, 1), WeightedItem(y, 1)], map[x := [0], y := [1]])
  {
    var e: WeightedSlice<T> := NewWeightedSlice();
    AddSingle(e, WeightedItem(x, 1));
    var s1 := AddItem(e, WeightedItem(x, 1));
    assert Lookup(e.indexMap, x) + [Len(e)] == [0];
    assert s1 == WeightedSlice([WeightedItem(x, 1)], map[x := [0]]);
    AddSingle(s1, WeightedItem(y, 1));
    assert Lookup(s1.indexMap, y) + [Len(s1)] == [1];
  }

  // ---------------------------------------------------------------------------
  // Corrected removal
  // ---------------------------------------------------------------------------

  /** The values that hold at least one slot. */
  function ValueSet<T(==)>(s: seq<WeightedItem<T>>): set<T>
  {
    set i | 0 <= i < |s| :: s[i].value
  }

  /** The exact index of a slot array, rebuilt from scratch. */
  function Reindex<T(==,!new)>(s: seq<WeightedItem<T>>): (m: map<T, seq<int>>)
    ensures IndexExact(WeightedSlice(s, m))
  {
    var m := map x | x in ValueSet(s) :: PositionsOf(s, x);
    assert forall v :: PositionsOf(s, v) != [] ==> v in m by {
      forall v | PositionsOf(s, v) != []
        ensures v in m
      {
        var p := PositionsOf(s, v)[0];
        assert p in PositionsOf(s, v);
        assert s[p].value == v;
      }
    }
    assert forall v :: v in m ==> m[v] != [] by {
      forall v | v in m
        ensures m[v] != []
      {
        var i :| 0 <= i < |s| && s[i].value == v;
        assert i in PositionsOf(s, v);
      }
    }
    m
  }

  /**
   * RemoveItemByValue with the index rebuilt after compaction. Whenever the
   * index is exact before, exactly the copies of `v` are removed, the rest
   * keep their order, and the index is exact afterwards.
   */
  function RemoveItemByValueReindexed<T(==,!new)>(ws: WeightedSlice<T>, v: T): (r: WeightedSlice<T>)
    ensures v !in ws.indexMap ==> r == ws
    ensures IndexExact(ws) ==> IndexExact(r) && r.elements == FilterOut(ws.elements, v)
    ensures IndexExact(ws) ==> !HasSlot(r, v)
  {
    if v !in ws.indexMap then
      FilterOutAbsent(ws.elements, v);
      ws
    else
      var e := Keep(ws.elements, Members(ws.indexMap[v]));
      KeepPositionsIsFilterOut(ws.elements, v);
      WeightedSlice(e, Reindex(e))
  }

  /** The sequence of StaleIndexRemovesWrongCopy with the corrected removal leaves exactly z's slot. */
  lemma ReindexedRemovalScenario<T(!new)>(x: T, y: T, z: T)
    requires x != y && y != z && x != z
    ensures var s2 := AddItem(AddItem(NewWeightedSlice(), WeightedItem(x, 1)), WeightedItem(y, 1));
            var s4 := AddItem(RemoveItemByValueReindexed(s2, x), WeightedItem(z, 1));
            var s5 := RemoveItemByValueReindexed(s4, y);
            s5.elements == [WeightedItem(z, 1)] && IndexExact(s5)
  {
    var a, b, c := WeightedItem(x, 1), WeightedItem(y, 1), WeightedItem(z, 1);
    var s2 := AddItem(AddItem(NewWeightedSlice(), a), b);
    TwoItemsExact(x, y);
    ReindexedThenAddOne(s2, x, c);
    FilterOutOfPair(a, b, x);
    assert FilterOut([a, b], x) == [b];
    var s4 := AddItem(RemoveItemByValueReindexed(s2, x), c);
    assert s4.elements == [b] + [c];
    FilterOutOfPair(b, c, y);
    assert FilterOut([b, c], y) == [c];
  }

  /** The slice of ScenarioTwoItems has an exact index. */
  lemma TwoItemsExact<T(!new)>(x: T, y: T)
    requires x != y
    ensures var s2 := AddItem(AddItem(NewWeightedSlice(), WeightedItem(x, 1)), WeightedItem(y, 1));
            IndexExact(s2) && s2.elements == [WeightedItem(x, 1), WeightedItem(y, 1)]
  {
    var s0 := NewWeightedSlice();
    AddItemKeepsIndexExact(s0, WeightedItem(x, 1));
    AddItemKeepsIndexExact(AddItem(s0, WeightedItem(x, 1)), WeightedItem(y, 1));
    ScenarioTwoItems(x, y);
  }

  /** Corrected removal followed by adding one copy of an item, from an exact index. */
  lemma ReindexedThenAddOne<T(!new)>(ws: WeightedSlice<T>, v: T, item: WeightedItem<T>)
    requires IndexExact(ws) && item.weight == 1
    ensures var r := AddItem(RemoveItemByValueReindexed(ws, v), item);
            IndexExact(r) && r.elements == FilterOut(ws.elements, v) + [item]
  {
    var s := RemoveItemByValueReindexed(ws, v);
    AddSingle(s, item);
    AddItemKeepsIndexExact(s, item);
  }

  lemma FilterOutOfPair<T(!new)>(p: WeightedItem<T>, q: WeightedItem<T>, v: T)
    ensures FilterOut([p, q], v) == (if p.value == v then [] else [p]) + (if q.value == v then [] else [q])
  {
    assert [p, q][..1] == [p];
    assert [p][..0] == [];
  }
}
