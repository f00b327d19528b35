/**
 * A map kept as an unsorted array of pairs.
 *
 * The array's entries are a sequence; every method is tied to a function on that sequence, and the lemmas tie
 * these functions to operations on a finite map.
 */
module ArrayMap {

  // ---------------------------------------------------------------------------------------
  // Entries and the map they stand for
  // ---------------------------------------------------------------------------------------

  type Entries<K, V> = seq<(K, V)>

  predicate Unique<K(==), V>(s: Entries<K, V>) {
    forall i, j :: 0 <= i < j < |s| ==> s[i].0 != s[j].0
  }

  predicate Holds<K(==), V>(s: Entries<K, V>, k: K) {
    exists i :: 0 <= i < |s| && s[i].0 == k
  }

  function AsMap<K(==), V>(s: Entries<K, V>): map<K, V> {
    if s == [] then map[] else AsMap(s[..|s| - 1])[s[|s| - 1].0 := s[|s| - 1].1]
  }

  lemma {:induction false} MapKeys<K, V>(s: Entries<K, V>, k: K)
    ensures k in AsMap(s) <==> Holds(s, k)
  {
    if s != [] {
      var last := |s| - 1;
      MapKeys(s[..last], k);
      if Holds(s[..last], k) {
        var i :| 0 <= i < last && s[..last][i].0 == k;
        assert s[i].0 == k;
      }
      if Holds(s, k) {
        var i :| 0 <= i < |s| && s[i].0 == k;
        if i < last { assert s[..last][i].0 == k; }
      }
      assert s[last].0 == k ==> Holds(s, k);
    }
  }

  lemma {:induction false} MapValue<K, V>(s: Entries<K, V>, i: nat)
    requires Unique(s) && i < |s|
    ensures s[i].0 in AsMap(s) && AsMap(s)[s[i].0] == s[i].1
  {
    var last := |s| - 1;
    if i < last {
      assert s[..last][i] == s[i];
      MapValue(s[..last], i);
      assert s[i].0 != s[last].0;
    }
  }

  /** Entries are found in the map, and nothing else is. */
  lemma MapIs<K, V>(s: Entries<K, V>, m: map<K, V>)
    requires Unique(s)
    requires forall i :: 0 <= i < |s| ==> s[i].0 in m && m[s[i].0] == s[i].1
    requires forall k :: k in m ==> Holds(s, k)
    ensures AsMap(s) == m
  {
    var a := AsMap(s);
    forall k | k in a
      ensures k in m
    {
      MapKeys(s, k);
    }
    forall k | k in m
      ensures k in a && a[k] == m[k]
    {
      var i :| 0 <= i < |s| && s[i].0 == k;
      MapValue(s, i);
    }
    assert a == m;
  }

  // ---------------------------------------------------------------------------------------
  // Operations on entries
  // ---------------------------------------------------------------------------------------

  function Inserted<K(==), V>(s: Entries<K, V>, x: (K, V)): Entries<K, V> {
    if Holds(s, x.0) then s else s + [x]
  }

  function InsertedAll<K(==), V>(s: Entries<K, V>, xs: Entries<K, V>): Entries<K, V>
    decreases |xs|
  {
    if xs == [] then s else InsertedAll(Inserted(s, xs[0]), xs[1..])
  }

  /** The last entry fills the hole. */
  function ErasedAt<K, V>(s: Entries<K, V>, i: int): Entries<K, V> {
    if 0 <= i < |s| - 1 then s[..|s| - 1][i := s[|s| - 1]]
    else if i == |s| - 1 && i >= 0 then s[..i]
    else s
  }

  function Position<K(==), V>(s: Entries<K, V>, k: K): (i: nat)
    ensures i <= |s| && (i < |s| ==> s[i].0 == k)
    ensures forall j :: 0 <= j < i ==> s[j].0 != k
  {
    if s == [] then 0
    else
      var i := Position(s[..|s| - 1], k);
      assert forall j :: 0 <= j < i ==> s[..|s| - 1][j] == s[j];
      if i < |s| - 1 then i else if s[|s| - 1].0 == k then |s| - 1 else |s|
  }

  function ErasedKey<K(==), V>(s: Entries<K, V>, k: K): Entries<K, V> {
    ErasedAt(s, Position(s, k))
  }

  /** Erasing at i, i + 1, ... up to last, each time from what is left. */
  function ErasedSpan<K, V>(s: Entries<K, V>, i: int, last: int): Entries<K, V>
    decreases last - i
  {
    if i >= last then s else ErasedSpan(ErasedAt(s, i), i + 1, last)
  }

  function ErasedRange<K, V>(s: Entries<K, V>, first: int, last: int): Entries<K, V> {
    if 0 <= first < last < |s| then ErasedSpan(s, first, last) else s
  }

  function KeysIn<K(==), V>(s: Entries<K, V>, i: nat, j: nat): set<K> {
    set n | i <= n < j && n < |s| :: s[n].0
  }

  // ---------------------------------------------------------------------------------------
  // They are operations on the map
  // ---------------------------------------------------------------------------------------

  /** An insert never overwrites. */
  lemma InsertedMap<K, V>(s: Entries<K, V>, x: (K, V))
    requires Unique(s)
    ensures Unique(Inserted(s, x))
    ensures AsMap(Inserted(s, x)) == if x.0 in AsMap(s) then AsMap(s) else AsMap(s)[x.0 := x.1]
  {
    MapKeys(s, x.0);
    if !Holds(s, x.0) {
      assert (s + [x])[..|s|] == s;
    }
  }

  /** Of several pairs with one key the first counts, and keys already present keep their value. */
  lemma {:induction false} InsertedAllMap<K, V>(s: Entries<K, V>, xs: Entries<K, V>, k: K)
    requires Unique(s)
    ensures Unique(InsertedAll(s, xs))
    ensures k in AsMap(InsertedAll(s, xs)) <==> k in AsMap(s) || Holds(xs, k)
    ensures k in AsMap(s) ==> AsMap(InsertedAll(s, xs))[k] == AsMap(s)[k]
    ensures k !in AsMap(s) && Holds(xs, k) ==> AsMap(InsertedAll(s, xs))[k] == xs[Position(xs, k)].1
    decreases |xs|
  {
    if xs != [] {
      InsertedMap(s, xs[0]);
      InsertedAllMap(Inserted(s, xs[0]), xs[1..], k);
      PositionTail(xs, k);
    }
  }

  lemma HoldsPosition<K, V>(s: Entries<K, V>, k: K)
    ensures Holds(s, k) <==> Position(s, k) < |s|
  {
  }

  lemma PositionTail<K, V>(xs: Entries<K, V>, k: K)
    requires xs != []
    ensures Holds(xs, k) <==> xs[0].0 == k || Holds(xs[1..], k)
    ensures xs[0].0 == k ==> Position(xs, k) == 0
    ensures xs[0].0 != k && Holds(xs[1..], k) ==> Position(xs, k) == Position(xs[1..], k) + 1
  {
  }

  /** Erasing removes the key at that place and no other, though the last entry moves. */
  lemma ErasedAtMap<K, V>(s: Entries<K, V>, i: nat)
    requires Unique(s) && i < |s|
    ensures Unique(ErasedAt(s, i)) && |ErasedAt(s, i)| == |s| - 1
    ensures AsMap(ErasedAt(s, i)) == AsMap(s) - {s[i].0}
  {
    var e, m, last := ErasedAt(s, i), AsMap(s) - {s[i].0}, |s| - 1;
    assert forall j :: 0 <= j < last ==> e[j] == if j == i then s[last] else s[j];
    forall j | 0 <= j < |e|
      ensures e[j].0 in m && m[e[j].0] == e[j].1
    {
      MapValue(s, if j == i then last else j);
    }
    forall k | k in m
      ensures Holds(e, k)
    {
      MapKeys(s, k);
      var j :| 0 <= j < |s| && s[j].0 == k;
      assert e[if j == last then i else j].0 == k;
    }
    MapIs(e, m);
  }

  lemma ErasedKeyMap<K, V>(s: Entries<K, V>, k: K)
    requires Unique(s)
    ensures Unique(ErasedKey(s, k)) && AsMap(ErasedKey(s, k)) == AsMap(s) - {k}
    ensures |s| - |ErasedKey(s, k)| == if k in AsMap(s) then 1 else 0
  {
    MapKeys(s, k);
    HoldsPosition(s, k);
    if Position(s, k) < |s| { ErasedAtMap(s, Position(s, k)); }
  }

  /** How many of the places from i on are really erased: the array's end comes towards them. */
  function Reach(n: nat, i: nat, last: nat): nat {
    if i >= last || i >= n then 0 else if last - i <= (n - i + 1) / 2 then last - i else (n - i + 1) / 2
  }

  lemma {:induction false} ErasedSpanMap<K, V>(s: Entries<K, V>, i: nat, last: nat)
    requires Unique(s)
    ensures Unique(ErasedSpan(s, i, last))
    ensures AsMap(ErasedSpan(s, i, last)) == AsMap(s) - KeysIn(s, i, i + Reach(|s|, i, last))
    decreases last - i
  {
    if i < last {
      var e := ErasedAt(s, i);
      if i < |s| {
        ErasedAtMap(s, i);
        ErasedSpanMap(e, i + 1, last);
        SpanStep(s, e, AsMap(s), AsMap(e), i, last);
      } else {
        ErasedSpanMap(e, i + 1, last);
        NoKeys(s, i);
        NoKeys(s, i + 1);
      }
    } else {
      NoKeys(s, i);
    }
  }

  lemma NoKeys<K, V>(s: Entries<K, V>, i: nat)
    ensures KeysIn(s, i, i) == {} && AsMap(s) - KeysIn(s, i, i) == AsMap(s)
  {
  }

  lemma ReachStep(n: nat, i: nat, last: nat)
    requires i < last && i < n
    ensures Reach(n, i, last) == Reach(n - 1, i + 1, last) + 1
    ensures i + 1 + Reach(n - 1, i + 1, last) <= n - 1 || Reach(n - 1, i + 1, last) == 0
  {
  }

  lemma SpanStep<K, V>(s: Entries<K, V>, e: Entries<K, V>, before: map<K, V>, after: map<K, V>, i: nat, last: nat)
    requires i < |s| && i < last && e == ErasedAt(s, i) && after == before - {s[i].0}
    ensures after - KeysIn(e, i + 1, i + 1 + Reach(|e|, i + 1, last)) == before - KeysIn(s, i, i + Reach(|s|, i, last))
  {
    ReachStep(|s|, i, last);
    var m := Reach(|e|, i + 1, last);
    SameKeys(s, e, i, m);
    MinusBoth(before, s[i].0, KeysIn(e, i + 1, i + 1 + m));
  }

  lemma MinusBoth<K, V>(m: map<K, V>, k: K, more: set<K>)
    ensures m - {k} - more == m - ({k} + more)
  {
  }

  lemma SameKeys<K, V>(s: Entries<K, V>, e: Entries<K, V>, i: nat, m: nat)
    requires i < |s| && e == ErasedAt(s, i) && (i + 1 + m <= |s| - 1 || m == 0)
    ensures KeysIn(s, i, i + 1 + m) == {s[i].0} + KeysIn(e, i + 1, i + 1 + m)
  {
    var l, r := KeysIn(s, i, i + 1 + m), {s[i].0} + KeysIn(e, i + 1, i + 1 + m);
    forall k | k in l
      ensures k in r
    {
      var n :| i <= n < i + 1 + m && n < |s| && s[n].0 == k;
      if n > i { assert e[n].0 == k; }
    }
    forall k | k in r
      ensures k in l
    {
      if k == s[i].0 {
        assert k in l;
      } else {
        var n :| i + 1 <= n < i + 1 + m && n < |e| && e[n].0 == k;
        assert s[n].0 == k;
      }
    }
  }

  /**
   * Erasing a range removes exactly its keys when it is empty, or ends before the last entry or two and is not
   * longer than what follows it by more than one; for every other valid range it does not.
   */
  lemma ErasedRangeIff<K, V>(s: Entries<K, V>, first: nat, last: nat)
    requires Unique(s) && first <= last <= |s|
    ensures Unique(ErasedRange(s, first, last))
    ensures AsMap(ErasedRange(s, first, last)) == AsMap(s) - KeysIn(s, first, last)
            <==> first == last || (last < |s| && last - first <= |s| - last + 1)
  {
    var m := Reach(|s|, first, last);
    if first < last < |s| {
      ErasedSpanMap(s, first, last);
      if m < last - first {
        Survives(s, first, first + m, last);
      }
    } else if first < last {
      Survives(s, first, first, last);
    }
    if first == last || first == |s| {
      assert KeysIn(s, first, last) == {};
    }
    NoKeys(s, first);
  }

  /** Erasing everything up to end() erases nothing, and of three entries out of four only two go. */
  lemma ErasedRangeExamples()
    ensures ErasedRange([(1, 'a')], 0, 1) == [(1, 'a')]
    ensures ErasedRange([(1, 'a'), (2, 'b'), (3, 'c'), (4, 'd')], 0, 3) == [(4, 'd'), (3, 'c')]
  {
    var s := [(1, 'a'), (2, 'b'), (3, 'c'), (4, 'd')];
    var t := ErasedAt(s, 0);
    assert t == [(4, 'd'), (2, 'b'), (3, 'c')];
    var u := ErasedAt(t, 1);
    assert u == [(4, 'd'), (3, 'c')];
    assert ErasedSpan(u, 2, 3) == ErasedSpan(ErasedAt(u, 2), 3, 3) == u;
  }

  /** A key beyond the part erased stays, though it lies in the range. */
  lemma Survives<K, V>(s: Entries<K, V>, i: nat, j: nat, last: nat)
    requires Unique(s) && i <= j < last <= |s|
    ensures s[j].0 in KeysIn(s, i, last) && s[j].0 !in KeysIn(s, i, j) && s[j].0 in AsMap(s)
    ensures AsMap(s) - KeysIn(s, i, j) != AsMap(s) - KeysIn(s, i, last)
  {
    MapValue(s, j);
    assert s[j].0 in AsMap(s) - KeysIn(s, i, j);
  }

  // ---------------------------------------------------------------------------------------
  // The class
  // ---------------------------------------------------------------------------------------

  /** Positions stand for iterators; position size is end(). blank is a default-constructed pair. */
  class ArrayMap<K(==), V> {
    var size: nat
    var nodes: array<(K, V)>
    const blank: (K, V)

    /** Keys are unique and the entries fit the array; its length is the capacity. */
    ghost predicate Valid()
      reads this, nodes
    {
      size <= nodes.Length && Unique(nodes[..size])
    }

    function Contents(): Entries<K, V>
      requires size <= nodes.Length
      reads this, nodes
    {
      nodes[..size]
    }

    constructor (s: nat, default: (K, V))
      ensures Valid() && Contents() == [] && fresh(nodes) && nodes.Length == s && blank == default
    {
      size, blank := 0, default;
      nodes := new (K, V)[s](i => default);
    }

    method Find(k: K) returns (i: nat)
      requires Valid()
      ensures i == Position(Contents(), k) && (i < size <==> k in AsMap(Contents()))
    {
      i := 0;
      while i < size && nodes[i].0 != k
        invariant i <= size && forall j :: 0 <= j < i ==> nodes[j].0 != k
      {
        i := i + 1;
      }
      MapKeys(Contents(), k);
      HoldsPosition(Contents(), k);
    }

    /** Makes room for s more entries; nothing observable changes. */
    method Grow(s: nat)
      requires Valid()
      modifies this
      ensures Valid() && Contents() == old(Contents()) && size == old(size)
      ensures if old(size + s <= nodes.Length) then nodes == old(nodes)
              else fresh(nodes) && nodes.Length == size + s
    {
      if size + s > nodes.Length {
        var default := blank;
        var temp := new (K, V)[size + s](i => default);
        forall i | 0 <= i < size {
          temp[i] := nodes[i];
        }
        nodes := temp;
      }
    }

    method Insert(x: (K, V)) returns (i: nat, inserted: bool)
      requires Valid()
      modifies this, nodes
      ensures Valid() && Contents() == Inserted(old(Contents()), x) && (nodes == old(nodes) || fresh(nodes))
      ensures i < size && nodes[i].0 == x.0
      ensures inserted <==> x.0 !in old(AsMap(Contents()))
      ensures AsMap(Contents()) == if inserted then old(AsMap(Contents()))[x.0 := x.1] else old(AsMap(Contents()))
      ensures if inserted && old(size == nodes.Length) then nodes.Length == size else nodes == old(nodes)
    {
      ghost var s := Contents();
      InsertedMap(s, x);
      MapKeys(s, x.0);
      i := Find(x.0);
      inserted := false;
      if i == size {
        Grow(1);
        nodes[i] := x;
        size := size + 1;
        inserted := true;
        assert Contents() == s + [x];
      }
    }

    method InsertAll(xs: Entries<K, V>)
      requires Valid()
      modifies this, nodes
      ensures Valid() && Contents() == InsertedAll(old(Contents()), xs) && (nodes == old(nodes) || fresh(nodes))
      ensures nodes.Length == if old(size + |xs| <= nodes.Length) then old(nodes.Length) else old(size) + |xs|
    {
      Grow(|xs|);
      ghost var room := nodes;
      ghost var s := Contents();
      var i := 0;
      while i < |xs|
        invariant i <= |xs| && Valid() && nodes == room && size <= old(size) + i
        invariant InsertedAll(Contents(), xs[i..]) == InsertedAll(s, xs)
      {
        var p, inserted := Insert(xs[i]);
        assert xs[i..][1..] == xs[i + 1..];
        i := i + 1;
      }
      assert xs[i..] == [];
    }

    /** operator[]: the place of the value, after inserting a default one if the key is new. */
    method Index(k: K, default: V) returns (i: nat)
      requires Valid()
      modifies this, nodes
      ensures Valid() && (nodes == old(nodes) || fresh(nodes)) && i < size && nodes[i].0 == k
      ensures AsMap(Contents())
              == if k in old(AsMap(Contents())) then old(AsMap(Contents())) else old(AsMap(Contents()))[k := default]
      ensures nodes[i].1 == AsMap(Contents())[k]
    {
      var inserted;
      i, inserted := Insert((k, default));
      MapValue(Contents(), i);
    }

    /** Every place given up since the size was n holds a default entry. */
    ghost predicate Vacated(n: nat)
      reads this, nodes
    {
      size <= n <= nodes.Length && forall j :: size <= j < n ==> nodes[j] == blank
    }

    lemma StillVacated(n: nat, after: seq<(K, V)>, all: nat)
      requires Vacated(n) && nodes[n..] == after && n <= all <= n + |after|
      requires forall j :: 0 <= j < all - n ==> after[j] == blank
      ensures Vacated(all)
    {
      assert forall j :: n <= j < all ==> nodes[j] == after[j - n];
    }

    method EraseAt(pos: int)
      requires Valid()
      modifies this, nodes
      ensures Valid() && nodes == old(nodes) && Contents() == ErasedAt(old(Contents()), pos)
      ensures AsMap(Contents())
              == if 0 <= pos < old(size) then old(AsMap(Contents())) - {old(Contents())[pos].0}
                 else old(AsMap(Contents()))
      ensures Vacated(old(size)) && nodes[old(size)..] == old(nodes[size..])
    {
      ghost var s := Contents();
      if 0 <= pos < size {
        ErasedAtMap(s, pos);
        if pos != size - 1 {
          nodes[pos] := nodes[size - 1];
        }
        nodes[size - 1] := blank;
        size := size - 1;
        assert Contents() == ErasedAt(s, pos);
      }
    }

    method EraseKey(k: K) returns (n: nat)
      requires Valid()
      modifies this, nodes
      ensures Valid() && nodes == old(nodes) && Contents() == ErasedKey(old(Contents()), k)
      ensures AsMap(Contents()) == old(AsMap(Contents())) - {k}
      ensures n == if k in old(AsMap(Contents())) then 1 else 0
      ensures Vacated(old(size))
    {
      ErasedKeyMap(Contents(), k);
      var pos := Find(k);
      var before := size;
      EraseAt(pos);
      n := before - size;
    }

    method EraseRange(first: int, last: int)
      requires Valid()
      modifies this, nodes
      ensures Valid() && nodes == old(nodes) && Contents() == ErasedRange(old(Contents()), first, last)
      ensures 0 <= first < last < old(size) ==>
                AsMap(Contents())
                == old(AsMap(Contents()) - KeysIn(Contents(), first, first + Reach(size, first, last)))
      ensures Vacated(old(size))
    {
      if 0 <= first < last < size {
        ErasedSpanMap(Contents(), first, last);
        EraseSpan(first, last);
      }
    }

    /** The loop, against an end that moves towards it. */
    method EraseSpan(first: nat, last: nat)
      requires Valid() && first <= last
      modifies this, nodes
      ensures Valid() && nodes == old(nodes) && Contents() == ErasedSpan(old(Contents()), first, last)
      ensures Vacated(old(size))
    {
      var i := first;
      while i != last
        invariant first <= i <= last && Valid() && nodes == old(nodes) && Vacated(old(size))
        invariant ErasedSpan(Contents(), i, last) == ErasedSpan(old(Contents()), first, last)
      {
        ghost var n, after := size, nodes[size..];
        EraseAt(i);
        StillVacated(n, after, old(size));
        i := i + 1;
      }
    }

    method Clear()
      requires Valid()
      modifies this
      ensures Valid() && nodes == old(nodes) && Contents() == [] && AsMap(Contents()) == map[]
    {
      size := 0;
    }

    method Swap(other: ArrayMap<K, V>)
      requires Valid() && other.Valid()
      modifies this, other
      ensures Valid() && other.Valid()
      ensures Contents() == old(other.Contents()) && other.Contents() == old(Contents())
      ensures nodes == old(other.nodes) && other.nodes == old(nodes)
    {
      size, other.size := other.size, size;
      nodes, other.nodes := other.nodes, nodes;
    }
  }
}
