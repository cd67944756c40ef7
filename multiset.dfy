/**
 A map-backed multiset (bag): each distinct element is mapped to its
 strictly positive number of occurrences; an absent element has count 0.

 The first half of this module specifies the contents of that map as pure
 functions (the abstract multiset `Bag`, and how adding and removing change
 the map); the class `Multiset` at the end holds the map in a field and
 updates it in place, method by method, as the Go type does.
 */
module Multiset {

  // ---------------------------------------------------------------------
  // Specification of the underlying count map
  // ---------------------------------------------------------------------

  /** The representation invariant: every stored count is strictly positive. */
  ghost predicate AllPositive<T(!new)>(m: map<T, int>)
  {
    forall e :: e in m ==> m[e] > 0
  }

  /** The count of `e` as the map gives it: the stored value, or 0 when absent. */
  function CountOf<T(!new)>(m: map<T, int>, e: T): int
  {
    if e in m then m[e] else 0
  }

  /** `n` occurrences of `e` and nothing else. */
  ghost function Copies<T(!new)>(e: T, n: nat): (b: multiset<T>)
    ensures b[e] == n && |b| == n
    ensures forall x :: x != e ==> b[x] == 0
  {
    if n == 0 then multiset{} else Copies(e, n - 1) + multiset{e}
  }

  /** One copy of `e` is the singleton multiset. */
  lemma CopiesOne<T(!new)>(e: T)
    ensures Copies(e, 1) == multiset{e}
  {
  }

  /** The multiset a positive count map stands for. */
  ghost function Bag<T(!new)>(m: map<T, int>): (b: multiset<T>)
    requires AllPositive(m)
    ensures forall e :: b[e] == CountOf(m, e)
    decreases |m|
  {
    if m == map[] then multiset{}
    else
      var k :| k in m;
      assert |m - {k}| == |m| - 1 by {
        assert (m - {k}).Keys == m.Keys - {k};
      }
      Bag(m - {k})[k := m[k]]
  }

  /** The size of the bag is the count of any one key plus the size of the rest. */
  lemma BagCardinality<T(!new)>(m: map<T, int>, k: T)
    requires AllPositive(m) && k in m
    ensures |Bag(m)| == m[k] + |Bag(m - {k})|
  {
    var split := Bag(m - {k}) + Copies(k, m[k]);
    assert forall e :: Bag(m)[e] == split[e];
    assert Bag(m) == split;
  }

  /** The bag is empty exactly when the map has no entry. */
  lemma BagEmpty<T(!new)>(m: map<T, int>)
    requires AllPositive(m)
    ensures Bag(m) == multiset{} <==> m == map[]
  {
  }

  /** Under the invariant the bag determines the map: two maps stand for the
      same multiset exactly when they are equal. */
  lemma BagInjective<T(!new)>(m: map<T, int>, o: map<T, int>)
    requires AllPositive(m) && AllPositive(o)
    ensures Bag(m) == Bag(o) <==> m == o
  {
    if Bag(m) == Bag(o) {
      forall e | e in m ensures e in o && o[e] == m[e] {
        assert Bag(m)[e] == Bag(o)[e];
      }
      forall e | e in o ensures e in m {
        assert Bag(m)[e] == Bag(o)[e];
      }
      assert m.Keys == o.Keys;
    }
  }

  /** The map after `addCount(e, c)`: unchanged when `c <= 0`, otherwise the
      count of `e` (0 when absent) grows by `c`. */
  function Added<T(!new)>(m: map<T, int>, e: T, c: int): (r: map<T, int>)
    ensures AllPositive(m) ==> AllPositive(r)
    ensures CountOf(r, e) == CountOf(m, e) + (if c <= 0 then 0 else c)
    ensures forall x :: x != e ==> CountOf(r, x) == CountOf(m, x)
  {
    if c <= 0 then m else m[e := CountOf(m, e) + c]
  }

  /** The map after `removeCount(e, c)`: unchanged when `c <= 0` or `e` is
      absent; otherwise the count of `e` drops by `c`, and the entry is deleted
      once that is no longer positive. */
  function Removed<T(!new)>(m: map<T, int>, e: T, c: int): (r: map<T, int>)
    ensures AllPositive(m) ==> AllPositive(r)
    ensures r.Keys <= m.Keys
    ensures CountOf(r, e) == if c <= 0 then CountOf(m, e)
                             else if CountOf(m, e) - c > 0 then CountOf(m, e) - c
                             else 0
    ensures forall x :: x != e ==> CountOf(r, x) == CountOf(m, x)
  {
    if c <= 0 || e !in m then m
    else if m[e] - c > 0 then m[e := m[e] - c]
    else m - {e}
  }

  /** Adding `c > 0` occurrences adds `c` copies of `e` to the bag. */
  lemma AddedBag<T(!new)>(m: map<T, int>, e: T, c: int)
    requires AllPositive(m)
    ensures Bag(Added(m, e, c)) == Bag(m) + Copies(e, if c <= 0 then 0 else c)
  {
  }

  /** Removing `c > 0` occurrences takes up to `c` copies of `e` out of the bag. */
  lemma RemovedBag<T(!new)>(m: map<T, int>, e: T, c: int)
    requires AllPositive(m)
    ensures Bag(Removed(m, e, c)) == Bag(m) - Copies(e, if c <= 0 then 0 else c)
  {
  }

  /** The map after `Add(s...)` (and `New(l...)` from the empty map): one
      occurrence of each listed element is added, in list order. */
  function AddEach<T(!new)>(m: map<T, int>, s: seq<T>): (r: map<T, int>)
    ensures AllPositive(m) ==> AllPositive(r)
    decreases |s|
  {
    if s == [] then m else AddEach(Added(m, s[0], 1), s[1..])
  }

  /** Adding one occurrence per listed element is multiset sum. */
  lemma {:induction false} AddEachBag<T(!new)>(m: map<T, int>, s: seq<T>)
    requires AllPositive(m)
    ensures Bag(AddEach(m, s)) == Bag(m) + multiset(s)
    decreases |s|
  {
    if s != [] {
      var m' := Added(m, s[0], 1);
      AddEachBag(m', s[1..]);
      assert s == [s[0]] + s[1..];
      AddedBag(m, s[0], 1);
      CopiesOne(s[0]);
      assert multiset(s) == multiset{s[0]} + multiset(s[1..]);
      SumAssociative(Bag(m), multiset{s[0]}, multiset(s[1..]));
    }
  }

  /** The map after `Remove(s...)`: one occurrence of each listed element is
      removed, in list order. */
  function RemoveEach<T(!new)>(m: map<T, int>, s: seq<T>): (r: map<T, int>)
    ensures AllPositive(m) ==> AllPositive(r)
    decreases |s|
  {
    if s == [] then m else RemoveEach(Removed(m, s[0], 1), s[1..])
  }

  /** What `Remove(s...)` returns: whether the count of some listed element,
      just before its own removal step, was greater than 1. */
  function RemoveReport<T(!new)>(m: map<T, int>, s: seq<T>): bool
    decreases |s|
  {
    if s == [] then false
    else CountOf(m, s[0]) > 1 || RemoveReport(Removed(m, s[0], 1), s[1..])
  }

  /** Removing one occurrence per listed element is multiset difference. */
  lemma {:induction false} RemoveEachBag<T(!new)>(m: map<T, int>, s: seq<T>)
    requires AllPositive(m)
    ensures Bag(RemoveEach(m, s)) == Bag(m) - multiset(s)
    decreases |s|
  {
    if s != [] {
      var m' := Removed(m, s[0], 1);
      RemoveEachBag(m', s[1..]);
      RemovedBag(m, s[0], 1);
      CopiesOne(s[0]);
      assert s == [s[0]] + s[1..];
      assert multiset(s) == multiset{s[0]} + multiset(s[1..]);
      DifferenceOfSum(Bag(m), multiset{s[0]}, multiset(s[1..]));
    }
  }

  /** Multiset sum is associative. */
  lemma SumAssociative<T>(a: multiset<T>, b: multiset<T>, c: multiset<T>)
    ensures (a + b) + c == a + (b + c)
  {
  }

  /** Taking two multisets away one after the other takes away their sum. */
  lemma DifferenceOfSum<T>(a: multiset<T>, b: multiset<T>, c: multiset<T>)
    ensures (a - b) - c == a - (b + c)
  {
  }

  /** Closed form of `RemoveReport`: it holds exactly when some listed element
      had more than one occurrence before the whole call. */
  lemma {:induction false} RemoveReportMeaning<T(!new)>(m: map<T, int>, s: seq<T>)
    ensures RemoveReport(m, s) <==> exists e :: e in s && CountOf(m, e) > 1
    decreases |s|
  {
    if s != [] {
      var m' := Removed(m, s[0], 1);
      RemoveReportMeaning(m', s[1..]);
      if RemoveReport(m, s) {
        if CountOf(m, s[0]) <= 1 {
          var e :| e in s[1..] && CountOf(m', e) > 1;
          assert e in s && CountOf(m, e) > 1;
        } else {
          assert s[0] in s;
        }
      } else {
        forall e | e in s ensures CountOf(m, e) <= 1 {
          if e != s[0] {
            assert e in s[1..];
          }
        }
      }
    }
  }

  /** The return value of `Remove` is not "the multiset changed": removing the
      last occurrence of an element changes the map but is reported as false. */
  lemma RemoveReportIsNotChange<T(!new)>(e: T)
    ensures RemoveEach(map[e := 1], [e]) != map[e := 1]
    ensures !RemoveReport(map[e := 1], [e])
  {
  }

  /** Removing listed elements never raises a count. */
  lemma {:induction false} RemoveEachShrinks<T(!new)>(m: map<T, int>, s: seq<T>, x: T)
    requires AllPositive(m)
    ensures CountOf(RemoveEach(m, s), x) <= CountOf(m, x)
    decreases |s|
  {
    if s != [] {
      RemoveEachShrinks(Removed(m, s[0], 1), s[1..], x);
    }
  }

  /** `Remove(s...)` changes the map exactly when some listed element is
      present before the call. */
  lemma {:induction false} RemoveEachChanges<T(!new)>(m: map<T, int>, s: seq<T>)
    requires AllPositive(m)
    ensures RemoveEach(m, s) != m <==> exists e :: e in s && e in m
    decreases |s|
  {
    if s != [] {
      var m' := Removed(m, s[0], 1);
      if s[0] in m {
        RemoveEachShrinks(m', s[1..], s[0]);
        assert CountOf(RemoveEach(m, s), s[0]) < CountOf(m, s[0]);
        assert s[0] in s;
      } else {
        assert m' == m;
        RemoveEachChanges(m, s[1..]);
        assert forall e :: e in s && e in m ==> e in s[1..];
        assert forall e :: e in s[1..] ==> e in s;
      }
    }
  }

  /** The report the doc comment of `Remove` describes: whether some removal
      step found the element present (a count before the step above 0). */
  function RemoveChange<T(!new)>(m: map<T, int>, s: seq<T>): bool
    decreases |s|
  {
    if s == [] then false
    else CountOf(m, s[0]) > 0 || RemoveChange(Removed(m, s[0], 1), s[1..])
  }

  /** The corrected report holds exactly when some listed element is present
      before the call, which is exactly when the map changes. */
  lemma {:induction false} RemoveChangeMeaning<T(!new)>(m: map<T, int>, s: seq<T>)
    requires AllPositive(m)
    ensures RemoveChange(m, s) <==> exists e :: e in s && e in m
    ensures RemoveChange(m, s) <==> RemoveEach(m, s) != m
    decreases |s|
  {
    if s != [] {
      if s[0] !in m {
        assert Removed(m, s[0], 1) == m;
        RemoveChangeMeaning(m, s[1..]);
        assert forall e :: e in s && e in m ==> e in s[1..];
        assert forall e :: e in s[1..] ==> e in s;
      } else {
        assert s[0] in s;
      }
    }
    RemoveEachChanges(m, s);
  }

  /** The sum of the counts of the listed elements, each listing counted. */
  function SumCounts<T(!new)>(m: map<T, int>, ks: seq<T>): int
    decreases |ks|
  {
    if ks == [] then 0 else CountOf(m, ks[0]) + SumCounts(m, ks[1..])
  }

  /** A key the list does not mention does not contribute to its sum. */
  lemma {:induction false} SumCountsWithout<T(!new)>(m: map<T, int>, ks: seq<T>, k: T)
    requires k !in ks
    ensures SumCounts(m - {k}, ks) == SumCounts(m, ks)
    decreases |ks|
  {
    if ks != [] {
      assert k !in ks[1..];
      SumCountsWithout(m, ks[1..], k);
    }
  }

  /** The size of the bag is the sum of the counts over a list of its distinct
      elements, each listed once. */
  lemma {:induction false} SizeIsSumOverDistinct<T(!new)>(m: map<T, int>, ks: seq<T>)
    requires AllPositive(m)
    requires forall e :: multiset(ks)[e] == if e in m then 1 else 0
    ensures SumCounts(m, ks) == |Bag(m)|
    decreases |ks|
  {
    if ks == [] {
      assert forall e :: e !in m by {
        forall e ensures e !in m {
          assert multiset(ks)[e] == 0;
        }
      }
      assert m == map[];
      BagEmpty(m);
    } else {
      var k := ks[0];
      var rest := ks[1..];
      assert ks == [k] + rest;
      assert multiset(ks)[k] >= 1;
      assert k in m;
      var m' := m - {k};
      assert multiset(rest)[k] == 0;
      assert forall e :: multiset(rest)[e] == if e in m' then 1 else 0 by {
        forall e ensures multiset(rest)[e] == if e in m' then 1 else 0 {
          assert multiset(ks)[e] == multiset{k}[e] + multiset(rest)[e];
        }
      }
      SizeIsSumOverDistinct(m', rest);
      assert k !in rest;
      SumCountsWithout(m, rest, k);
      BagCardinality(m, k);
    }
  }

  // ---------------------------------------------------------------------
  // The multiset object
  // ---------------------------------------------------------------------

  /** A multiset whose one field maps each element to its positive count. */
  class Multiset<T(==, !new)> {
    var elems: map<T, int>

    /** The class invariant: no stored count is zero or negative. */
    ghost predicate Valid()
      reads this
    {
      AllPositive(elems)
    }

    /** The multiset this object stands for. */
    ghost function Contents(): multiset<T>
      reads this
      requires Valid()
    {
      Bag(elems)
    }

    /** `New(l...)`: an empty multiset to which one occurrence of each listed
        element is added, in list order. */
    constructor New(l: seq<T>)
      ensures Valid()
      ensures elems == AddEach(map[], l)
      ensures Contents() == multiset(l)
    {
      elems := map[];
      new;
      var i := 0;
      while i < |l|
        invariant 0 <= i <= |l|
        invariant Valid()
        invariant AddEach(elems, l[i..]) == AddEach(map[], l)
      {
        assert l[i..][1..] == l[i + 1..];
        var before := AddCount(l[i], 1);
        i := i + 1;
      }
      assert elems == AddEach(map[], l);
      var empty: map<T, int> := map[];
      AddEachBag(empty, l);
      BagEmpty(empty);
    }

    /** `Add(s...)`: one more occurrence of each listed element. */
    method Add(s: seq<T>)
      requires Valid()
      modifies this
      ensures Valid()
      ensures elems == AddEach(old(elems), s)
      ensures Contents() == old(Contents()) + multiset(s)
    {
      var i := 0;
      while i < |s|
        invariant 0 <= i <= |s|
        invariant Valid()
        invariant AddEach(elems, s[i..]) == AddEach(old(elems), s)
      {
        assert s[i..][1..] == s[i + 1..];
        var before := AddCount(s[i], 1);
        i := i + 1;
      }
      assert elems == AddEach(old(elems), s);
      AddEachBag(old(elems), s);
    }

    /** `AddCount(e, c)`: returns the count of `e` before the call; adds `c`
        occurrences when `c > 0` and otherwise changes nothing. */
    method AddCount(e: T, c: int) returns (count: int)
      requires Valid()
      modifies this
      ensures Valid()
      ensures count == old(Count(e))
      ensures elems == Added(old(elems), e, c)
      ensures c <= 0 ==> elems == old(elems)
      ensures c > 0 ==> Count(e) == old(Count(e)) + c
      ensures forall x :: x != e ==> Count(x) == old(Count(x))
      ensures Contents() == old(Contents()) + Copies(e, if c <= 0 then 0 else c)
    {
      count := CountOf(elems, e);
      if c > 0 {
        elems := elems[e := count + c];
      }
      assert elems == Added(old(elems), e, c);
      AddedBag(old(elems), e, c);
    }

    /** `Contains(s...)`: every listed element has at least one occurrence
        (true for an empty list). */
    method Contains(s: seq<T>) returns (b: bool)
      requires Valid()
      ensures b <==> forall e :: e in s ==> Count(e) > 0
      ensures b <==> forall e :: e in s ==> e in Contents()
    {
      var i := 0;
      while i < |s|
        invariant 0 <= i <= |s|
        invariant forall j :: 0 <= j < i ==> Count(s[j]) > 0
      {
        if Count(s[i]) <= 0 {
          return false;
        }
        i := i + 1;
      }
      return true;
    }

    /** `Equals(o)`: the same number of distinct elements, and every element
        of this multiset occurs in `o` with the same count. Under the class
        invariant that is equality of the maps and of the multisets. */
    method Equals(o: Multiset<T>) returns (b: bool)
      requires Valid() && o.Valid()
      ensures b <==> elems == o.elems
      ensures b <==> Contents() == o.Contents()
    {
      if |elems| != |o.elems| {
        BagInjective(elems, o.elems);
        return false;
      }
      var rest := elems;
      while rest != map[]
        invariant forall k :: k in rest ==> k in elems && rest[k] == elems[k]
        invariant forall k :: k in elems && k !in rest ==> k in o.elems && o.elems[k] == elems[k]
        decreases |rest|
      {
        var k :| k in rest;
        var count := rest[k];
        var present := o.Contains([k]);
        var other := o.Count(k);
        if !present || other != count {
          assert k in elems;
          BagInjective(elems, o.elems);
          return false;
        }
        assert (rest - {k}).Keys == rest.Keys - {k};
        rest := rest - {k};
      }
      SameSizeSubsetIsEqual(elems.Keys, o.elems.Keys);
      assert elems == o.elems;
      BagInjective(elems, o.elems);
      return true;
    }

    /** `Count(e)`: the number of occurrences of `e`, 0 when absent. */
    function Count(e: T): (c: int)
      reads this
      requires Valid()
      ensures c >= 0
      ensures c == Contents()[e]
      ensures c > 0 <==> e in elems
    {
      CountOf(elems, e)
    }

    /** The helper `count(s...)`: the sum of the counts of the listed
        elements, each listing counted. */
    method CountAll(s: seq<T>) returns (total: int)
      requires Valid()
      ensures total == SumCounts(elems, s)
      ensures |s| == 1 ==> total == Count(s[0])
    {
      total := 0;
      var i := 0;
      while i < |s|
        invariant 0 <= i <= |s|
        invariant total + SumCounts(elems, s[i..]) == SumCounts(elems, s)
      {
        assert s[i..][1..] == s[i + 1..];
        if s[i] in elems {
          total := total + elems[s[i]];
        }
        i := i + 1;
      }
    }

    /** `Clear()`: the multiset becomes empty. */
    method Clear()
      modifies this
      ensures Valid()
      ensures elems == map[]
      ensures Contents() == multiset{}
    {
      elems := map[];
    }

    /** `IsEmpty()`: the total number of occurrences is zero. */
    method IsEmpty() returns (b: bool)
      requires Valid()
      ensures b <==> Contents() == multiset{}
      ensures b <==> elems == map[]
    {
      var size := Size();
      BagEmpty(elems);
      b := size == 0;
    }

    /** `Size()`: the total number of occurrences, the sum of all counts. */
    method Size() returns (total: int)
      requires Valid()
      ensures total == |Contents()|
    {
      total := 0;
      var rest := elems;
      while rest != map[]
        invariant AllPositive(rest)
        invariant total + |Bag(rest)| == |Bag(elems)|
        decreases |rest|
      {
        var k :| k in rest;
        BagCardinality(rest, k);
        total := total + rest[k];
        assert (rest - {k}).Keys == rest.Keys - {k};
        rest := rest - {k};
      }
      BagEmpty(rest);
    }

    /** `Remove(s...)`: one occurrence of each listed element is removed, in
        list order; the result says whether, for some listed element, the count
        just before its own removal step was greater than 1. */
    method Remove(s: seq<T>) returns (changed: bool)
      requires Valid()
      modifies this
      ensures Valid()
      ensures elems == RemoveEach(old(elems), s)
      ensures changed == RemoveReport(old(elems), s)
      ensures changed <==> exists e :: e in s && old(Count(e)) > 1
      ensures Contents() == old(Contents()) - multiset(s)
      ensures elems != old(elems) <==> exists e :: e in s && old(Count(e)) > 0
      ensures changed ==> elems != old(elems)
    {
      changed := false;
      var i := 0;
      while i < |s|
        invariant 0 <= i <= |s|
        invariant Valid()
        invariant RemoveEach(elems, s[i..]) == RemoveEach(old(elems), s)
        invariant (changed || RemoveReport(elems, s[i..])) == RemoveReport(old(elems), s)
      {
        assert s[i..][1..] == s[i + 1..];
        var count := RemoveCount(s[i], 1);
        if count > 1 {
          changed := true;
        }
        i := i + 1;
      }
      assert elems == RemoveEach(old(elems), s);
      RemoveEachBag(old(elems), s);
      RemoveReportMeaning(old(elems), s);
      RemoveEachChanges(old(elems), s);
    }

    /** `RemoveCount(e, c)`: returns the count of `e` before the call; when
        `c > 0` and `e` is present its count drops by `c`, and `e` is deleted
        once nothing positive is left; otherwise nothing changes. */
    method RemoveCount(e: T, c: int) returns (count: int)
      requires Valid()
      modifies this
      ensures Valid()
      ensures count == old(Count(e))
      ensures elems == Removed(old(elems), e, c)
      ensures c <= 0 || e !in old(elems) ==> elems == old(elems)
      ensures c > 0 && old(Count(e)) > c ==> Count(e) == old(Count(e)) - c
      ensures c > 0 && old(Count(e)) <= c ==> e !in elems
      ensures forall x :: x != e ==> Count(x) == old(Count(x))
      ensures Contents() == old(Contents()) - Copies(e, if c <= 0 then 0 else c)
    {
      count := CountOf(elems, e);
      if c > 0 && e in elems {
        elems := elems[e := elems[e] - c];
        if elems[e] <= 0 {
          elems := elems - {e};
        }
      }
      assert elems == Removed(old(elems), e, c);
      RemovedBag(old(elems), e, c);
    }

    /** `DistinctElements()`: every element present, each listed once. */
    method DistinctElements() returns (slice: seq<T>)
      requires Valid()
      ensures forall e :: multiset(slice)[e] == if e in Contents() then 1 else 0
      ensures |slice| == |elems|
    {
      slice := [];
      var rest := elems;
      while rest != map[]
        invariant forall k :: k in rest ==> k in elems
        invariant forall e :: multiset(slice)[e] == if e in elems && e !in rest then 1 else 0
        invariant |slice| + |rest| == |elems|
        decreases |rest|
      {
        var k :| k in rest;
        slice := slice + [k];
        assert (rest - {k}).Keys == rest.Keys - {k};
        rest := rest - {k};
      }
    }

    /** `ToSlice()`: every element, listed as many times as it occurs. */
    method ToSlice() returns (slice: seq<T>)
      requires Valid()
      ensures multiset(slice) == Contents()
      ensures |slice| == |Contents()|
    {
      slice := [];
      var rest := elems;
      while rest != map[]
        invariant forall k :: k in rest ==> k in elems && rest[k] == elems[k]
        invariant forall e :: multiset(slice)[e] == if e in elems && e !in rest then elems[e] else 0
        decreases |rest|
      {
        var k :| k in rest;
        var count := rest[k];
        var i := 0;
        while i < count
          invariant 0 <= i <= count
          invariant forall e :: multiset(slice)[e] == (if e in elems && e !in rest then elems[e] else 0) + (if e == k then i else 0)
        {
          slice := slice + [k];
          i := i + 1;
        }
        assert (rest - {k}).Keys == rest.Keys - {k};
        rest := rest - {k};
      }
      assert forall e :: multiset(slice)[e] == Contents()[e];
    }
  }

  /** A subset as large as its superset is the whole superset. */
  lemma SameSizeSubsetIsEqual<T>(a: set<T>, b: set<T>)
    requires a <= b && |a| == |b|
    ensures a == b
  {
    if !(b <= a) {
      var x :| x in b && x !in a;
      SubsetCardinality(a, b - {x});
      assert false;
    }
  }

  /** A subset is no larger than its superset. */
  lemma {:induction false} SubsetCardinality<T>(a: set<T>, b: set<T>)
    requires a <= b
    ensures |a| <= |b|
    decreases |b|
  {
    if a != {} {
      var x :| x in a;
      SubsetCardinality(a - {x}, b - {x});
    }
  }
}
