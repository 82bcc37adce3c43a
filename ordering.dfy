/** Ordering of vertex labels: the least element of a set (getMinimum in
    Graph.java) and a set listed in ascending order (the iteration order of
    a TreeSet). Labels are integers under their usual order. */
module Ordering {

  import opened Wrappers
  import opened Collections

  /** Each element is smaller than the next. */
  predicate StrictlyAscending(s: seq<int>)
  {
    forall i, j :: 0 <= i < j < |s| ==> s[i] < s[j]
  }

  /** Every non-empty finite set of integers has a least element. */
  lemma {:induction false} LeastExists(s: set<int>)
    requires s != {}
    ensures exists m :: m in s && forall x :: x in s ==> m <= x
    decreases |s|
  {
    var y := Pick(s);
    var rest := s - {y};
    var least := y;
    if rest != {} {
      LeastExists(rest);
      var m :| m in rest && forall x :: x in rest ==> m <= x;
      if m < y {
        least := m;
      }
    }
    forall x | x in s ensures least <= x {
      if x != y {
        assert x in rest;
      }
    }
    assert least in s;
  }

  /** The least element of a non-empty set. */
  ghost function Min(s: set<int>): (m: int)
    requires s != {}
    ensures m in s && forall x :: x in s ==> m <= x
  {
    LeastExists(s);
    var m :| m in s && forall x :: x in s ==> m <= x; m
  }

  /** The elements of `s` in ascending order. */
  ghost function Sorted(s: set<int>): (r: seq<int>)
    ensures forall x :: x in r <==> x in s
    ensures StrictlyAscending(r)
    decreases |s|
  {
    if s == {} then []
    else
      var m := Min(s);
      var rest := Sorted(s - {m});
      assert forall i :: 0 <= i < |rest| ==> m < rest[i] by {
        forall i | 0 <= i < |rest| ensures m < rest[i] {
          assert rest[i] in rest;
        }
      }
      [m] + rest
  }

  /** The sorted listing starts with the least element. */
  lemma SortedStep(s: set<int>, m: int)
    requires s != {} && m == Min(s)
    ensures Sorted(s) == [m] + Sorted(s - {m})
  {
  }

  /** A strictly ascending sequence is determined by its elements. */
  lemma {:induction false} SortedUnique(s: set<int>, r: seq<int>)
    requires StrictlyAscending(r)
    requires forall x :: x in r <==> x in s
    ensures r == Sorted(s)
    decreases |r|
  {
    if r == [] {
      assert forall x :: x in s <==> x in {};
    } else {
      var m, rest := r[0], r[1..];
      assert r == [m] + rest;
      assert m in r;
      forall x | x in s ensures m <= x {
        var k :| 0 <= k < |r| && r[k] == x;
      }
      assert Min(s) == m;
      forall x ensures x in rest <==> x in s - {m} {
        if x in rest {
          var k :| 0 <= k < |rest| && rest[k] == x;
          assert r[k + 1] == x;
        }
      }
      assert forall x :: x in rest <==> x in s - {m};
      SortedUnique(s - {m}, rest);
      SortedStep(s, m);
    }
  }

  /** A strictly ascending sequence has no duplicates. */
  lemma AscendingNoDuplicates(s: seq<int>)
    requires StrictlyAscending(s)
    ensures NoDuplicates(s)
  {
  }

  /** getMinimum: the least element of the set, or None (the Java null) when
      the set is empty. Each element is compared with the current minimum. */
  method GetMinimum(numbers: set<int>) returns (r: Option<int>)
    ensures r == None <==> numbers == {}
    ensures r.Some? ==> r.value in numbers && forall x :: x in numbers ==> r.value <= x
    ensures r.Some? ==> r.value == Min(numbers)
  {
    r := None;
    var rest := numbers;
    while rest != {}
      invariant rest <= numbers
      invariant r == None <==> rest == numbers
      invariant r.Some? ==> r.value in numbers
      invariant r.Some? ==> forall x :: x in numbers && x !in rest ==> r.value <= x
      decreases |rest|
    {
      ghost var next := Pick(rest);
      var number :| number in rest;
      if r == None || number < r.value {
        r := Some(number);
      }
      rest := rest - {number};
    }
  }

  /** One step of listing a set in ascending order: the least remaining
      element moves from the rest to the listed prefix. */
  lemma TakeLeast(s: set<int>, r: seq<int>, rest: set<int>)
    requires rest != {} && r + Sorted(rest) == Sorted(s)
    ensures (r + [Min(rest)]) + Sorted(rest - {Min(rest)}) == Sorted(s)
  {
    SortedStep(rest, Min(rest));
    AppendAssociative(r, [Min(rest)], Sorted(rest - {Min(rest)}));
  }

  /** The iteration order of a TreeSet built from `s`: repeatedly take the
      least remaining element. */
  method SortedElements(s: set<int>) returns (r: seq<int>)
    ensures r == Sorted(s)
  {
    r := [];
    var rest := s;
    while rest != {}
      invariant rest <= s
      invariant r + Sorted(rest) == Sorted(s)
      decreases |rest|
    {
      var m := GetMinimum(rest);
      TakeLeast(s, r, rest);
      r := r + [m.value];
      rest := rest - {m.value};
    }
  }
}
