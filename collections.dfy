/** Set and sequence facts shared by the rest of the model. */
module Collections {

  /** The elements of a sequence, as a set. */
  function Elements<T>(s: seq<T>): set<T>
  {
    set x | x in s
  }

  /** No element occurs twice. */
  predicate NoDuplicates<T(==)>(s: seq<T>)
  {
    forall i, j :: 0 <= i < j < |s| ==> s[i] != s[j]
  }

  /** A non-empty set has an element to pick: the witness that lets a loop
      over a set take its next element with `:|`. */
  lemma Pick<T>(s: set<T>) returns (y: T)
    requires s != {}
    ensures y in s
  {
    if forall x :: x !in s {
      assert false;
    }
    y :| y in s;
  }

  /** A subset is no larger than its superset. */
  lemma SubsetSize<T>(a: set<T>, b: set<T>)
    requires a <= b
    ensures |a| <= |b|
  {
    assert forall x :: x in b <==> x in a + (b - a);
    assert b == a + (b - a);
    assert forall x :: x in a * (b - a) <==> x in {};
    assert a * (b - a) == {};
  }

  /** Two duplicate-free sequences with no element in common concatenate
      to a duplicate-free sequence. */
  lemma NoDuplicatesAppend<T>(a: seq<T>, b: seq<T>)
    requires NoDuplicates(a) && NoDuplicates(b)
    requires forall x :: x in a ==> x !in b
    ensures NoDuplicates(a + b)
  {
    forall i, j | 0 <= i < j < |a + b| ensures (a + b)[i] != (a + b)[j] {
      if i < |a| && j >= |a| {
        assert (a + b)[i] in a && (a + b)[j] == b[j - |a|];
      }
    }
  }

  /** A prefix extended by the next element is the next prefix. */
  lemma PrefixSnoc<T>(s: seq<T>, i: nat)
    requires i < |s|
    ensures s[..i] + [s[i]] == s[..i + 1]
  {
  }

  /** Concatenation regroups freely; stated as a lemma so that a call site
      names the regrouping it relies on. */
  lemma AppendAssociative<T>(a: seq<T>, b: seq<T>, c: seq<T>)
    ensures a + b + c == a + (b + c)
  {
  }
}
