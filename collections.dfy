/** Counting facts about finite sequences and sets used by the orbit proofs. */
module Collections {

  /** No element occurs twice in `s`. */
  predicate Distinct<T(==)>(s: seq<T>) {
    forall i, j :: 0 <= i < j < |s| ==> s[i] != s[j]
  }

  /** The set of the elements of `s`. */
  function Elements<T(==,!new)>(s: seq<T>): (r: set<T>)
    ensures forall x :: x in r <==> x in s
  {
    set x | x in s
  }

  /** A sequence without repetitions has as many elements as its set. */
  lemma {:induction false} DistinctCard<T(!new)>(s: seq<T>)
    requires Distinct(s)
    ensures |Elements(s)| == |s|
  {
    if s != [] {
      var init := s[..|s| - 1];
      var last := s[|s| - 1];
      assert Distinct(init);
      DistinctCard(init);
      assert s == init + [last];
      assert last !in init;
      assert Elements(s) == Elements(init) + {last};
    }
  }

  /** A sequence drawn from a set smaller than it repeats an element. */
  lemma Pigeonhole<T(!new)>(s: seq<T>, universe: set<T>)
    requires forall i :: 0 <= i < |s| ==> s[i] in universe
    requires |s| > |universe|
    ensures exists i, j :: 0 <= i < j < |s| && s[i] == s[j]
  {
    if forall i, j :: 0 <= i < j < |s| ==> s[i] != s[j] {
      DistinctCard(s);
      SubsetCard(Elements(s), universe);
    }
  }

  /** Two lists without repetitions and with no element in common concatenate to a list
      without repetitions. */
  lemma DistinctConcat<T>(a: seq<T>, b: seq<T>)
    requires Distinct(a) && Distinct(b)
    requires forall x :: x in a ==> x !in b
    ensures Distinct(a + b)
  {
    forall i, j | 0 <= i < j < |a + b| ensures (a + b)[i] != (a + b)[j] {
      if i < |a| <= j {
        assert (a + b)[i] == a[i] && a[i] in a;
        assert (a + b)[j] == b[j - |a|] && b[j - |a|] in b;
      }
    }
  }

  /** Appending a new element to a list without repetitions keeps it without repetitions. */
  lemma DistinctAppend<T>(s: seq<T>, x: T)
    requires Distinct(s) && x !in s
    ensures Distinct(s + [x])
  {
    DistinctConcat(s, [x]);
  }

  /** A subset is no larger than its superset. */
  lemma SubsetCard<T>(a: set<T>, b: set<T>)
    requires a <= b
    ensures |a| <= |b|
  {
    assert b == a + (b - a);
  }

  /** A set of one element has no two different members. */
  lemma SingletonMembers<T>(s: set<T>, a: T, b: T)
    requires |s| == 1 && a in s && b in s
    ensures a == b
  {
    if a != b {
      SubsetCard({a, b}, s);
    }
  }

  /** Taking out an element together with a part that holds it is taking out the part,
      and it leaves fewer elements. */
  lemma RemoveWithPart<T>(s: set<T>, x: T, part: set<T>)
    requires x in s && x in part
    ensures s - {x} - part == s - part
    ensures |s - part| < |s|
  {
    assert s - part <= s - {x};
    SubsetCard(s - part, s - {x});
  }

  /** Taking `part` out of what remains adds it to what is done, and it was not done yet. */
  lemma MoveToDone<T>(all: set<T>, remaining: set<T>, part: set<T>)
    requires part <= remaining <= all
    ensures all - (remaining - part) == (all - remaining) + part
    ensures (all - remaining) * part == {}
  {
  }

  /** A subset as large as its superset is the superset. */
  lemma SubsetOfSameSize<T>(a: set<T>, b: set<T>)
    requires a <= b && |a| == |b|
    ensures a == b
  {
    assert b == a + (b - a);
    assert |b - a| == 0;
  }

  /** The natural numbers below `bound`. */
  function Below(bound: nat): (r: set<nat>)
    ensures forall x: nat :: x in r <==> x < bound
    ensures |r| == bound
  {
    if bound == 0 then {} else Below(bound - 1) + {bound - 1}
  }
}
