/**
 * Sequence facts the vocabulary index rests on: the distinct elements of a
 * sequence in order of first occurrence (the order in which an index hands
 * out its integers), the position of a first occurrence, the elements of one
 * sequence that occur in another, and the longest sequence of a batch.
 */
module Seqs {

  /** No element of `s` occurs twice. */
  predicate NoDuplicates<T(==)>(s: seq<T>) {
    forall i, j :: 0 <= i < j < |s| ==> s[i] != s[j]
  }

  /**
   * The distinct elements of `s`, each at its first occurrence: `s` is read
   * left to right and an element is appended when it has not been seen.
   */
  function Distinct<T(==)>(s: seq<T>): (d: seq<T>)
    ensures |d| <= |s|
  {
    if s == [] then []
    else
      var d := Distinct(s[..|s| - 1]);
      if s[|s| - 1] in d then d else d + [s[|s| - 1]]
  }

  /** Distinct keeps exactly the elements of its input. */
  lemma {:induction false} DistinctElements<T>(s: seq<T>)
    ensures forall x :: x in Distinct(s) <==> x in s
  {
    if s != [] {
      var p := s[..|s| - 1];
      DistinctElements(p);
      assert s == p + [s[|s| - 1]];
    }
  }

  /** Distinct drops every repetition. */
  lemma {:induction false} DistinctNoDuplicates<T>(s: seq<T>)
    ensures NoDuplicates(Distinct(s))
  {
    if s != [] {
      DistinctNoDuplicates(s[..|s| - 1]);
    }
  }

  /** The length of Distinct(s) is the number of different elements of `s`. */
  lemma {:induction false} DistinctCount<T>(s: seq<T>)
    ensures |Distinct(s)| == |set x | x in s|
  {
    if s != [] {
      var p, y := s[..|s| - 1], s[|s| - 1];
      DistinctCount(p);
      DistinctElements(p);
      assert s == p + [y];
      assert (set x | x in s) == (set x | x in p) + {y};
      if y !in p {
        assert y !in (set x | x in p);
      }
    }
  }

  /** Reading more input only appends to Distinct: what it gave for a prefix stays a prefix. */
  lemma {:induction false} DistinctOfPrefix<T>(s: seq<T>, n: nat)
    requires n <= |s|
    ensures Distinct(s[..n]) <= Distinct(s)
  {
    if n < |s| {
      DistinctOfPrefix(s[..|s| - 1], n);
      assert s[..|s| - 1][..n] == s[..n];
    } else {
      assert s[..n] == s;
    }
  }

  /** The position of the first occurrence of `x` in `s`. */
  function FirstIndex<T(==)>(s: seq<T>, x: T): (k: nat)
    requires x in s
    ensures k < |s| && s[k] == x && x !in s[..k]
  {
    if s[0] == x then 0
    else
      var k := FirstIndex(s[1..], x);
      assert s[..k + 1] == [s[0]] + s[1..][..k];
      k + 1
  }

  /** Any position holding `x` with no `x` before it is the first occurrence. */
  lemma FirstIndexUnique<T>(s: seq<T>, x: T, k: nat)
    requires k < |s| && s[k] == x && x !in s[..k]
    ensures FirstIndex(s, x) == k
  {
  }

  /**
   * Distinct lists its elements in strictly increasing order of their first
   * occurrence in `s`. With DistinctElements and DistinctNoDuplicates this
   * determines Distinct(s) completely.
   */
  lemma {:induction false} DistinctInFirstOccurrenceOrder<T>(s: seq<T>, i: nat, j: nat)
    requires i < j < |Distinct(s)|
    ensures Distinct(s)[i] in s && Distinct(s)[j] in s
    ensures FirstIndex(s, Distinct(s)[i]) < FirstIndex(s, Distinct(s)[j])
  {
    var n := |s|;
    var p, y := s[..n - 1], s[n - 1];
    var d', d := Distinct(p), Distinct(s);
    DistinctElements(p);
    assert d == d' || d == d' + [y];
    assert d[i] == d'[i] && d'[i] in d';
    FirstIndexUnique(s, d[i], FirstIndex(p, d[i]));
    if j < |d'| {
      assert d[j] == d'[j];
      DistinctInFirstOccurrenceOrder(p, i, j);
      FirstIndexUnique(s, d[j], FirstIndex(p, d[j]));
    } else {
      assert d[j] == y && y !in p;
      FirstIndexUnique(s, y, n - 1);
    }
  }

  /** The elements of `d` that also occur in `s`, in the order they have in `d`. */
  function Retain<T(==)>(d: seq<T>, s: seq<T>): (r: seq<T>)
    ensures |r| <= |d|
  {
    if d == [] then []
    else
      var r := Retain(d[..|d| - 1], s);
      if d[|d| - 1] in s then r + [d[|d| - 1]] else r
  }

  /** Retain keeps exactly the elements common to both sequences. */
  lemma {:induction false} RetainElements<T>(d: seq<T>, s: seq<T>)
    ensures forall x :: x in Retain(d, s) <==> x in d && x in s
  {
    if d != [] {
      var p := d[..|d| - 1];
      RetainElements(p, s);
      assert d == p + [d[|d| - 1]];
    }
  }

  /** Retain keeps the whole of `d` when every element of `d` occurs in `s`. */
  lemma {:induction false} RetainAll<T>(d: seq<T>, s: seq<T>)
    requires forall x :: x in d ==> x in s
    ensures Retain(d, s) == d
  {
    if d != [] {
      var p := d[..|d| - 1];
      assert forall x :: x in p ==> x in d;
      RetainAll(p, s);
      assert d == p + [d[|d| - 1]];
    }
  }

  /** The run of integers [lo, lo + n). */
  function Run(lo: int, n: nat): (r: set<int>)
    ensures forall k :: k in r <==> lo <= k < lo + n
    ensures |r| == n
  {
    if n == 0 then {} else Run(lo, n - 1) + {lo + n - 1}
  }

  /** The length of the longest sequence of a non-empty batch. */
  function MaxLength<T>(seqs: seq<seq<T>>): (n: nat)
    requires |seqs| > 0
    ensures forall i :: 0 <= i < |seqs| ==> |seqs[i]| <= n
    ensures exists i :: 0 <= i < |seqs| && |seqs[i]| == n
  {
    if |seqs| == 1 then |seqs[0]|
    else
      var m := MaxLength(seqs[1..]);
      assert forall i :: 1 <= i < |seqs| ==> seqs[i] == seqs[1..][i - 1];
      if |seqs[0]| >= m then |seqs[0]| else m
  }
}
