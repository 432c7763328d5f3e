/**
 * A two-way mapping between a vocabulary of objects and a contiguous run of
 * integers starting at `start`, with the conversions it supports between
 * object sequences, index vectors padded into matrices, and one-hot vectors.
 */
module Nn {
  import opened Seqs

  /** The rows of a two-dimensional array, each as a sequence. */
  function Rows(m: array2<int>): (r: seq<seq<int>>)
    reads m
    ensures |r| == m.Length0
    ensures forall i, j :: 0 <= i < m.Length0 && 0 <= j < m.Length1 ==> |r[i]| == m.Length1 && r[i][j] == m[i, j]
  {
    seq(m.Length0, i reads m => seq(m.Length1, j reads m => if 0 <= i < m.Length0 && 0 <= j < m.Length1 then m[i, j] else 0))
  }

  /**
   * The index of a vocabulary. Nothing changes after construction, so every
   * field is a constant; `vocab` is the construction input, kept for the
   * specification only.
   */
  class Index<T(==)> {
    const start: int
    const objectToIndex: map<T, int>
    const indexToObject: map<int, T>
    const vocabSize: nat
    const notInIndex: int
    ghost const vocab: seq<T>

    /**
     * The k-th distinct vocabulary item, in order of first occurrence, has
     * index start + k in both directions; the forward map knows exactly the
     * vocabulary items, the inverse map exactly the run [start, start + vocabSize).
     */
    ghost predicate Valid() {
      var d := Distinct(vocab);
      && vocabSize == |d|
      && notInIndex == start - 1
      && (forall x :: x in objectToIndex ==> x in vocab)
      && (forall x :: x in vocab ==> x in objectToIndex)
      && (forall k :: k in indexToObject <==> start <= k < start + vocabSize)
      && (forall k :: 0 <= k < |d| ==>
            && d[k] in objectToIndex && objectToIndex[d[k]] == start + k
            && start + k in indexToObject && indexToObject[start + k] == d[k])
    }

    /** Walks `vocab` once, giving each object seen for the first time the next integer. */
    constructor (vocab: seq<T>, start: int := 0)
      ensures Valid()
      ensures this.vocab == vocab && this.start == start
    {
      var o2i: map<T, int> := map[];
      var i2o: map<int, T> := map[];
      var idx := start;
      for i := 0 to |vocab|
        invariant idx == start + |Distinct(vocab[..i])|
        invariant forall x :: x in o2i <==> x in vocab[..i]
        invariant forall k :: k in i2o <==> start <= k < idx
        invariant forall k :: 0 <= k < |Distinct(vocab[..i])| ==>
                    && Distinct(vocab[..i])[k] in o2i && o2i[Distinct(vocab[..i])[k]] == start + k
                    && start + k in i2o && i2o[start + k] == Distinct(vocab[..i])[k]
      {
        var obj := vocab[i];
        ghost var d := Distinct(vocab[..i]);
        assert vocab[..i + 1][..i] == vocab[..i];
        assert vocab[..i + 1] == vocab[..i] + [obj];
        DistinctElements(vocab[..i]);
        DistinctNoDuplicates(vocab[..i]);
        if obj !in o2i {
          o2i := o2i[obj := idx];
          i2o := i2o[idx := obj];
          idx := idx + 1;
        }
      }
      assert vocab[..|vocab|] == vocab;
      this.start := start;
      objectToIndex := o2i;
      indexToObject := i2o;
      vocabSize := idx - start;
      notInIndex := start - 1;
      this.vocab := vocab;
    }

    /** The index of `x`, or the sentinel when `x` is not in the vocabulary. */
    function IndexOf(x: T): (k: int) {
      if x in objectToIndex then objectToIndex[x] else notInIndex
    }

    /** Encodes each object of `s` by its index, the sentinel standing for unknown objects. */
    function ObjectsToIndexes(s: seq<T>): (r: seq<int>)
      ensures |r| == |s|
    {
      seq(|s|, j requires 0 <= j < |s| => IndexOf(s[j]))
    }

    /** The index matrix of a non-empty batch: each row encoded, then right-padded with the sentinel. */
    function IndexMatrix(seqs: seq<seq<T>>): (m: seq<seq<int>>)
      requires |seqs| > 0
      ensures |m| == |seqs|
      ensures forall i :: 0 <= i < |seqs| ==>
                && |m[i]| == MaxLength(seqs)
                && m[i][..|seqs[i]|] == ObjectsToIndexes(seqs[i])
                && (forall j :: |seqs[i]| <= j < |m[i]| ==> m[i][j] == notInIndex)
    {
      var w := MaxLength(seqs);
      seq(|seqs|, i requires 0 <= i < |seqs| => ObjectsToIndexes(seqs[i]) + seq(w - |seqs[i]|, _ => notInIndex))
    }

    /** Fills a |seqs| × MaxLength(seqs) matrix with the sentinel, then overwrites each row's prefix. */
    method ObjectsToIndexMatrix(seqs: seq<seq<T>>) returns (m: array2<int>)
      requires |seqs| > 0
      ensures fresh(m)
      ensures m.Length0 == |seqs| && m.Length1 == MaxLength(seqs)
      ensures forall i, j :: 0 <= i < |seqs| && 0 <= j < m.Length1 ==>
                m[i, j] == if j < |seqs[i]| then ObjectsToIndexes(seqs[i])[j] else notInIndex
      ensures Rows(m) == IndexMatrix(seqs)
    {
      var w := MaxLength(seqs);
      m := new int[|seqs|, w]((_, _) => notInIndex);
      for i := 0 to |seqs|
        invariant forall r, c :: 0 <= r < |seqs| && 0 <= c < w ==>
                    m[r, c] == if r < i && c < |seqs[r]| then ObjectsToIndexes(seqs[r])[c] else notInIndex
      {
        var indexes := ObjectsToIndexes(seqs[i]);
        forall c | 0 <= c < |indexes| {
          m[i, c] := indexes[c];
        }
      }
      ghost var im := IndexMatrix(seqs);
      assert forall i :: 0 <= i < |seqs| ==> Rows(m)[i] == im[i];
    }

    /** Whether some object of `s` is in the vocabulary with index `p`. */
    predicate Marked(s: seq<T>, p: int) {
      exists x :: x in s && x in objectToIndex && objectToIndex[x] == p
    }

    /** The one-hot vector of `s`: width vocabSize + start, a 1 at each marked position. */
    function BinaryVector(s: seq<T>): (v: seq<int>)
      requires start >= 0
      ensures |v| == vocabSize + start
    {
      seq(vocabSize + start, p => if Marked(s, p) then 1 else 0)
    }

    /** The one-hot matrix of a batch, one BinaryVector per row. */
    function BinaryMatrix(seqs: seq<seq<T>>): (m: seq<seq<int>>)
      requires start >= 0
      ensures |m| == |seqs|
      ensures forall i :: 0 <= i < |seqs| ==> |m[i]| == vocabSize + start
    {
      seq(|seqs|, i requires 0 <= i < |seqs| => BinaryVector(seqs[i]))
    }

    /** Zero-fills a vector and sets a 1 at the index of every known object of `s`. */
    method ObjectsToBinaryVector(s: seq<T>) returns (v: array<int>)
      requires Valid() && start >= 0
      ensures fresh(v)
      ensures v[..] == BinaryVector(s)
    {
      v := new int[vocabSize + start](_ => 0);
      for i := 0 to |s|
        invariant v[..] == BinaryVector(s[..i])
      {
        var obj := s[i];
        assert s[..i + 1] == s[..i] + [obj];
        if obj in objectToIndex {
          var idx := objectToIndex[obj];
          KnownIndexInRange(this, obj);
          v[idx] := 1;
        }
        ghost var b := BinaryVector(s[..i + 1]);
        assert forall p :: 0 <= p < v.Length ==> v[p] == b[p];
      }
      assert s[..|s|] == s;
    }

    /** Zero-fills a |seqs| × (vocabSize + start) matrix and assigns each row its one-hot vector. */
    method ObjectsToBinaryMatrix(seqs: seq<seq<T>>) returns (m: array2<int>)
      requires Valid() && start >= 0
      ensures fresh(m)
      ensures m.Length0 == |seqs| && m.Length1 == vocabSize + start
      ensures Rows(m) == BinaryMatrix(seqs)
    {
      var w := vocabSize + start;
      m := new int[|seqs|, w]((_, _) => 0);
      for i := 0 to |seqs|
        invariant forall r, c :: 0 <= r < |seqs| && 0 <= c < w ==>
                    m[r, c] == if r < i then BinaryVector(seqs[r])[c] else 0
      {
        var row := ObjectsToBinaryVector(seqs[i]);
        assert forall c :: 0 <= c < w ==> row[c] == row[..][c];
        forall c | 0 <= c < w {
          m[i, c] := row[c];
        }
      }
      ghost var bm := BinaryMatrix(seqs);
      assert forall i :: 0 <= i < |seqs| ==> Rows(m)[i] == bm[i];
    }

    /** Decodes `v`, keeping in order only the indexes the vocabulary assigned. */
    function IndexesToObjects(v: seq<int>): (r: seq<T>)
      ensures |r| <= |v|
    {
      if v == [] then []
      else (if v[0] in indexToObject then [indexToObject[v[0]]] else []) + IndexesToObjects(v[1..])
    }

    /** Decodes each row of an index matrix on its own. */
    function IndexMatrixToObjects(m: seq<seq<int>>): (r: seq<seq<T>>)
      ensures |r| == |m|
    {
      seq(|m|, i requires 0 <= i < |m| => IndexesToObjects(m[i]))
    }

    /** Decodes a one-hot vector: the object at each assigned position holding exactly 1, by position. */
    function BinaryVectorToObjects(v: seq<int>): (r: seq<T>)
      ensures |r| <= |v|
    {
      if v == [] then []
      else
        var p := |v| - 1;
        BinaryVectorToObjects(v[..p]) + (if v[p] == 1 && p in indexToObject then [indexToObject[p]] else [])
    }

    /** Decodes each row of a one-hot matrix on its own. */
    function BinaryMatrixToObjects(m: seq<seq<int>>): (r: seq<seq<T>>)
      ensures |r| == |m|
    {
      seq(|m|, i requires 0 <= i < |m| => BinaryVectorToObjects(m[i]))
    }
  }

  /** Every index the forward map hands out lies in [start, start + vocabSize). */
  lemma KnownIndexInRange<T>(ix: Index<T>, x: T)
    requires ix.Valid() && x in ix.objectToIndex
    ensures ix.start <= ix.objectToIndex[x] < ix.start + ix.vocabSize
    ensures ix.objectToIndex[x] in ix.indexToObject && ix.indexToObject[ix.objectToIndex[x]] == x
  {
    var d := Distinct(ix.vocab);
    DistinctElements(ix.vocab);
    var k :| 0 <= k < |d| && d[k] == x;
  }

  /** The two maps are inverses of each other, and the inverse map covers exactly [start, start + vocabSize). */
  lemma InverseMaps<T>(ix: Index<T>)
    requires ix.Valid()
    ensures forall x :: x in ix.objectToIndex ==>
              ix.objectToIndex[x] in ix.indexToObject && ix.indexToObject[ix.objectToIndex[x]] == x
    ensures forall k :: k in ix.indexToObject ==>
              ix.indexToObject[k] in ix.objectToIndex && ix.objectToIndex[ix.indexToObject[k]] == k
    ensures forall k :: k in ix.indexToObject <==> ix.start <= k < ix.start + ix.vocabSize
  {
    forall x | x in ix.objectToIndex
      ensures ix.objectToIndex[x] in ix.indexToObject && ix.indexToObject[ix.objectToIndex[x]] == x
    {
      KnownIndexInRange(ix, x);
    }
    var d := Distinct(ix.vocab);
    forall k | k in ix.indexToObject
      ensures ix.indexToObject[k] in ix.objectToIndex && ix.objectToIndex[ix.indexToObject[k]] == k
    {
      assert d[k - ix.start] in ix.objectToIndex;
    }
  }

  /** The sentinel start - 1 is neither an assigned index nor the index of any object. */
  lemma SentinelUnassigned<T>(ix: Index<T>)
    requires ix.Valid()
    ensures ix.notInIndex == ix.start - 1
    ensures ix.notInIndex !in ix.indexToObject
    ensures ix.notInIndex !in ix.objectToIndex.Values
  {
    if ix.notInIndex in ix.objectToIndex.Values {
      var x :| x in ix.objectToIndex && ix.objectToIndex[x] == ix.notInIndex;
      KnownIndexInRange(ix, x);
    }
  }

  /** vocabSize is the number of different objects in the vocabulary. */
  lemma VocabSizeCountsDistinct<T>(ix: Index<T>)
    requires ix.Valid()
    ensures ix.vocabSize == |set x | x in ix.vocab|
    ensures ix.vocabSize == |ix.objectToIndex| == |ix.indexToObject|
  {
    DistinctCount(ix.vocab);
    assert ix.objectToIndex.Keys == set x | x in ix.vocab;
    assert ix.indexToObject.Keys == Run(ix.start, ix.vocabSize);
  }

  /**
   * The object at position p of the vocabulary gets start plus the number of
   * distinct objects before it when p is its first occurrence; a repeated
   * object keeps the smaller index it got earlier and consumes none.
   */
  lemma IndexOfFirstOccurrence<T>(ix: Index<T>, p: nat)
    requires ix.Valid() && p < |ix.vocab|
    ensures ix.vocab[p] in ix.objectToIndex
    ensures ix.vocab[p] !in ix.vocab[..p] ==>
              ix.objectToIndex[ix.vocab[p]] == ix.start + |Distinct(ix.vocab[..p])|
    ensures ix.vocab[p] in ix.vocab[..p] ==>
              ix.objectToIndex[ix.vocab[p]] < ix.start + |Distinct(ix.vocab[..p])|
  {
    var v := ix.vocab;
    var d, e := Distinct(v), Distinct(v[..p]);
    DistinctOfPrefix(v, p + 1);
    assert v[..p + 1][..p] == v[..p];
    DistinctElements(v[..p]);
    if v[p] !in v[..p] {
      assert d[|e|] == v[p];
    } else {
      var k :| 0 <= k < |e| && e[k] == v[p];
      assert d[k] == v[p];
      DistinctNoDuplicates(v);
    }
  }

  /**
   * Entry j of the index vector is the index of s[j], which maps back to s[j],
   * when s[j] is in the vocabulary, and the unassigned sentinel otherwise.
   */
  lemma ObjectsToIndexesAt<T>(ix: Index<T>, s: seq<T>, j: nat)
    requires ix.Valid() && j < |s|
    ensures s[j] in ix.vocab ==>
              var k := ix.ObjectsToIndexes(s)[j];
              ix.start <= k < ix.start + ix.vocabSize && k in ix.indexToObject && ix.indexToObject[k] == s[j]
    ensures s[j] !in ix.vocab ==>
              ix.ObjectsToIndexes(s)[j] == ix.start - 1 && ix.ObjectsToIndexes(s)[j] !in ix.indexToObject
  {
    if s[j] in ix.vocab {
      KnownIndexInRange(ix, s[j]);
    }
  }

  /** An empty vocabulary assigns nothing: every object encodes as the sentinel and every one-hot vector is all zeros. */
  lemma EmptyVocabulary<T>(ix: Index<T>, s: seq<T>)
    requires ix.Valid() && ix.vocab == []
    ensures ix.vocabSize == 0 && ix.objectToIndex == map[] && ix.indexToObject == map[]
    ensures forall j :: 0 <= j < |s| ==> ix.ObjectsToIndexes(s)[j] == ix.start - 1
    ensures ix.start >= 0 ==> forall p :: 0 <= p < |ix.BinaryVector(s)| ==> ix.BinaryVector(s)[p] == 0
  {
    assert Distinct(ix.vocab) == [];
    assert ix.objectToIndex.Keys == {};
    assert forall k :: k !in ix.indexToObject;
    assert ix.indexToObject.Keys == {};
  }

  /** Decoding distributes over concatenation. */
  lemma {:induction false} IndexesToObjectsAppend<T>(ix: Index<T>, a: seq<int>, b: seq<int>)
    ensures ix.IndexesToObjects(a + b) == ix.IndexesToObjects(a) + ix.IndexesToObjects(b)
  {
    if a == [] {
      assert a + b == b;
    } else {
      var h := if a[0] in ix.indexToObject then [ix.indexToObject[a[0]]] else [];
      assert (a + b)[0] == a[0];
      assert (a + b)[1..] == a[1..] + b;
      assert ix.IndexesToObjects(a + b) == h + ix.IndexesToObjects(a[1..] + b);
      assert ix.IndexesToObjects(a) == h + ix.IndexesToObjects(a[1..]);
      IndexesToObjectsAppend(ix, a[1..], b);
    }
  }

  /** Indexes that the vocabulary never assigned, the sentinel among them, decode to nothing. */
  lemma {:induction false} IndexesToObjectsOfUnassigned<T>(ix: Index<T>, v: seq<int>)
    requires forall j :: 0 <= j < |v| ==> v[j] !in ix.indexToObject
    ensures ix.IndexesToObjects(v) == []
  {
    if v != [] {
      IndexesToObjectsOfUnassigned(ix, v[1..]);
    }
  }

  /**
   * Encoding then decoding keeps, in order, exactly the objects of `s` that are
   * in the vocabulary; a sequence drawn from the vocabulary comes back unchanged.
   */
  lemma {:induction false} IndexesRoundTrip<T>(ix: Index<T>, s: seq<T>)
    requires ix.Valid()
    ensures ix.IndexesToObjects(ix.ObjectsToIndexes(s)) == Retain(s, ix.vocab)
    ensures (forall x :: x in s ==> x in ix.vocab) ==> ix.IndexesToObjects(ix.ObjectsToIndexes(s)) == s
  {
    if s != [] {
      var p, y := s[..|s| - 1], s[|s| - 1];
      IndexesRoundTrip(ix, p);
      assert ix.ObjectsToIndexes(s) == ix.ObjectsToIndexes(p) + [ix.IndexOf(y)];
      IndexesToObjectsAppend(ix, ix.ObjectsToIndexes(p), [ix.IndexOf(y)]);
      assert [ix.IndexOf(y)][1..] == [];
      ObjectsToIndexesAt(ix, [y], 0);
    }
    if forall x :: x in s ==> x in ix.vocab {
      RetainAll(s, ix.vocab);
    }
  }

  /**
   * Decoding the padded index matrix gives back, row by row, the known objects
   * of each input sequence: the padding is dropped. A batch drawn from the
   * vocabulary comes back unchanged.
   */
  lemma IndexMatrixRoundTrip<T>(ix: Index<T>, seqs: seq<seq<T>>)
    requires ix.Valid() && |seqs| > 0
    ensures |ix.IndexMatrixToObjects(ix.IndexMatrix(seqs))| == |seqs|
    ensures forall i :: 0 <= i < |seqs| ==> ix.IndexMatrixToObjects(ix.IndexMatrix(seqs))[i] == Retain(seqs[i], ix.vocab)
    ensures (forall i, x :: 0 <= i < |seqs| && x in seqs[i] ==> x in ix.vocab) ==> ix.IndexMatrixToObjects(ix.IndexMatrix(seqs)) == seqs
  {
    var m := ix.IndexMatrix(seqs);
    var w := MaxLength(seqs);
    SentinelUnassigned(ix);
    forall i | 0 <= i < |seqs|
      ensures ix.IndexMatrixToObjects(m)[i] == Retain(seqs[i], ix.vocab)
    {
      var pad := seq(w - |seqs[i]|, _ => ix.notInIndex);
      IndexesToObjectsAppend(ix, ix.ObjectsToIndexes(seqs[i]), pad);
      IndexesToObjectsOfUnassigned(ix, pad);
      IndexesRoundTrip(ix, seqs[i]);
    }
    if forall i, x :: 0 <= i < |seqs| && x in seqs[i] ==> x in ix.vocab {
      forall i | 0 <= i < |seqs|
        ensures ix.IndexMatrixToObjects(m)[i] == seqs[i]
      {
        RetainAll(seqs[i], ix.vocab);
      }
    }
  }

  /** Position p of the one-hot vector is 1 exactly when the object with index p occurs in `s`, and 0 otherwise. */
  lemma BinaryVectorAt<T>(ix: Index<T>, s: seq<T>, p: int)
    requires ix.Valid() && ix.start >= 0 && 0 <= p < ix.vocabSize + ix.start
    ensures ix.BinaryVector(s)[p] == if p in ix.indexToObject && ix.indexToObject[p] in s then 1 else 0
  {
    InverseMaps(ix);
    if ix.Marked(s, p) {
      var x :| x in s && x in ix.objectToIndex && ix.objectToIndex[x] == p;
      assert ix.indexToObject[p] == x;
    }
  }

  /**
   * Two sequences have the same one-hot vector exactly when they have the same
   * vocabulary members: order, repetition and unknown objects do not matter.
   */
  lemma BinaryVectorSameKnownMembers<T>(ix: Index<T>, s1: seq<T>, s2: seq<T>)
    requires ix.Valid() && ix.start >= 0
    ensures ix.BinaryVector(s1) == ix.BinaryVector(s2) <==>
              forall x :: x in ix.objectToIndex ==> (x in s1 <==> x in s2)
  {
    InverseMaps(ix);
    var v1, v2 := ix.BinaryVector(s1), ix.BinaryVector(s2);
    if forall x :: x in ix.objectToIndex ==> (x in s1 <==> x in s2) {
      forall p | 0 <= p < ix.vocabSize + ix.start
        ensures v1[p] == v2[p]
      {
        BinaryVectorAt(ix, s1, p);
        BinaryVectorAt(ix, s2, p);
      }
    }
    if v1 == v2 {
      forall x | x in ix.objectToIndex
        ensures x in s1 <==> x in s2
      {
        var p := ix.objectToIndex[x];
        KnownIndexInRange(ix, x);
        BinaryVectorAt(ix, s1, p);
        BinaryVectorAt(ix, s2, p);
      }
    }
  }

  /** Encoding the deduplicated sequence gives the same one-hot vector. */
  lemma BinaryVectorOfDistinct<T>(ix: Index<T>, s: seq<T>)
    requires ix.Valid() && ix.start >= 0
    ensures ix.BinaryVector(Distinct(s)) == ix.BinaryVector(s)
  {
    DistinctElements(s);
    BinaryVectorSameKnownMembers(ix, Distinct(s), s);
  }

  /** Decoding the first q positions of a one-hot vector yields the marked objects among the first q - start distinct ones. */
  lemma {:induction false} BinaryPrefixRoundTrip<T>(ix: Index<T>, s: seq<T>, q: nat)
    requires ix.Valid() && ix.start >= 0 && q <= ix.vocabSize + ix.start
    ensures ix.BinaryVectorToObjects(ix.BinaryVector(s)[..q]) ==
              Retain(Distinct(ix.vocab)[..if q <= ix.start then 0 else q - ix.start], s)
  {
    var v, d := ix.BinaryVector(s), Distinct(ix.vocab);
    if q == 0 {
      assert v[..0] == [];
    } else {
      BinaryPrefixRoundTrip(ix, s, q - 1);
      var p := q - 1;
      assert v[..q][..p] == v[..p];
      assert v[..q][p] == v[p];
      BinaryVectorAt(ix, s, p);
      if p >= ix.start {
        var k := p - ix.start;
        assert d[..k + 1][..k] == d[..k];
        assert d[..k + 1][k] == d[k] == ix.indexToObject[p];
      }
    }
  }

  /**
   * Decoding a one-hot vector gives the distinct vocabulary members of `s`,
   * in the order of their indexes.
   */
  lemma BinaryRoundTrip<T>(ix: Index<T>, s: seq<T>)
    requires ix.Valid() && ix.start >= 0
    ensures ix.BinaryVectorToObjects(ix.BinaryVector(s)) == Retain(Distinct(ix.vocab), s)
    ensures forall x :: x in ix.BinaryVectorToObjects(ix.BinaryVector(s)) <==> x in ix.vocab && x in s
  {
    RetainElements(Distinct(ix.vocab), s);
    DistinctElements(ix.vocab);
    var w := ix.vocabSize + ix.start;
    BinaryPrefixRoundTrip(ix, s, w);
    assert ix.BinaryVector(s)[..w] == ix.BinaryVector(s);
    assert Distinct(ix.vocab)[..ix.vocabSize] == Distinct(ix.vocab);
  }

  /** Decoding a one-hot matrix gives, row by row, the distinct vocabulary members of each input sequence in index order. */
  lemma BinaryMatrixRoundTrip<T>(ix: Index<T>, seqs: seq<seq<T>>)
    requires ix.Valid() && ix.start >= 0
    ensures |ix.BinaryMatrixToObjects(ix.BinaryMatrix(seqs))| == |seqs|
    ensures forall i :: 0 <= i < |seqs| ==>
              ix.BinaryMatrixToObjects(ix.BinaryMatrix(seqs))[i] == Retain(Distinct(ix.vocab), seqs[i])
  {
    forall i | 0 <= i < |seqs|
      ensures ix.BinaryMatrixToObjects(ix.BinaryMatrix(seqs))[i] == Retain(Distinct(ix.vocab), seqs[i])
    {
      BinaryRoundTrip(ix, seqs[i]);
    }
  }
}
