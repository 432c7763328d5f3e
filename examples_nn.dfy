/**
 * Worked examples: what an index built from a concrete vocabulary assigns and
 * how it encodes and decodes, derived from Valid alone.
 */
module NnExamples {
  import opened Seqs
  import opened Nn

  /** Indexes follow first occurrence: ["b", "a", "b", "c"] from 0 gives b:0, a:1, c:2. */
  lemma OrderStability(ix: Index<string>)
    requires ix.Valid() && ix.vocab == ["b", "a", "b", "c"] && ix.start == 0
    ensures ix.objectToIndex == map["b" := 0, "a" := 1, "c" := 2]
    ensures ix.indexToObject == map[0 := "b", 1 := "a", 2 := "c"]
    ensures ix.vocabSize == 3 && ix.notInIndex == -1
  {
    var d := Distinct(ix.vocab);
    assert ix.vocab[..3] == ["b", "a", "b"] && ["b", "a", "b"][..2] == ["b", "a"] && ["b", "a"][..1] == ["b"];
    assert Distinct(["b"]) == ["b"] by { assert ["b"][..0] == []; }
    assert Distinct(["b", "a"]) == ["b", "a"];
    assert Distinct(["b", "a", "b"]) == ["b", "a"];
    assert d == ["b", "a", "c"];
    assert d[0] == "b" && d[1] == "a" && d[2] == "c";
    assert ix.objectToIndex.Keys == {"b", "a", "c"};
    assert ix.vocabSize == 3;
    assert forall k :: k in ix.indexToObject <==> k in {0, 1, 2};
    assert ix.indexToObject.Keys == {0, 1, 2};
  }

  /** With ["a", "b"] from 0, an unknown object encodes as -1 and a short row is padded with -1. */
  lemma SentinelAndPadding(ix: Index<string>)
    requires ix.Valid() && ix.vocab == ["a", "b"] && ix.start == 0
    ensures ix.ObjectsToIndexes(["a", "z"]) == [0, -1]
    ensures ix.IndexMatrix([["a"], ["a", "b"]]) == [[0, -1], [0, 1]]
  {
    var d := Distinct(ix.vocab);
    assert ["a", "b"][..1] == ["a"] && ["a"][..0] == [];
    assert d == ["a", "b"];
    assert d[0] == "a" && d[1] == "b";
    assert "z" !in ix.objectToIndex;
    assert ix.ObjectsToIndexes(["a"]) == [0];
    assert ix.ObjectsToIndexes(["a", "b"]) == [0, 1];
    assert MaxLength([["a"], ["a", "b"]]) == 2;
    var m := ix.IndexMatrix([["a"], ["a", "b"]]);
    assert |m| == 2 && |m[0]| == 2 && |m[1]| == 2;
    assert m[0][0] == 0 && m[0][1] == -1 && m[1][0] == 0 && m[1][1] == 1;
    assert m[0] == [0, -1] && m[1] == [0, 1];
  }

  /** The distinct vocabulary ["a", "b", "c"] gets 0, 1, 2. */
  lemma ThreeLetters(ix: Index<string>)
    requires ix.Valid() && ix.vocab == ["a", "b", "c"] && ix.start == 0
    ensures ix.vocabSize == 3
    ensures ix.objectToIndex == map["a" := 0, "b" := 1, "c" := 2]
    ensures ix.indexToObject == map[0 := "a", 1 := "b", 2 := "c"]
  {
    var d := Distinct(ix.vocab);
    assert ["a", "b", "c"][..2] == ["a", "b"] && ["a", "b"][..1] == ["a"] && ["a"][..0] == [];
    assert d == ["a", "b", "c"];
    assert d[0] == "a" && d[1] == "b" && d[2] == "c";
    assert ix.objectToIndex.Keys == {"a", "b", "c"};
    assert forall k :: k in ix.indexToObject <==> k in {0, 1, 2};
    assert ix.indexToObject.Keys == {0, 1, 2};
  }

  /** With ["a", "b", "c"] from 0, ["a", "c", "a"] is one-hot [1, 0, 1]: the repeated "a" sets one position. */
  lemma OneHotEncode(ix: Index<string>)
    requires ix.Valid() && ix.vocab == ["a", "b", "c"] && ix.start == 0
    ensures ix.BinaryVector(["a", "c", "a"]) == [1, 0, 1]
  {
    ThreeLetters(ix);
    var v := ix.BinaryVector(["a", "c", "a"]);
    var s := ["a", "c", "a"];
    assert "a" in s && "b" !in s && "c" in s;
    BinaryVectorAt(ix, s, 0);
    BinaryVectorAt(ix, s, 1);
    BinaryVectorAt(ix, s, 2);
    assert v[0] == 1 && v[1] == 0 && v[2] == 1;
  }

  /** With ["a", "b", "c"] from 0, [1, 0, 1] decodes to ["a", "c"]. */
  lemma OneHotDecode(ix: Index<string>)
    requires ix.Valid() && ix.vocab == ["a", "b", "c"] && ix.start == 0
    ensures ix.BinaryVectorToObjects([1, 0, 1]) == ["a", "c"]
  {
    ThreeLetters(ix);
    assert [1, 0, 1][..2] == [1, 0] && [1, 0][..1] == [1] && [1][..0] == [];
    assert ix.BinaryVectorToObjects([1]) == ["a"];
    assert ix.BinaryVectorToObjects([1, 0]) == ["a"];
  }

  /** With start 1 and ["x"], the sentinel is 0 and position 0 of every one-hot vector stays unused. */
  lemma StartReservesPositions(ix: Index<string>)
    requires ix.Valid() && ix.vocab == ["x"] && ix.start == 1
    ensures ix.objectToIndex == map["x" := 1] && ix.vocabSize == 1 && ix.notInIndex == 0
    ensures ix.BinaryVector(["x"]) == [0, 1]
  {
    var d := Distinct(ix.vocab);
    assert d == ["x"];
    assert ix.objectToIndex.Keys == {"x"};
    assert ix.Marked(["x"], 1);
  }
}
