# Vocabulary index, modelled in Dafny

This project models the `Index` class of `nn.py`. An `Index` maps a vocabulary
of objects to a contiguous run of integers and back. It then uses that mapping
to encode and decode:

- object sequences as index vectors, and batches as index matrices padded on
  the right with the sentinel `start - 1`;
- object sequences as one-hot vectors of width `vocab_size + start`, and
  batches as one-hot matrices;
- index vectors and matrices, and one-hot vectors and matrices, back to objects.

Files:

- `seqs.dfy` (module `Seqs`) holds generic sequence facts. `Distinct`
  lists the distinct elements of a sequence at their first occurrences: this
  is the order in which the constructor hands out integers. `FirstIndex`,
  `Retain`, `Run` and `MaxLength` are also here, with their lemmas.
- `nn.dfy` (module `Nn`) holds `class Index<T(==)>`. Nothing changes after
  construction, so its fields are `const`. The ghost constant `vocab` keeps
  the construction input for the specification. `Valid()` states the object
  invariant: the k-th distinct vocabulary item has index `start + k` in both
  maps, and the maps cover exactly the vocabulary and `[start, start + vocabSize)`.
  - The constructor walks the vocabulary in a loop, as the source does. It
    fills two local maps and then assigns them to the constant fields once;
    the source inserts into its two dictionaries directly, to the same effect.
  - The three imperative encoders are methods. `ObjectsToIndexMatrix`
    fills a sentinel matrix and overwrites row prefixes.
    `ObjectsToBinaryVector` zero-fills an array and sets ones.
    `ObjectsToBinaryMatrix` assigns each row of a zero matrix. Each of them is
    proved against a specification function: `IndexMatrix`, `BinaryVector` or
    `BinaryMatrix`.
  - The comprehensions of the source are functions: `ObjectsToIndexes` and
    the four decoders.
  - The properties are module-level lemmas about an `Index` satisfying `Valid()`.
- `examples_nn.dfy` (module `NnExamples`) works through concrete
  vocabularies. It shows first-occurrence order, the sentinel, padding, a
  one-hot vector and its decoding, and the positions that a positive `start`
  reserves.

Numpy arrays built by the encoders are `array<int>` and `array2<int>`. The
row-slice assignments `matrix[i, :len(indexes)] = indexes` and
`matrix[i] = vector` are `forall` statements. The decoders take their arrays as
values: `seq<int>` and `seq<seq<int>>`. `Rows` converts a two-dimensional
array into the latter form.

The docstring of `binary_vector_to_objects` (nn.py:135) speaks of "nonzero
indexes", but the code (nn.py:144) keeps only positions whose value equals 1.
The model follows the code: any other nonzero value is skipped.

## Model

| member | source | states |
|---|---|---|
| `Nn.Index.constructor` | nn.py:14-35 | `start` defaults to 0; one pass over the vocabulary gives `Valid()`: the k-th distinct item, in first-occurrence order, gets `start + k` in both maps; `vocabSize` is the number of distinct items; `notInIndex == start - 1` |
| `Seqs.DistinctElements` | nn.py:28-31 | the objects that receive an index are exactly the vocabulary items |
| `Seqs.DistinctNoDuplicates` | nn.py:29-32 | no object receives two indexes: a repeated item is skipped |
| `Seqs.DistinctInFirstOccurrenceOrder` | nn.py:19-32 | items appear in index order exactly as their first occurrences appear in the vocabulary |
| `Seqs.DistinctCount` | nn.py:34 | the number of indexes handed out equals the number of different vocabulary items |
| `Seqs.DistinctOfPrefix` | nn.py:27-32 | reading more of the vocabulary only appends new items, so an earlier index is never reassigned |
| `Nn.IndexOfFirstOccurrence` | nn.py:27-32 | the item at a first occurrence gets `start` plus the number of distinct items before it; a repetition keeps a smaller, earlier index and consumes none |
| `Nn.KnownIndexInRange` | nn.py:29-32 | every assigned index lies in `[start, start + vocabSize)` and maps back to its object |
| `Nn.InverseMaps` | nn.py:29-34 | `object_to_index` and `index_to_object` are inverses in both directions; the inverse map's keys are exactly `[start, start + vocabSize)` |
| `Nn.SentinelUnassigned` | nn.py:35 | `not_in_index == start - 1`, which is neither a key of `index_to_object` nor the index of any object |
| `Nn.VocabSizeCountsDistinct` | nn.py:34 | `vocab_size` equals the number of different vocabulary items and the size of each map |
| `Nn.EmptyVocabulary` | nn.py:23-35 | an empty vocabulary gives empty maps and size 0; every object then encodes as the sentinel and every one-hot vector is all zeros |
| `Nn.Index.ObjectsToIndexes` | nn.py:46-48 | the index vector has the length of the input |
| `Nn.ObjectsToIndexesAt` | nn.py:46-48 | entry j is an assigned index that maps back to `s[j]` when `s[j]` is in the vocabulary, and the unassigned sentinel `start - 1` otherwise |
| `Seqs.MaxLength` | nn.py:65 | the width of the index matrix is at least every row's length and equal to some row's length; it is defined only for a non-empty batch |
| `Nn.Index.IndexMatrix` | nn.py:65-71 | the value the index-matrix encoder computes for a non-empty batch: one row per sequence, every row as wide as the longest sequence, row i starting with the index vector of `seqs[i]` and padded with the sentinel |
| `Nn.Index.ObjectsToIndexMatrix` | nn.py:65-71 | for a non-empty batch, a fresh `len(seqs) × max length` matrix; row i starts with the index vector of `seqs[i]`, and every later entry is the sentinel |
| `Nn.Index.BinaryVector` | nn.py:82 | the one-hot vector has width `vocabSize + start` |
| `Nn.Index.ObjectsToBinaryVector` | nn.py:82-87 | for `start >= 0`, a fresh array with a 1 at each index of an input object that is in the vocabulary and 0 elsewhere; unknown objects are skipped |
| `Nn.BinaryVectorAt` | nn.py:82-87 | position p is 1 exactly when the object with index p occurs in the input, and 0 otherwise |
| `Nn.BinaryVectorSameKnownMembers` | nn.py:83-86 | two inputs have the same one-hot vector if and only if they contain the same vocabulary members; order, repetition and unknown objects make no difference |
| `Nn.BinaryVectorOfDistinct` | nn.py:83-86 | encoding the deduplicated input gives the same one-hot vector |
| `Nn.Index.BinaryMatrix` | nn.py:100-103 | the value the one-hot matrix encoder computes: one row per sequence, every row of the uniform width `vocabSize + start` whatever the input lengths |
| `Nn.Index.ObjectsToBinaryMatrix` | nn.py:100-103 | a fresh `len(seqs) × (vocabSize + start)` matrix whose row i is the one-hot vector of `seqs[i]` |
| `Nn.Index.IndexesToObjects` | nn.py:117 | decoding drops indexes that were never assigned, so the output is no longer than the input |
| `Nn.IndexesToObjectsAppend` | nn.py:117 | decoding works entry by entry: the decoding of a concatenation is the concatenation of the decodings |
| `Nn.IndexesToObjectsOfUnassigned` | nn.py:117 | a vector of unassigned indexes, such as padding sentinels, decodes to nothing |
| `Nn.IndexesRoundTrip` | nn.py:117 | decoding an encoded sequence keeps, in order, exactly its vocabulary members; a sequence drawn from the vocabulary comes back unchanged |
| `Nn.Index.IndexMatrixToObjects` | nn.py:131 | one decoded row per matrix row |
| `Nn.IndexMatrixRoundTrip` | nn.py:131 | decoding the padded index matrix gives, row by row, the vocabulary members of each input sequence; padding disappears, and a batch drawn from the vocabulary comes back unchanged |
| `Nn.Index.BinaryVectorToObjects` | nn.py:144 | decoding emits at most one object per position |
| `Nn.BinaryPrefixRoundTrip` | nn.py:144 | decoding the first q positions of a one-hot vector gives the input's members among the first `q - start` distinct vocabulary items, in index order |
| `Nn.BinaryRoundTrip` | nn.py:144 | decoding the one-hot vector of S gives the distinct vocabulary members of S sorted by index; its members are exactly the objects of S that are in the vocabulary |
| `Nn.Index.BinaryMatrixToObjects` | nn.py:158 | one decoded row per matrix row |
| `Nn.BinaryMatrixRoundTrip` | nn.py:158 | decoding a one-hot matrix gives, row by row, the distinct vocabulary members of each input sequence in index order |
| `NnExamples.OrderStability` | nn.py:27-35 | `["b", "a", "b", "c"]` from 0 gives `b:0, a:1, c:2`, size 3 and sentinel -1 |
| `NnExamples.SentinelAndPadding` | nn.py:46-71 | with `["a", "b"]`, `["a", "z"]` encodes as `[0, -1]`, and `[["a"], ["a", "b"]]` pads to `[[0, -1], [0, 1]]` |
| `NnExamples.ThreeLetters` | nn.py:27-35 | `["a", "b", "c"]` from 0 gives `a:0, b:1, c:2` in both directions |
| `NnExamples.OneHotEncode` | nn.py:82-87 | with `["a", "b", "c"]`, `["a", "c", "a"]` encodes as `[1, 0, 1]` |
| `NnExamples.OneHotDecode` | nn.py:144 | with `["a", "b", "c"]`, `[1, 0, 1]` decodes to `["a", "c"]` |
| `NnExamples.StartReservesPositions` | nn.py:82-87 | with start 1 and `["x"]`, `x` gets 1, the sentinel is 0, and `["x"]` encodes as `[0, 1]` |

## Left out

- Python's duck typing and hashability: objects are a Dafny type parameter with equality, `T(==)`.
- numpy details: `dtype=int`, broadcasting and iteration over an ndarray. Vectors are integer arrays or sequences, and only their contents are modelled.
- The empty batch in `objects_to_index_matrix`: `max()` over no rows raises `ValueError` (nn.py:65). So `ObjectsToIndexMatrix`, `IndexMatrix` and `MaxLength` require at least one row, and no zero-row matrix is invented.
- A negative `start` for the one-hot encoders: the width `vocab_size + start` could then be negative, and numpy would wrap negative positions around (nn.py:82-86). `ObjectsToBinaryVector`, `ObjectsToBinaryMatrix`, `BinaryVector` and `BinaryMatrix` require `start >= 0`.
- Decoders receive their numpy arrays as values (`seq<int>`, `seq<seq<int>>`), because they only read them. Aliasing of those arrays is therefore not modelled.
- The int64 element type of the encoders' numpy arrays (`dtype=int`, nn.py:47, 66, 82, 100): an index or sentinel outside the int64 range, for instance with `start = 2**63`, makes `np.array` or `np.full` raise `OverflowError`, whereas the model's arrays hold unbounded integers and return a value. The dictionaries themselves hold unbounded Python integers, as the model does.
- The module docstring and the imports (nn.py:1-6) contain no logic.
