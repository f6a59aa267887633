/**
  The one-hot encoder of the NLP basics examples
  (03_ReferenceLibrary/.../01_Basics/examples/one_hot.py).

  `vocab` and `index` are pure expressions; the matrix is built by a loop
  that allocates a zero row, sets the token's column to 1 in place and
  appends the row.
 */
module ReferenceLibraryOneHot {
  import opened OneHotSpec

  method OneHot(tokens: seq<string>) returns (matrix: seq<seq<int>>, vocab: seq<string>, index: map<string, int>)
    ensures Encoding(matrix, vocab, index) == Encode(tokens)
  {
    vocab := SortedSet(tokens);
    index := IndexOf(vocab);
    TokensAreIndexed(tokens);
    matrix := BuildMatrix(tokens, index, |vocab|);
  }

  /** The `for t in tokens` loop: a fresh zero row, its token's column set to
      1 in place, the row appended to the matrix. */
  method BuildMatrix(tokens: seq<string>, index: map<string, int>, width: nat) returns (matrix: seq<seq<int>>)
    requires forall t :: t in tokens ==> t in index && 0 <= index[t] < width
    ensures |matrix| == |tokens|
    ensures forall j :: 0 <= j < |tokens| ==> IsOneHot(matrix[j], index[tokens[j]]) && |matrix[j]| == width
    ensures matrix == Matrix(tokens, index, width)
  {
    matrix := [];
    for j := 0 to |tokens|
      invariant |matrix| == j
      invariant forall k :: 0 <= k < j ==> matrix[k] == Row(width, index[tokens[k]])
    {
      var t := tokens[j];
      var row := new int[width](_ => 0);
      row[index[t]] := 1;
      assert row[..] == Row(width, index[t]);
      matrix := matrix + [row[..]];
    }
  }
}
