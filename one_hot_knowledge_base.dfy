/**
  The one-hot encoder of the knowledge-base note
  (01_LeadArchitectKnowledgeBase/AI-NLP/2025-08-11_One-Hot-Encoding/one_hot.py),
  a second copy of the same algorithm.
 */
module KnowledgeBaseOneHot {
  import opened OneHotSpec
  import ReferenceLibraryOneHot

  method OneHot(tokens: seq<string>) returns (matrix: seq<seq<int>>, vocab: seq<string>, index: map<string, int>)
    ensures Encoding(matrix, vocab, index) == Encode(tokens)
  {
    vocab := SortedSet(tokens);
    index := IndexOf(vocab);
    TokensAreIndexed(tokens);
    matrix := BuildMatrix(tokens, index, |vocab|);
  }

  /** The `for t in tokens` loop: a fresh zero row, its token's column set to
      1 in place, the row appended to the matrix. */
  method BuildMatrix(tokens: seq<string>, index: map<string, int>, width: nat) returns (matrix: seq<seq<int>>)
    requires forall t :: t in tokens ==> t in index && 0 <= index[t] < width
    ensures |matrix| == |tokens|
    ensures forall j :: 0 <= j < |tokens| ==> IsOneHot(matrix[j], index[tokens[j]]) && |matrix[j]| == width
    ensures matrix == Matrix(tokens, index, width)
  {
    matrix := [];
    for j := 0 to |tokens|
      invariant |matrix| == j
      invariant forall k :: 0 <= k < j ==> matrix[k] == Row(width, index[tokens[k]])
    {
      var t := tokens[j];
      var row := new int[width](_ => 0);
      row[index[t]] := 1;
      assert row[..] == Row(width, index[t]);
      matrix := matrix + [row[..]];
    }
  }

  /** On every input the two copies return the same triple. */
  method CopiesAgree(tokens: seq<string>) returns (here: Encoding, there: Encoding)
    ensures here == there
  {
    var m, v, i := OneHot(tokens);
    here := Encoding(m, v, i);
    m, v, i := ReferenceLibraryOneHot.OneHot(tokens);
    there := Encoding(m, v, i);
  }
}
