# One-hot encoder and message helpers, in Dafny

This project models two small pieces of a teaching repository.

**The one-hot encoder `one_hot(tokens)`.** The repository has two copies of it, one in the NLP basics
examples and one in a knowledge-base note. Given a list of string tokens, it returns a triple
`(matrix, vocab, index)`:

- `vocab` is `sorted(set(tokens))`. This is Python's default string order: code point by code point,
  case-sensitive, with a proper prefix first.
- `index` is `{w: i for i, w in enumerate(vocab)}`.
- `matrix` has one row per token, in input order. Each row is `[0] * len(vocab)` with a 1 written at
  `index[t]`.

**The helpers of the bytecode demo's `utils.py`.** These are `add_numbers`, `multiply_numbers` and
`format_message`. The last one frames a message between two borders of `=` characters.

Files:

- `string_order.dfy` (module `StringOrder`): Python's `<` on `str`, called `Less`. It is proved to be a
  strict total order, and it is shown equal to a non-recursive statement of lexicographic order. Dafny's
  own `<` on sequences means "proper prefix", so it cannot be used here.
- `one_hot_spec.dfy` (module `OneHotSpec`): the functional specification both copies share.
  - `SortedSet` is `sorted(set(tokens))`. It is built by insertion. It is proved to be the only
    strictly sorted sequence over the token set, so it does not depend on how Python sorts.
  - `IndexOf` is the dict comprehension. It adds the entries in enumeration order, so a later duplicate
    key would overwrite an earlier one.
  - `Row` is one row of the matrix, and `Matrix` is the rows for all tokens.
  - `Encode` is the returned triple. `EncodeInvariants` states its properties.
- `one_hot_reference.dfy` (module `ReferenceLibraryOneHot`) and `one_hot_knowledge_base.dfy` (module
  `KnowledgeBaseOneHot`): each copy's `one_hot` as a method. `OneHot` computes `vocab` and `index` as
  expressions. `BuildMatrix` runs the source's `for t in tokens` loop: it allocates a fresh zero row as
  an array, sets one cell in place and appends the row. Its loop invariants prove that the result
  equals `Encode(tokens)`. `CopiesAgree` runs both copies and shows they
  return the same triple.
- `utils.dfy` (module `Utils`): `AddNumbers`, `MultiplyNumbers` and `FormatMessage`. Two partner
  functions sit beside them. `Unframe` reads the message back out of the framed text, and `SplitLines`
  is Python's `str.split("\n")`.

## Model

| member | source | states |
|---|---|---|
| `StringOrder.LessMeansLessAt` | 03_ReferenceLibrary/02_AI-and-ML/04_NaturalLanguageProcessing/01_Basics/examples/one_hot.py:19 | The recursive comparison used for sorting holds exactly when `a` is a proper prefix of `b`, or when the two strings agree up to a position where `a` has the smaller code point. |
| `StringOrder.LessIrreflexive` | 03_ReferenceLibrary/02_AI-and-ML/04_NaturalLanguageProcessing/01_Basics/examples/one_hot.py:19 | No string sorts before itself. |
| `StringOrder.LessAsymmetric` | 03_ReferenceLibrary/02_AI-and-ML/04_NaturalLanguageProcessing/01_Basics/examples/one_hot.py:19 | If `a < b`, then `b < a` does not hold. |
| `StringOrder.LessTransitive` | 03_ReferenceLibrary/02_AI-and-ML/04_NaturalLanguageProcessing/01_Basics/examples/one_hot.py:19 | The string order is transitive. |
| `StringOrder.LessTotal` | 03_ReferenceLibrary/02_AI-and-ML/04_NaturalLanguageProcessing/01_Basics/examples/one_hot.py:19 | Any two different strings are ordered one way or the other, so sorting is deterministic. |
| `StringOrder.UpperCaseBeforeLowerCase` | 01_LeadArchitectKnowledgeBase/AI-NLP/2025-08-11_One-Hot-Encoding/one_hot.py:5 | The order is case-sensitive (`"B" < "a"`), and a proper prefix comes first (`"a" < "ab"`). |
| `OneHotSpec.StrictlySortedIsDistinct` | 03_ReferenceLibrary/02_AI-and-ML/04_NaturalLanguageProcessing/01_Basics/examples/one_hot.py:16 | A strictly increasing vocabulary has no duplicates. |
| `OneHotSpec.Insert` | 03_ReferenceLibrary/02_AI-and-ML/04_NaturalLanguageProcessing/01_Basics/examples/one_hot.py:19 | Adding a token to a strictly sorted vocabulary keeps it strictly sorted. Its elements become the old ones plus the token, and it grows by at most one. |
| `OneHotSpec.SortedSet` | 03_ReferenceLibrary/02_AI-and-ML/04_NaturalLanguageProcessing/01_Basics/examples/one_hot.py:19 | `sorted(set(tokens))` is strictly increasing. A string is in it exactly when it occurs in `tokens`, and it is no longer than `tokens`. |
| `OneHotSpec.SortedSequenceIsUnique` | 03_ReferenceLibrary/02_AI-and-ML/04_NaturalLanguageProcessing/01_Basics/examples/one_hot.py:19 | Two strictly sorted sequences with the same elements are equal. |
| `OneHotSpec.VocabIsSortedSetOfTokens` | 01_LeadArchitectKnowledgeBase/AI-NLP/2025-08-11_One-Hot-Encoding/one_hot.py:5 | Every strictly sorted sequence whose elements are exactly the tokens is the vocabulary. So the vocabulary is the sorted set of distinct tokens, whatever algorithm sorted it. |
| `OneHotSpec.VocabSizeIsDistinctCount` | 03_ReferenceLibrary/02_AI-and-ML/04_NaturalLanguageProcessing/01_Basics/examples/one_hot.py:19 | `len(vocab) == len(set(tokens)) <= len(tokens)`. |
| `OneHotSpec.IndexOf` | 03_ReferenceLibrary/02_AI-and-ML/04_NaturalLanguageProcessing/01_Basics/examples/one_hot.py:20 | The keys of the index are exactly the vocabulary terms. Every value `i` lies in `[0, len(vocab))` and satisfies `vocab[i] == w` for its key `w`. |
| `OneHotSpec.IndexInvertsVocab` | 01_LeadArchitectKnowledgeBase/AI-NLP/2025-08-11_One-Hot-Encoding/one_hot.py:6 | On a duplicate-free vocabulary, `index[vocab[i]] == i` for every `i`, and every column `0 .. len(vocab)-1` is a value of the index. So the index is a bijection onto the columns. |
| `OneHotSpec.OneHotSumsToOne` | 03_ReferenceLibrary/02_AI-and-ML/04_NaturalLanguageProcessing/01_Basics/examples/one_hot.py:23-24 | A row that is 0 everywhere except for one 1 sums to 1. |
| `OneHotSpec.TokensAreIndexed` | 03_ReferenceLibrary/02_AI-and-ML/04_NaturalLanguageProcessing/01_Basics/examples/one_hot.py:19-24 | Every token has an entry in the index built from `sorted(set(tokens))`, so the lookup `index[t]` never fails, on any list of strings. |
| `OneHotSpec.EncodeInvariants` | 03_ReferenceLibrary/02_AI-and-ML/04_NaturalLanguageProcessing/01_Basics/examples/one_hot.py:12-26 | The returned triple satisfies all of the following. The vocab is strictly sorted and holds exactly the tokens. The index keys are the vocab terms, and the index and the vocab are inverse to each other (`index[vocab[i]] == i` and `vocab[index[w]] == w`). There is one row per token, in input order. Every token has an index entry. Each row has length `len(vocab)`, with 1 at `index[tokens[j]]` and 0 elsewhere. |
| `OneHotSpec.EncodeRowsSumToOne` | 01_LeadArchitectKnowledgeBase/AI-NLP/2025-08-11_One-Hot-Encoding/one_hot.py:9-10 | Every row of the matrix sums to 1. |
| `OneHotSpec.EqualRowsIffEqualTokens` | 01_LeadArchitectKnowledgeBase/AI-NLP/2025-08-11_One-Hot-Encoding/one_hot.py:6-10 | Rows `i` and `j` are equal exactly when `tokens[i] == tokens[j]`. |
| `OneHotSpec.EncodeEmpty` | 01_LeadArchitectKnowledgeBase/AI-NLP/2025-08-11_One-Hot-Encoding/one_hot.py:4-12 | Empty input gives `([], [], {})`. |
| `OneHotSpec.DistinctWordsScenario` | 03_ReferenceLibrary/02_AI-and-ML/04_NaturalLanguageProcessing/01_Basics/examples/one_hot.py:12-26 | `one_hot(["i", "like", "pizza"])` returns exactly `([[1,0,0],[0,1,0],[0,0,1]], ["i", "like", "pizza"], {"i": 0, "like": 1, "pizza": 2})`. |
| `OneHotSpec.RepeatedTokenScenario` | 03_ReferenceLibrary/02_AI-and-ML/04_NaturalLanguageProcessing/01_Basics/examples/one_hot.py:12-26 | `one_hot(["a", "b", "a"])` returns exactly `([[1,0],[0,1],[1,0]], ["a", "b"], {"a": 0, "b": 1})`. A repeated token enters the vocab once and gets equal rows. |
| `OneHotSpec.SortedNotFirstSeenScenario` | 03_ReferenceLibrary/02_AI-and-ML/04_NaturalLanguageProcessing/01_Basics/examples/one_hot.py:12-26 | `one_hot(["b", "a", "b"])` returns exactly `([[0,1],[1,0],[0,1]], ["a", "b"], {"a": 0, "b": 1})`. Columns follow sorted order, not first occurrence. |
| `OneHotSpec.SingleRepeatedTokenScenario` | 03_ReferenceLibrary/02_AI-and-ML/04_NaturalLanguageProcessing/01_Basics/examples/one_hot.py:12-26 | `one_hot(["a", "a", "a"])` returns exactly `([[1],[1],[1]], ["a"], {"a": 0})`. |
| `OneHotSpec.MixedCaseScenario` | 01_LeadArchitectKnowledgeBase/AI-NLP/2025-08-11_One-Hot-Encoding/one_hot.py:4-12 | `one_hot(["B", "a"])` returns exactly `([[1,0],[0,1]], ["B", "a"], {"B": 0, "a": 1})`. Case is preserved and capitals sort first. |
| `OneHotSpec.MixedCaseReversedScenario` | 01_LeadArchitectKnowledgeBase/AI-NLP/2025-08-11_One-Hot-Encoding/one_hot.py:4-12 | `one_hot(["a", "B"])` returns exactly `([[0,1],[1,0]], ["B", "a"], {"B": 0, "a": 1})`. The sort, not the input order, puts "B" first. |
| `ReferenceLibraryOneHot.OneHot` | 03_ReferenceLibrary/02_AI-and-ML/04_NaturalLanguageProcessing/01_Basics/examples/one_hot.py:12-26 | The function returns exactly the triple `Encode(tokens)`, whose properties `EncodeInvariants` states. |
| `ReferenceLibraryOneHot.BuildMatrix` | 03_ReferenceLibrary/02_AI-and-ML/04_NaturalLanguageProcessing/01_Basics/examples/one_hot.py:21-25 | The loop makes one row per token. Each row is made by allocating a zero row, setting the token's column to 1 in place and appending the row. Row `j` has length `width` and is one-hot at `index[tokens[j]]`. The whole matrix equals `Matrix(tokens, index, width)`. |
| `KnowledgeBaseOneHot.OneHot` | 01_LeadArchitectKnowledgeBase/AI-NLP/2025-08-11_One-Hot-Encoding/one_hot.py:4-12 | The second copy returns exactly `Encode(tokens)`. |
| `KnowledgeBaseOneHot.BuildMatrix` | 01_LeadArchitectKnowledgeBase/AI-NLP/2025-08-11_One-Hot-Encoding/one_hot.py:7-11 | The second copy's loop makes one row per token, of length `width` and one-hot at `index[tokens[j]]`, in input order. |
| `KnowledgeBaseOneHot.CopiesAgree` | 01_LeadArchitectKnowledgeBase/AI-NLP/2025-08-11_One-Hot-Encoding/one_hot.py:4-12 | On every input, both copies of `one_hot` return the same triple. |
| `Utils.MultiplyIsRepeatedAdd` | 03_ReferenceLibrary/Demo2-Python-Bytecode-Exploration/utils.py:2-9 | `multiply_numbers(a, n)` equals `n` repeated `add_numbers` of `a`. Both are exact on unbounded integers. |
| `Utils.Repeat` | 03_ReferenceLibrary/Demo2-Python-Bytecode-Exploration/utils.py:14 | `c * n` has length `n`, and every character is `c`. |
| `Utils.Border` | 03_ReferenceLibrary/Demo2-Python-Bytecode-Exploration/utils.py:14 | The border is only `=` characters and has length `len(message) + 4`. |
| `Utils.FormatMessage` | 03_ReferenceLibrary/Demo2-Python-Bytecode-Exploration/utils.py:12-15 | The output has length `3*len(message) + 14`. It starts with the border and ends with the border. Each border is followed or preceded by a newline. Between the two newlines is `"  " + message + "  "`. |
| `Utils.UnframeFormatMessage` | 03_ReferenceLibrary/Demo2-Python-Bytecode-Exploration/utils.py:15 | The message can be read back from the framed text, so `format_message` is injective. |
| `Utils.FormatMessageLines` | 03_ReferenceLibrary/Demo2-Python-Bytecode-Exploration/utils.py:14-15 | For a message without a newline, `split("\n")` of the output gives exactly three lines: border, padded message, border. The first and last lines are identical, and the padded line has the border's length. |

## Left out

- The `demo` function, the `__main__` blocks and the `sys.argv` handling of both one_hot files are left out. They only print, and the `sentence.lower().split()` tokenising belongs to the caller (Python's Unicode case and whitespace rules).
- Tokens and messages are `string`, a sequence of Dafny `char`, which is a Unicode scalar value. A Python `str` may also hold lone surrogate code points (U+D800 to U+DFFF), for instance from `sys.argv` decoded with `surrogateescape`. Strings containing them are not covered, and `Less` is Python's `<` on `str` restricted to strings without them.
- Python's sorting algorithm is not modelled step by step. `SortedSet` builds the sorted set by insertion, and `SortedSequenceIsUnique` shows that any strictly sorted ordering of the same set is the same sequence.
- `index` is a Dafny `map`, which has no order. The insertion order of the Python dict, which follows `vocab`, is not modelled.
- Matrix rows are values (`seq<int>`). Each row is a fresh list that no one else references, so aliasing cannot be observed.
- `AddNumbers` and `MultiplyNumbers` are modelled on integers only. Python's `+` and `*` would also accept floats and strings.
- `bytecode_viewer.py` and `view_pyc.py` are not part of this model. They are file I/O, directory walking, printing, and calls to the `dis` and `marshal` modules.
- `app.py` is not part of this model. It reads an environment variable and prints.
- `math_operations.py` is not part of this model. It is floating point and a wrapper over `math.factorial`.
