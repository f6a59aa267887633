/**
  The helpers of the bytecode-exploration demo (utils.py): integer addition
  and multiplication, and `format_message`, which frames a message between
  two borders of `=` characters, each four longer than the message. For
  "hello" (the middle line also ends in two spaces, not visible here):

      =========
        hello
      =========
 */
module Utils {

  /** `add_numbers(a, b)`; Python integers are unbounded, like Dafny's `int`. */
  function AddNumbers(a: int, b: int): int
  {
    a + b
  }

  /** `multiply_numbers(a, b)` on unbounded integers. */
  function MultiplyNumbers(a: int, b: int): int
  {
    a * b
  }

  /** `n` additions of `a` to zero, written with `AddNumbers`. */
  function RepeatedAdd(a: int, n: nat): int
  {
    if n == 0 then 0 else AddNumbers(RepeatedAdd(a, n - 1), a)
  }

  /** Multiplying by a natural number is repeated addition, and both helpers
      are exact: no wrap-around at any width. */
  lemma {:induction false} MultiplyIsRepeatedAdd(a: int, n: nat)
    ensures MultiplyNumbers(a, n) == RepeatedAdd(a, n)
  {
    if n > 0 {
      MultiplyIsRepeatedAdd(a, n - 1);
    }
  }

  /** `c * n` on a one-character string. */
  function Repeat(c: char, n: nat): (s: string)
    ensures |s| == n
    ensures forall i :: 0 <= i < n ==> s[i] == c
  {
    if n == 0 then "" else [c] + Repeat(c, n - 1)
  }

  /** `"=" * (len(message) + 4)`. */
  function Border(message: string): (border: string)
    ensures |border| == |message| + 4
    ensures forall i :: 0 <= i < |border| ==> border[i] == '='
  {
    Repeat('=', |message| + 4)
  }

  /** `f"{border}\n  {message}  \n{border}"`. */
  function FormatMessage(message: string): (framed: string)
    ensures |framed| == 3 * |message| + 14
    ensures framed[..|message| + 4] == Border(message)
    ensures framed[|message| + 4] == '\n'
    ensures framed[|message| + 5..2 * |message| + 9] == "  " + message + "  "
    ensures framed[2 * |message| + 9] == '\n'
    ensures framed[2 * |message| + 10..] == Border(message)
  {
    var border := Border(message);
    var framed := border + "\n  " + message + "  \n" + border;
    assert framed == border + "\n" + ("  " + message + "  ") + "\n" + border;
    framed
  }

  /** Recovers the message from a framed text: it sits between the first
      border plus two spaces and the trailing two spaces plus border. */
  function Unframe(framed: string): (message: string)
  {
    if |framed| < 14 || (|framed| - 14) % 3 != 0 then ""
    else
      var n := (|framed| - 14) / 3;
      framed[n + 7..2 * n + 7]
  }

  lemma UnframeAt(framed: string, n: nat)
    requires |framed| == 3 * n + 14
    ensures Unframe(framed) == framed[n + 7..2 * n + 7]
  {
    assert (|framed| - 14) / 3 == n;
  }

  /** `format_message` loses nothing: the message can be read back. */
  lemma UnframeFormatMessage(message: string)
    ensures Unframe(FormatMessage(message)) == message
  {
    var framed := FormatMessage(message);
    var n := |message|;
    UnframeAt(framed, n);
    var middle := framed[n + 5..2 * n + 9];
    assert framed[n + 7..2 * n + 7] == middle[2..n + 2];
  }

  /** Python's `s.split("\n")`: the pieces between newlines, always at least one. */
  function SplitLines(s: string): (lines: seq<string>)
    ensures |lines| >= 1
    decreases |s|
  {
    if |s| == 0 then [""]
    else
      var rest := SplitLines(s[1..]);
      if s[0] == '\n' then [""] + rest
      else [[s[0]] + rest[0]] + rest[1..]
  }

  lemma {:induction false} SplitLinesWithoutNewline(a: string)
    requires '\n' !in a
    ensures SplitLines(a) == [a]
    decreases |a|
  {
    if |a| > 0 {
      SplitLinesWithoutNewline(a[1..]);
      assert a == [a[0]] + a[1..];
    }
  }

  lemma {:induction false} SplitLinesAtFirstNewline(a: string, b: string)
    requires '\n' !in a
    ensures SplitLines(a + "\n" + b) == [a] + SplitLines(b)
    decreases |a|
  {
    if |a| == 0 {
      assert a + "\n" + b == "\n" + b;
      assert ("\n" + b)[1..] == b;
    } else {
      SplitLinesAtFirstNewline(a[1..], b);
      assert (a + "\n" + b)[1..] == a[1..] + "\n" + b;
      assert a == [a[0]] + a[1..];
    }
  }

  /** For a single-line message the output is exactly three lines: the border,
      the message padded by two spaces on each side, and the border again;
      all three lines have the same length. */
  lemma FormatMessageLines(message: string)
    requires '\n' !in message
    ensures SplitLines(FormatMessage(message)) == [Border(message), "  " + message + "  ", Border(message)]
    ensures |"  " + message + "  "| == |Border(message)|
  {
    var border := Border(message);
    var middle := "  " + message + "  ";
    assert '\n' !in border;
    assert '\n' !in middle by {
      forall i | 0 <= i < |middle| ensures middle[i] != '\n' {
        if 2 <= i < |message| + 2 {
          assert middle[i] == message[i - 2];
        }
      }
    }
    var framed := FormatMessage(message);
    assert framed == border + "\n" + (middle + "\n" + border);
    SplitLinesAtFirstNewline(border, middle + "\n" + border);
    SplitLinesAtFirstNewline(middle, border);
    SplitLinesWithoutNewline(border);
  }
}
