// Greedy word wrapping of the "Additional Information" text of an error report.
//
// Strings are sequences of `char`; a Java `String` length counts UTF-16 code
// units, which is what `|s|` counts here when every char is one code unit.
module LineWrapper {

  const WrapLength := 80
  /** The indentation put after every inserted line break. */
  const Indent := "  "
  const Break := "\n" + Indent

  // ---------------------------------------------------------------------
  // String.split(" ")

  /** Every piece between single spaces, empty pieces included. */
  function SplitAll(s: string): (r: seq<string>)
    ensures |r| >= 1
    ensures forall i :: 0 <= i < |r| ==> ' ' !in r[i]
    decreases |s|
  {
    if s == [] then [[]]
    else
      var rest := SplitAll(s[1..]);
      if s[0] == ' ' then [[]] + rest else [[s[0]] + rest[0]] + rest[1..]
  }

  /** The pieces put back together with a single space between each two. */
  function JoinWithSpaces(parts: seq<string>): string
    requires |parts| >= 1
    decreases |parts|
  {
    if |parts| == 1 then parts[0] else parts[0] + " " + JoinWithSpaces(parts[1..])
  }

  /** Splitting at every space loses nothing. */
  lemma {:induction false} JoinSplitAll(s: string)
    ensures JoinWithSpaces(SplitAll(s)) == s
    decreases |s|
  {
    if s != [] {
      var rest := SplitAll(s[1..]);
      JoinSplitAll(s[1..]);
      if s[0] == ' ' {
        assert ([[]] + rest)[1..] == rest;
      } else {
        var r := [[s[0]] + rest[0]] + rest[1..];
        assert r[1..] == rest[1..];
        if |rest| > 1 {
          assert JoinWithSpaces(rest) == rest[0] + " " + JoinWithSpaces(rest[1..]);
        }
      }
    }
  }

  /** Drops the empty strings at the end, as Java's split with limit 0 does. */
  function DropTrailingEmpty(parts: seq<string>): (r: seq<string>)
    ensures |r| <= |parts| && r == parts[..|r|]
    ensures r != [] ==> r[|r| - 1] != []
    ensures forall i :: |r| <= i < |parts| ==> parts[i] == []
    decreases |parts|
  {
    if parts == [] then []
    else if parts[|parts| - 1] == [] then DropTrailingEmpty(parts[..|parts| - 1])
    else parts
  }

  /**
   * String.split(" "): a string without a space is its own only piece;
   * otherwise the pieces between spaces, trailing empty ones dropped.
   */
  function Split(s: string): (words: seq<string>)
  {
    if ' ' !in s then [s] else DropTrailingEmpty(SplitAll(s))
  }

  /** The words are the text's pieces in order; only empty pieces at the end are lost. */
  lemma SplitWords(s: string)
    ensures forall i :: 0 <= i < |Split(s)| ==> ' ' !in Split(s)[i]
    ensures |Split(s)| <= |SplitAll(s)| && Split(s) == SplitAll(s)[..|Split(s)|]
    ensures forall i :: |Split(s)| <= i < |SplitAll(s)| ==> SplitAll(s)[i] == []
    ensures JoinWithSpaces(SplitAll(s)) == s
  {
    JoinSplitAll(s);
    if ' ' !in s {
      SplitAllWithoutSpace(s);
    }
  }

  lemma {:induction false} SplitAllWithoutSpace(s: string)
    requires ' ' !in s
    ensures SplitAll(s) == [s]
    decreases |s|
  {
    if s != [] {
      assert ' ' !in s[1..] by {
        forall c | c in s[1..] ensures c != ' ' {
          assert c in s;
        }
      }
      SplitAllWithoutSpace(s[1..]);
      assert [s[0]] + s[1..] == s;
    }
  }

  // ---------------------------------------------------------------------
  // String.trim()

  /** The characters trim removes: every code at or below the space. */
  predicate Blank(c: char) {
    c <= ' '
  }

  function LeadingBlanks(s: string): (k: nat)
    ensures k <= |s|
    ensures forall i :: 0 <= i < k ==> Blank(s[i])
    ensures k < |s| ==> !Blank(s[k])
    decreases |s|
  {
    if s != [] && Blank(s[0]) then 1 + LeadingBlanks(s[1..]) else 0
  }

  function TrailingBlanks(s: string): (k: nat)
    ensures k <= |s|
    ensures forall i :: |s| - k <= i < |s| ==> Blank(s[i])
    ensures k < |s| ==> !Blank(s[|s| - 1 - k])
    decreases |s|
  {
    if s != [] && Blank(s[|s| - 1]) then 1 + TrailingBlanks(s[..|s| - 1]) else 0
  }

  /** String.trim(): the blank characters at both ends removed. */
  function Trim(s: string): string {
    var t := s[LeadingBlanks(s)..];
    t[..|t| - TrailingBlanks(t)]
  }

  /** Trim keeps a contiguous slice that begins and ends with a non-blank character. */
  lemma TrimShape(s: string) returns (i: nat, j: nat)
    ensures i <= j <= |s| && Trim(s) == s[i..j]
    ensures forall k :: 0 <= k < i ==> Blank(s[k])
    ensures forall k :: j <= k < |s| ==> Blank(s[k])
    ensures Trim(s) == [] || (!Blank(Trim(s)[0]) && !Blank(Trim(s)[|Trim(s)| - 1]))
  {
    i := LeadingBlanks(s);
    var t := s[i..];
    j := i + |t| - TrailingBlanks(t);
    assert t[..|t| - TrailingBlanks(t)] == s[i..j];
    forall k | j <= k < |s|
      ensures Blank(s[k])
    {
      assert s[k] == t[k - i];
    }
  }

  // ---------------------------------------------------------------------
  // The wrapping loop

  /**
   * The text the loop has built once it has appended `words` to `out`,
   * with `column` characters already on the current line.
   */
  function Fill(out: string, column: int, words: seq<string>): string
    decreases |words|
  {
    if words == [] then out
    else
      var w := words[0];
      var broken := column + |w| + 1 > WrapLength;
      var out' := if broken then out + "\n" + Indent else out;
      var column' := if broken then |Indent| else column;
      Fill(out' + w + " ", column' + |w| + 1, words[1..])
  }

  /** wrapText: the empty text unchanged, otherwise the filled words with the ends trimmed. */
  function Wrapped(text: string): string {
    if text == [] then text else Trim(Fill([], 0, Split(text)))
  }

  /**
   * wrapText, as the loop over the words of `text.split(" ")` that appends
   * a break before a word that would run past the wrap length.
   */
  method WrapText(text: string) returns (r: string)
    ensures r == Wrapped(text)
    ensures text == [] ==> r == []
    ensures r == [] || (!Blank(r[0]) && !Blank(r[|r| - 1]))
  {
    if text == [] {
      return text;
    }
    var wrappedText: string := [];
    var words := Split(text);
    var currentLength := 0;
    var i := 0;
    while i < |words|
      invariant 0 <= i <= |words|
      invariant Fill([], 0, words) == Fill(wrappedText, currentLength, words[i..])
    {
      var word := words[i];
      if currentLength + |word| + 1 > WrapLength {
        wrappedText := wrappedText + "\n" + Indent;
        currentLength := |Indent|;
      }
      wrappedText := wrappedText + word + " ";
      currentLength := currentLength + |word| + 1;
      i := i + 1;
    }
    assert words[i..] == [];
    r := Trim(wrappedText);
    var _, _ := TrimShape(wrappedText);
  }

  // ---------------------------------------------------------------------
  // What the loop promises

  /** Whether a break goes before each word, given the column the first starts at. */
  function Breaks(column: int, words: seq<string>): (bs: seq<bool>)
    ensures |bs| == |words|
    decreases |words|
  {
    if words == [] then []
    else
      var w := words[0];
      var broken := column + |w| + 1 > WrapLength;
      [broken] + Breaks((if broken then |Indent| else column) + |w| + 1, words[1..])
  }

  /** The words in order, each followed by one space and preceded by a break where `bs` says. */
  function Render(words: seq<string>, bs: seq<bool>): string
    requires |bs| == |words|
    decreases |words|
  {
    if words == [] then []
    else (if bs[0] then Break else []) + words[0] + " " + Render(words[1..], bs[1..])
  }

  /** The loop appends every word, in order, followed by one space; breaks only go between. */
  lemma {:induction false} FillRenders(out: string, column: int, words: seq<string>)
    ensures Fill(out, column, words) == out + Render(words, Breaks(column, words))
    decreases |words|
  {
    if words != [] {
      var w := words[0];
      var broken := column + |w| + 1 > WrapLength;
      var out' := if broken then out + "\n" + Indent else out;
      var column' := (if broken then |Indent| else column) + |w| + 1;
      FillRenders(out' + w + " ", column', words[1..]);
      assert out + "\n" + Indent == out + Break;
      var bs := Breaks(column, words);
      assert bs[1..] == Breaks(column', words[1..]);
    }
  }

  /** Without breaks the rendering is the words joined and ended by single spaces. */
  lemma {:induction false} RenderWithoutBreaks(words: seq<string>, bs: seq<bool>)
    requires |bs| == |words| >= 1
    requires forall i :: 0 <= i < |bs| ==> !bs[i]
    ensures Render(words, bs) == JoinWithSpaces(words) + " "
    decreases |words|
  {
    if |words| > 1 {
      RenderWithoutBreaks(words[1..], bs[1..]);
    }
  }

  /** The column the `k`-th word starts at, counted as the loop counts it. */
  function ColumnBefore(column: int, words: seq<string>, k: nat): int
    requires k <= |words|
    decreases k
  {
    if k == 0 then column
    else
      var prev := ColumnBefore(column, words, k - 1);
      var w := words[k - 1];
      (if prev + |w| + 1 > WrapLength then |Indent| else prev) + |w| + 1
  }

  /** A break goes before a word exactly when it would not fit on the current line. */
  lemma {:induction false} BreakExactlyWhenTooLong(column: int, words: seq<string>, k: nat)
    requires k < |words|
    ensures Breaks(column, words)[k]
      <==> ColumnBefore(column, words, k) + |words[k]| + 1 > WrapLength
    decreases k
  {
    if k > 0 {
      var w := words[0];
      var column' := (if column + |w| + 1 > WrapLength then |Indent| else column) + |w| + 1;
      BreakExactlyWhenTooLong(column', words[1..], k - 1);
      ColumnShift(column, words, k);
    }
  }

  lemma {:induction false} ColumnShift(column: int, words: seq<string>, k: nat)
    requires 0 < k <= |words|
    ensures var w := words[0];
      ColumnBefore(column, words, k)
        == ColumnBefore((if column + |w| + 1 > WrapLength then |Indent| else column) + |w| + 1, words[1..], k - 1)
    decreases k
  {
    if k > 1 {
      ColumnShift(column, words, k - 1);
    }
  }

  // ---------------------------------------------------------------------
  // Line lengths

  /** Every stretch of `s` without a line break has at most `n` characters. */
  predicate LinesAtMost(s: string, n: int) {
    forall a, b :: 0 <= a <= b <= |s| && '\n' !in s[a..b] ==> b - a <= n
  }

  /** The current (last) line of `s` has at most `c` characters. */
  predicate LastLineAtMost(s: string, c: int) {
    forall a :: 0 <= a <= |s| && '\n' !in s[a..] ==> |s| - a <= c
  }

  lemma NoNewlineInPart(s: string, a: int, b: int, c: int, d: int)
    requires 0 <= a <= c <= d <= b <= |s| && '\n' !in s[a..b]
    ensures '\n' !in s[c..d]
  {
    forall k | 0 <= k < d - c
      ensures s[c..d][k] != '\n'
    {
      assert s[c..d][k] == s[a..b][k + c - a];
    }
  }

  /** Appending text that fits on the current line; a line break inside it
      only shortens the stretches it separates. */
  lemma AppendOnLine(s: string, t: string, c: int, n: int)
    requires LinesAtMost(s, n) && LastLineAtMost(s, c) && c + |t| <= n
    ensures LinesAtMost(s + t, n) && LastLineAtMost(s + t, c + |t|)
  {
    var u := s + t;
    assert '\n' !in s[|s|..];
    forall a, b | 0 <= a <= b <= |u| && '\n' !in u[a..b]
      ensures b - a <= n
    {
      if b <= |s| {
        assert u[a..b] == s[a..b];
      } else if a < |s| {
        NoNewlineInPart(u, a, b, a, |s|);
        assert u[a..|s|] == s[a..];
      } else {
        assert b - a <= |t|;
      }
    }
    forall a | 0 <= a <= |u| && '\n' !in u[a..]
      ensures |u| - a <= c + |t|
    {
      if a < |s| {
        NoNewlineInPart(u, a, |u|, a, |s|);
        assert u[a..|s|] == s[a..];
      }
    }
  }

  /** Appending a break and the indentation starts a new line of two characters. */
  lemma AppendBreak(s: string, n: int)
    requires LinesAtMost(s, n) && 2 <= n
    ensures LinesAtMost(s + Break, n) && LastLineAtMost(s + Break, |Indent|)
  {
    var u := s + Break;
    forall a, b | 0 <= a <= b <= |u|
      ensures '\n' !in u[a..b] ==> b - a <= n
    {
      if b <= |s| {
        assert u[a..b] == s[a..b];
      } else if a <= |s| {
        assert u[a..b][|s| - a] == '\n';
      }
    }
    forall a | 0 <= a <= |u|
      ensures '\n' !in u[a..] ==> |u| - a <= |Indent|
    {
      if a <= |s| {
        assert u[a..][|s| - a] == '\n';
      }
    }
  }

  /** Words that fit after the indentation never make a line longer than the wrap length. */
  lemma {:induction false} FillKeepsLinesShort(out: string, column: int, words: seq<string>)
    requires LinesAtMost(out, WrapLength) && LastLineAtMost(out, column) && column <= WrapLength
    requires forall i :: 0 <= i < |words| ==> |words[i]| <= WrapLength - |Indent| - 1
    ensures LinesAtMost(Fill(out, column, words), WrapLength)
    decreases |words|
  {
    if words != [] {
      var w := words[0];
      var broken := column + |w| + 1 > WrapLength;
      var out' := if broken then out + "\n" + Indent else out;
      var column' := if broken then |Indent| else column;
      if broken {
        AppendBreak(out, WrapLength);
        assert out + "\n" + Indent == out + Break;
      }
      AppendOnLine(out', w + " ", column', WrapLength);
      assert out' + (w + " ") == out' + w + " ";
      FillKeepsLinesShort(out' + w + " ", column' + |w| + 1, words[1..]);
    }
  }

  /** Trimming only cuts characters off the ends, so lines only get shorter. */
  lemma TrimKeepsLinesShort(s: string, n: int)
    requires LinesAtMost(s, n)
    ensures LinesAtMost(Trim(s), n)
  {
    var i, j := TrimShape(s);
    var r := Trim(s);
    forall a, b | 0 <= a <= b <= |r| && '\n' !in r[a..b]
      ensures b - a <= n
    {
      SliceOfSlice(s, i, j, a, b);
    }
  }

  lemma SliceOfSlice(s: string, i: int, j: int, a: int, b: int)
    requires 0 <= i <= j <= |s| && 0 <= a <= b <= j - i
    ensures s[i..j][a..b] == s[i + a..i + b]
  {
    forall k | 0 <= k < b - a
      ensures s[i..j][a..b][k] == s[i + a..i + b][k]
    {
    }
  }

  /**
   * When no word is longer than 77 characters, no line of the result is
   * longer than 80, whatever line breaks the text brings along.
   */
  lemma WrappedLinesAtMost80(text: string)
    requires forall i :: 0 <= i < |Split(text)| ==> |Split(text)[i]| <= 77
    ensures LinesAtMost(Wrapped(text), WrapLength)
  {
    if text != [] {
      var words := Split(text);
      FillKeepsLinesShort([], 0, words);
      TrimKeepsLinesShort(Fill([], 0, words), WrapLength);
    }
  }

  /**
   * The 80-column bound needs the bound on word length: a text that is a
   * single word of 81 characters without blanks is broken before the word
   * and trimmed back to itself, one line of 81 characters.
   */
  lemma LongWordStaysWhole(w: string)
    requires |w| == WrapLength + 1
    requires forall i :: 0 <= i < |w| ==> !Blank(w[i])
    ensures Wrapped(w) == w
    ensures !LinesAtMost(Wrapped(w), WrapLength)
  {
    assert ' ' !in w;
    assert Split(w) == [w];
    var filled := "\n" + Indent + w + " ";
    assert Fill([], 0, [w]) == Fill(filled, |Indent| + |w| + 1, []);
    assert Fill([], 0, [w]) == ("\n" + Indent) + w + " ";
    TrimAround("\n" + Indent, w, " ");
    assert w[0..|w|] == w;
  }

  /** Trimming blanks around a text that starts and ends with a non-blank
      character gives back that text. */
  lemma TrimAround(pre: string, w: string, post: string)
    requires forall i :: 0 <= i < |pre| ==> Blank(pre[i])
    requires forall i :: 0 <= i < |post| ==> Blank(post[i])
    requires w != [] && !Blank(w[0]) && !Blank(w[|w| - 1])
    ensures Trim(pre + w + post) == w
  {
    var s := pre + w + post;
    var k := LeadingBlanks(s);
    assert s[|pre|] == w[0];
    var t := s[k..];
    assert t == w + post;
    var m := TrailingBlanks(t);
    assert !Blank(t[|w| - 1]);
    assert t[..|t| - m] == w;
  }
}
