/** The pieces of Rust's `str` API that the service relies on: `starts_with`, `trim`,
    `split_whitespace` and `lines`. */
module Text {

  /** Unicode White_Space, the set tested by Rust's `char::is_whitespace`
      (and so by `trim` and `split_whitespace`). */
  const WHITESPACE: seq<char> := [
    '\t', '\n', '\U{B}', '\U{C}', '\r', ' ', '\U{85}', '\U{A0}', '\U{1680}',
    '\U{2000}', '\U{2001}', '\U{2002}', '\U{2003}', '\U{2004}', '\U{2005}', '\U{2006}',
    '\U{2007}', '\U{2008}', '\U{2009}', '\U{200A}', '\U{2028}', '\U{2029}', '\U{202F}',
    '\U{205F}', '\U{3000}'
  ]

  predicate IsWhitespace(c: char) {
    ListedFrom(c, 0)
  }

  /** `c` occurs in WHITESPACE at index `i` or later. */
  predicate ListedFrom(c: char, i: nat)
    decreases |WHITESPACE| - i
  {
    i < |WHITESPACE| && (WHITESPACE[i] == c || ListedFrom(c, i + 1))
  }

  predicate AllWhitespace(s: string) {
    forall i :: 0 <= i < |s| ==> IsWhitespace(s[i])
  }

  predicate NoWhitespace(s: string) {
    forall i :: 0 <= i < |s| ==> !IsWhitespace(s[i])
  }

  predicate StartsWith(s: string, prefix: string) {
    |prefix| <= |s| && s[..|prefix|] == prefix
  }

  /** The characters of `s` that are not whitespace, in order. */
  function NonWhitespace(s: string): string {
    if s == [] then []
    else if IsWhitespace(s[0]) then NonWhitespace(s[1..])
    else [s[0]] + NonWhitespace(s[1..])
  }

  function Concat(fields: seq<string>): string {
    if fields == [] then [] else fields[0] + Concat(fields[1..])
  }

  /** `str::trim`: `s` without its leading and trailing whitespace. */
  function Trim(s: string): (r: string)
    ensures r == [] || (!IsWhitespace(r[0]) && !IsWhitespace(r[|r| - 1]))
    decreases |s|
  {
    if s != [] && IsWhitespace(s[0]) then Trim(s[1..])
    else if s != [] && IsWhitespace(s[|s| - 1]) then Trim(s[..|s| - 1])
    else s
  }

  /** Index of the last occurrence of `c` in `s`, or -1 when there is none. */
  function LastIndexOf(s: string, c: char): (k: int)
    ensures -1 <= k < |s|
    ensures k >= 0 ==> s[k] == c
    ensures forall i :: k < i < |s| ==> s[i] != c
  {
    if s == [] then -1
    else if s[|s| - 1] == c then |s| - 1
    else LastIndexOf(s[..|s| - 1], c)
  }

  /** Length of the run of non-whitespace characters at the start of `s`. */
  function FieldEnd(s: string): (k: nat)
    ensures k <= |s| && forall i :: 0 <= i < k ==> !IsWhitespace(s[i])
    ensures k < |s| ==> IsWhitespace(s[k])
  {
    if s == [] || IsWhitespace(s[0]) then 0 else 1 + FieldEnd(s[1..])
  }

  /** `str::split_whitespace`: the maximal runs of non-whitespace characters of `s`, in order. */
  function SplitWhitespace(s: string): (r: seq<string>)
    ensures forall i :: 0 <= i < |r| ==> r[i] != [] && NoWhitespace(r[i])
    decreases |s|
  {
    if s == [] then []
    else if IsWhitespace(s[0]) then SplitWhitespace(s[1..])
    else
      var k := FieldEnd(s);
      FieldIsWord(s, k);
      [s[..k]] + SplitWhitespace(s[k..])
  }

  /** Index of the first newline of `s`, or `|s|` when there is none. */
  function LineEnd(s: string): (k: nat)
    ensures k <= |s| && forall i :: 0 <= i < k ==> s[i] != '\n'
    ensures k < |s| ==> s[k] == '\n'
  {
    if s == [] || s[0] == '\n' then 0 else 1 + LineEnd(s[1..])
  }

  /** Drops the carriage return of a "\r\n" line ending. */
  function StripCarriageReturn(segment: string): string {
    if segment != [] && segment[|segment| - 1] == '\r' then segment[..|segment| - 1] else segment
  }

  /** `str::lines`: the pieces of `s` between newlines, each without the carriage return of a
      "\r\n" ending. A final newline does not start an empty line, and the last piece of a
      text without a final newline keeps a trailing "\r". */
  function Lines(s: string): seq<string>
    decreases |s|
  {
    if s == [] then []
    else
      var k := LineEnd(s);
      if k == |s| then [s] else [StripCarriageReturn(s[..k])] + Lines(s[k + 1..])
  }

  /** `s` with every carriage return that directly precedes a newline removed: the text whose
      newline-separated pieces are the lines `str::lines` yields. */
  function CrlfToLf(s: string): string
    decreases |s|
  {
    if s == [] then []
    else if |s| >= 2 && s[0] == '\r' && s[1] == '\n' then CrlfToLf(s[1..])
    else [s[0]] + CrlfToLf(s[1..])
  }

  /** Every line followed by a newline: the inverse of `Lines`. */
  function Terminated(lines: seq<string>): string {
    if lines == [] then [] else lines[0] + "\n" + Terminated(lines[1..])
  }

  // ---------------------------------------------------------------------------------------
  // Lemmas

  lemma SplitAt<T>(s: seq<T>, k: nat)
    requires k <= |s|
    ensures s == s[..k] + s[k..]
  {
  }

  lemma FieldIsWord(s: string, k: nat)
    requires k == FieldEnd(s) && s != [] && !IsWhitespace(s[0])
    ensures 0 < k && NoWhitespace(s[..k])
  {
  }

  lemma {:induction false} NonWhitespaceAppend(a: string, b: string)
    ensures NonWhitespace(a + b) == NonWhitespace(a) + NonWhitespace(b)
  {
    if a != [] {
      assert (a + b)[0] == a[0];
      assert (a + b)[1..] == a[1..] + b;
      NonWhitespaceAppend(a[1..], b);
    } else {
      assert a + b == b;
    }
  }

  lemma {:induction false} NonWhitespaceOfBlank(s: string)
    requires AllWhitespace(s)
    ensures NonWhitespace(s) == []
  {
    if s != [] {
      NonWhitespaceOfBlank(s[1..]);
    }
  }

  lemma {:induction false} NonWhitespaceOfWord(s: string)
    requires NoWhitespace(s)
    ensures NonWhitespace(s) == s
  {
    if s != [] {
      NonWhitespaceOfWord(s[1..]);
    }
  }

  lemma NonWhitespaceOfChar(c: char)
    ensures NonWhitespace([c]) == if IsWhitespace(c) then [] else [c]
  {
    assert [c][1..] == [];
  }

  /** Trimming removes whitespace only. */
  lemma {:induction false} TrimKeepsText(s: string)
    ensures NonWhitespace(Trim(s)) == NonWhitespace(s)
    decreases |s|
  {
    if s != [] && IsWhitespace(s[0]) {
      TrimKeepsText(s[1..]);
    } else if s != [] && IsWhitespace(s[|s| - 1]) {
      TrimKeepsText(s[..|s| - 1]);
      SplitAt(s, |s| - 1);
      NonWhitespaceAppend(s[..|s| - 1], s[|s| - 1..]);
      assert s[|s| - 1..] == [s[|s| - 1]];
      NonWhitespaceOfChar(s[|s| - 1]);
    }
  }

  /** A text trims to "1" exactly when "1" is its only non-blank character: this is how the
      removable attribute is read. */
  lemma TrimIsOne(s: string)
    ensures Trim(s) == "1" <==> NonWhitespace(s) == "1"
  {
    TrimKeepsText(s);
    if NonWhitespace(s) == "1" {
      SoleNonBlank(Trim(s));
    } else if Trim(s) == "1" {
      NonWhitespaceOfChar('1');
    }
  }

  /** A text with non-blank ends whose only non-blank character is '1' is "1". */
  lemma SoleNonBlank(r: string)
    requires r == [] || (!IsWhitespace(r[0]) && !IsWhitespace(r[|r| - 1]))
    requires NonWhitespace(r) == "1"
    ensures r == "1"
  {
    assert r != [];
    SplitAt(r, 1);
    NonWhitespaceAppend(r[..1], r[1..]);
    NonWhitespaceOfChar(r[0]);
    assert r[..1] == [r[0]];
    var m := r[1..];
    if m != [] {
      SplitAt(m, |m| - 1);
      NonWhitespaceAppend(m[..|m| - 1], m[|m| - 1..]);
    }
  }

  lemma ConcatCons(field: string, rest: seq<string>)
    ensures Concat([field] + rest) == field + Concat(rest)
  {
    assert ([field] + rest)[1..] == rest;
  }

  /** Splitting on whitespace keeps exactly the non-blank characters, in order. */
  lemma {:induction false} SplitWhitespaceKeepsText(s: string)
    ensures Concat(SplitWhitespace(s)) == NonWhitespace(s)
    decreases |s|
  {
    if s == [] {
    } else if IsWhitespace(s[0]) {
      SplitWhitespaceKeepsText(s[1..]);
    } else {
      var k := FieldEnd(s);
      FieldIsWord(s, k);
      SplitWhitespaceKeepsText(s[k..]);
      ConcatCons(s[..k], SplitWhitespace(s[k..]));
      SplitAt(s, k);
      NonWhitespaceAppend(s[..k], s[k..]);
      NonWhitespaceOfWord(s[..k]);
    }
  }

  lemma TerminatedCons(line: string, rest: seq<string>)
    ensures Terminated([line] + rest) == line + "\n" + Terminated(rest)
  {
    assert ([line] + rest)[1..] == rest;
  }

  /** The text with a final newline added when it does not already end with one. */
  function WithFinalNewline(s: string): string {
    if s == [] || s[|s| - 1] == '\n' then s else s + "\n"
  }

  /** Trimming removes exactly a whitespace prefix and a whitespace suffix: the result is a
      slice of the text between two blank runs. */
  lemma {:induction false} TrimIsInfix(s: string) returns (i: nat, j: nat)
    ensures i <= j <= |s| && Trim(s) == s[i..j]
    ensures AllWhitespace(s[..i]) && AllWhitespace(s[j..])
    decreases |s|
  {
    if s != [] && IsWhitespace(s[0]) {
      assert Trim(s) == Trim(s[1..]);
      var i', j' := TrimIsInfix(s[1..]);
      InfixAfterFirst(s, i', j');
      i, j := i' + 1, j' + 1;
    } else if s != [] && IsWhitespace(s[|s| - 1]) {
      assert Trim(s) == Trim(s[..|s| - 1]);
      i, j := TrimIsInfix(s[..|s| - 1]);
      InfixBeforeLast(s, i, j);
    } else {
      assert Trim(s) == s;
      i, j := 0, |s|;
      assert s[0..|s|] == s;
    }
  }

  /** A blank-delimited slice of `s[1..]` is one of `s` when `s[0]` is whitespace. */
  lemma InfixAfterFirst(s: string, i: nat, j: nat)
    requires s != [] && IsWhitespace(s[0]) && i <= j <= |s| - 1
    requires AllWhitespace(s[1..][..i]) && AllWhitespace(s[1..][j..])
    ensures s[1..][i..j] == s[i + 1..j + 1]
    ensures AllWhitespace(s[..i + 1]) && AllWhitespace(s[j + 1..])
  {
    AllWhitespaceCons(s[0], s[1..][..i]);
    assert s[..i + 1] == [s[0]] + s[1..][..i];
    assert s[j + 1..] == s[1..][j..];
  }

  /** A blank-delimited slice of `s[..|s| - 1]` is one of `s` when the last character of `s`
      is whitespace. */
  lemma InfixBeforeLast(s: string, i: nat, j: nat)
    requires s != [] && IsWhitespace(s[|s| - 1]) && i <= j <= |s| - 1
    requires AllWhitespace(s[..|s| - 1][..i]) && AllWhitespace(s[..|s| - 1][j..])
    ensures s[..|s| - 1][i..j] == s[i..j]
    ensures AllWhitespace(s[..i]) && AllWhitespace(s[j..])
  {
    var t := s[..|s| - 1];
    assert t[..i] == s[..i];
    AllWhitespaceSnoc(t[j..], s[|s| - 1]);
    assert s[j..] == t[j..] + [s[|s| - 1]];
  }

  lemma AllWhitespaceCons(c: char, s: string)
    requires IsWhitespace(c) && AllWhitespace(s)
    ensures AllWhitespace([c] + s)
  {
    assert forall i :: 0 < i <= |s| ==> ([c] + s)[i] == s[i - 1];
  }

  lemma AllWhitespaceSnoc(s: string, c: char)
    requires AllWhitespace(s) && IsWhitespace(c)
    ensures AllWhitespace(s + [c])
  {
    assert forall i :: 0 <= i < |s| ==> (s + [c])[i] == s[i];
  }

  /** The length of the leading field is determined by where the first whitespace character is. */
  lemma FieldEndAt(s: string, k: nat)
    requires k <= |s| && forall i :: 0 <= i < k ==> !IsWhitespace(s[i])
    requires k < |s| ==> IsWhitespace(s[k])
    ensures FieldEnd(s) == k
  {
  }

  /** A non-empty word without whitespace is a single field. */
  lemma SplitWhitespaceOfWord(word: string)
    requires word != [] && NoWhitespace(word)
    ensures SplitWhitespace(word) == [word]
  {
    FieldEndAt(word, |word|);
    assert word[..|word|] == word;
    assert SplitWhitespace(word) == [word[..|word|]] + SplitWhitespace(word[|word|..]);
  }

  /** A blank text has no fields. */
  lemma {:induction false} SplitWhitespaceOfBlank(s: string)
    requires AllWhitespace(s)
    ensures SplitWhitespace(s) == []
    decreases |s|
  {
    if s != [] {
      assert AllWhitespace(s[1..]);
      SplitWhitespaceOfBlank(s[1..]);
    }
  }

  /** A whitespace character separates fields: the fields of `a + [w] + b` are those of `a`
      followed by those of `b`. With the two lemmas above this makes the fields the maximal
      non-whitespace runs. */
  lemma {:induction false} SplitWhitespaceAround(a: string, w: char, b: string)
    requires IsWhitespace(w)
    ensures SplitWhitespace(a + [w] + b) == SplitWhitespace(a) + SplitWhitespace(b)
    decreases |a|
  {
    var s := a + [w] + b;
    if a == [] {
      assert s[1..] == b;
    } else if IsWhitespace(a[0]) {
      assert s[1..] == a[1..] + [w] + b;
      SplitWhitespaceAround(a[1..], w, b);
    } else {
      var k := FieldEnd(a);
      SplitWhitespaceAround(a[k..], w, b);
      SplitWhitespaceAroundField(a, w, b, k);
    }
  }

  lemma PrefixOfAppend(a: string, c: string, k: nat)
    requires k <= |a|
    ensures (a + c)[..k] == a[..k]
  {
  }

  /** The step of `SplitWhitespaceAround` for a text `a` that starts with a field of length `k`. */
  lemma SplitWhitespaceAroundField(a: string, w: char, b: string, k: nat)
    requires IsWhitespace(w) && a != [] && !IsWhitespace(a[0]) && k == FieldEnd(a)
    requires SplitWhitespace(a[k..] + [w] + b) == SplitWhitespace(a[k..]) + SplitWhitespace(b)
    ensures SplitWhitespace(a + [w] + b) == SplitWhitespace(a) + SplitWhitespace(b)
  {
    var s := a + [w] + b;
    assert s[k] == if k < |a| then a[k] else w;
    FieldEndAt(s, k);
    PrefixOfAppend(a + [w], b, k);
    PrefixOfAppend(a, [w], k);
    assert s[k..] == a[k..] + [w] + b;
    calc {
      SplitWhitespace(s);
      [s[..k]] + SplitWhitespace(s[k..]);
      [a[..k]] + (SplitWhitespace(a[k..]) + SplitWhitespace(b));
      ([a[..k]] + SplitWhitespace(a[k..])) + SplitWhitespace(b);
      { assert SplitWhitespace(a) == [a[..k]] + SplitWhitespace(a[k..]); }
      SplitWhitespace(a) + SplitWhitespace(b);
    }
  }

  /** Text without newlines has no "\r\n" pair to reduce. */
  lemma {:induction false} CrlfToLfWithoutNewline(a: string)
    requires forall i :: 0 <= i < |a| ==> a[i] != '\n'
    ensures CrlfToLf(a) == a
    decreases |a|
  {
    if a != [] {
      CrlfToLfWithoutNewline(a[1..]);
      assert a == [a[0]] + a[1..];
    }
  }

  /** Reducing a text whose first newline ends the piece `a` drops the carriage return that
      ends `a`, if any, and leaves the rest of the piece alone. */
  lemma {:induction false} CrlfToLfSplit(a: string, b: string)
    requires forall i :: 0 <= i < |a| ==> a[i] != '\n'
    ensures CrlfToLf(a + "\n" + b) == StripCarriageReturn(a) + "\n" + CrlfToLf(b)
    decreases |a|
  {
    var s := a + "\n" + b;
    if a == [] {
      assert s[1..] == b;
    } else if |a| == 1 && a[0] == '\r' {
      assert s[1..] == "\n" + b;
      assert s[1..][1..] == b;
    } else {
      CrlfToLfSplit(a[1..], b);
      CrlfToLfSplitStep(a, b);
    }
  }

  /** The step of `CrlfToLfSplit` for a piece that does not consist of a lone carriage return. */
  lemma CrlfToLfSplitStep(a: string, b: string)
    requires a != [] && !(|a| == 1 && a[0] == '\r') && forall i :: 0 <= i < |a| ==> a[i] != '\n'
    requires CrlfToLf(a[1..] + "\n" + b) == StripCarriageReturn(a[1..]) + "\n" + CrlfToLf(b)
    ensures CrlfToLf(a + "\n" + b) == StripCarriageReturn(a) + "\n" + CrlfToLf(b)
  {
    CrlfToLfHead(a, b);
    StripCarriageReturnCons(a);
    ConsBeforeNewline(a[0], CrlfToLf(a + "\n" + b), CrlfToLf(a[1..] + "\n" + b),
      StripCarriageReturn(a), StripCarriageReturn(a[1..]), CrlfToLf(b));
  }

  /** Putting a character in front of a piece that precedes a newline. */
  lemma ConsBeforeNewline(c: char, whole: string, tail: string, piece: string, tailPiece: string, rest: string)
    requires whole == [c] + tail && tail == tailPiece + "\n" + rest && piece == [c] + tailPiece
    ensures whole == piece + "\n" + rest
  {
  }

  /** The first character of a line that is not a lone "\r" is kept. */
  lemma CrlfToLfHead(a: string, b: string)
    requires a != [] && !(|a| == 1 && a[0] == '\r') && forall i :: 0 <= i < |a| ==> a[i] != '\n'
    ensures CrlfToLf(a + "\n" + b) == [a[0]] + CrlfToLf(a[1..] + "\n" + b)
  {
    var s := a + "\n" + b;
    assert s[0] == a[0] && (|a| >= 2 ==> s[1] == a[1]);
    CrlfToLfCons(s);
    assert s[1..] == a[1..] + "\n" + b;
  }

  /** A character that does not start a "\r\n" pair is kept. */
  lemma CrlfToLfCons(s: string)
    requires s != [] && !(|s| >= 2 && s[0] == '\r' && s[1] == '\n')
    ensures CrlfToLf(s) == [s[0]] + CrlfToLf(s[1..])
  {
  }

  lemma StripCarriageReturnCons(a: string)
    requires a != [] && !(|a| == 1 && a[0] == '\r')
    ensures StripCarriageReturn(a) == [a[0]] + StripCarriageReturn(a[1..])
  {
    if |a| == 1 {
      assert a == [a[0]];
    } else if a[|a| - 1] == '\r' {
      assert a[..|a| - 1] == [a[0]] + a[1..][..|a| - 2];
    } else {
      assert a == [a[0]] + a[1..];
    }
  }

  /** The lines of a text whose first newline is at `k`: the piece before it, without a
      carriage return that ends it, then the lines of the rest. */
  lemma LinesCons(s: string, k: nat)
    requires s != [] && k == LineEnd(s) && k < |s|
    ensures Lines(s) == [StripCarriageReturn(s[..k])] + Lines(s[k + 1..])
  {
    assert Lines(s) == if LineEnd(s) == |s| then [s] else [StripCarriageReturn(s[..LineEnd(s)])] + Lines(s[LineEnd(s) + 1..]);
  }

  /** No line contains a newline. */
  lemma {:induction false} LinesHaveNoNewline(s: string)
    ensures forall i :: 0 <= i < |Lines(s)| ==> '\n' !in Lines(s)[i]
    decreases |s|
  {
    if s != [] {
      var k := LineEnd(s);
      if k == |s| {
        assert Lines(s) == [s];
      } else {
        LinesCons(s, k);
        LinesHaveNoNewline(s[k + 1..]);
        var line := StripCarriageReturn(s[..k]);
        assert forall j :: 0 <= j < |line| ==> line[j] == s[j];
      }
    }
  }

  lemma LastLine(s: string)
    requires s != [] && LineEnd(s) == |s|
    ensures Terminated(Lines(s)) == WithFinalNewline(CrlfToLf(s))
  {
    assert Lines(s) == [s];
    CrlfToLfWithoutNewline(s);
    TerminatedCons(s, []);
  }

  lemma WithFinalNewlineAfter(x: string, y: string)
    ensures WithFinalNewline(x + "\n" + y) == x + "\n" + WithFinalNewline(y)
  {
    var s := x + "\n" + y;
    if y != [] {
      assert s[|s| - 1] == y[|y| - 1];
      assert s + "\n" == x + "\n" + (y + "\n");
    }
  }

  /** `str::lines` loses nothing but line endings: the lines, each followed by a newline, are
      the text with its "\r\n" endings reduced to "\n" and a final newline added when missing. */
  lemma {:induction false} LinesRoundTrip(s: string)
    ensures Terminated(Lines(s)) == WithFinalNewline(CrlfToLf(s))
    decreases |s|
  {
    if s != [] {
      var k := LineEnd(s);
      if k == |s| {
        LastLine(s);
      } else {
        LinesRoundTrip(s[k + 1..]);
        LinesRoundTripStep(s, k);
      }
    }
  }

  /** The round trip for a text whose first newline is at `k`, given that of the rest. */
  lemma LinesRoundTripStep(s: string, k: nat)
    requires s != [] && k == LineEnd(s) && k < |s|
    requires Terminated(Lines(s[k + 1..])) == WithFinalNewline(CrlfToLf(s[k + 1..]))
    ensures Terminated(Lines(s)) == WithFinalNewline(CrlfToLf(s))
  {
    var rest := s[k + 1..];
    var line := StripCarriageReturn(s[..k]);
    calc {
      Terminated(Lines(s));
      { LinesCons(s, k); }
      Terminated([line] + Lines(rest));
      { TerminatedCons(line, Lines(rest)); }
      line + "\n" + Terminated(Lines(rest));
      line + "\n" + WithFinalNewline(CrlfToLf(rest));
      { WithFinalNewlineAfter(line, CrlfToLf(rest)); }
      WithFinalNewline(line + "\n" + CrlfToLf(rest));
      { CrlfToLfSplit(s[..k], rest); }
      WithFinalNewline(CrlfToLf(s[..k] + "\n" + rest));
      { SplitAtNewline(s, k); }
      WithFinalNewline(CrlfToLf(s));
    }
  }

  lemma SplitAtNewline(s: string, k: nat)
    requires k < |s| && s[k] == '\n'
    ensures s == s[..k] + "\n" + s[k + 1..]
  {
    assert s == s[..k] + [s[k]] + s[k + 1..];
  }
}
