/**
 * The pieces of the Kotlin standard library that the repository's codec leans on:
 * `Char.isWhitespace`, `String.trim`, `isBlank`, `lineSequence`, `Int.toString`,
 * `String.toIntOrNull`, and the 32-bit wrap-around of `Int` addition.
 */
module Text {
  import opened Wrappers
  import opened Seqs

  // ---------------------------------------------------------------------------
  // Whitespace, trimming, blank lines
  // ---------------------------------------------------------------------------

  /**
   * `Char.isWhitespace` on the JVM: `Character.isWhitespace(c) || Character.isSpaceChar(c)`,
   * that is the control characters U+0009..U+000D and U+001C..U+001F, and every
   * space, line and paragraph separator (including the no-break spaces).
   */
  predicate IsWhitespace(c: char) {
    var n := c as int;
    (0x09 <= n <= 0x0D) || (0x1C <= n <= 0x20) || n == 0xA0 || n == 0x1680
    || (0x2000 <= n <= 0x200A) || n == 0x2028 || n == 0x2029 || n == 0x202F
    || n == 0x205F || n == 0x3000
  }

  /** `CharSequence.isBlank`: empty, or whitespace only. */
  predicate IsBlank(s: string) {
    forall i :: 0 <= i < |s| ==> IsWhitespace(s[i])
  }

  /** Neither end of `s` is whitespace. */
  predicate IsTrimmed(s: string) {
    s == [] || (!IsWhitespace(s[0]) && !IsWhitespace(s[|s| - 1]))
  }

  /**
   * Drops leading whitespace: the result is a suffix of `s` that does not start with
   * whitespace; `TrimStartDrops` shows that what was dropped is all whitespace.
   */
  function TrimStart(s: string): (r: string)
    ensures |r| <= |s| && r == s[|s| - |r|..]
    ensures r == [] || !IsWhitespace(r[0])
  {
    if s != [] && IsWhitespace(s[0]) then
      var r := TrimStart(s[1..]);
      assert s[1..][|s| - 1 - |r|..] == s[|s| - |r|..];
      r
    else s
  }

  /**
   * Drops trailing whitespace: the result is a prefix of `s` that does not end with
   * whitespace; `TrimEndDrops` shows that what was dropped is all whitespace.
   */
  function TrimEnd(s: string): (r: string)
    ensures |r| <= |s| && r == s[..|r|]
    ensures r == [] || !IsWhitespace(r[|r| - 1])
  {
    if s != [] && IsWhitespace(s[|s| - 1]) then
      var r := TrimEnd(s[..|s| - 1]);
      assert s[..|s| - 1][..|r|] == s[..|r|];
      r
    else s
  }

  /** `r` is `s` with its first `i` characters and everything after them past `|r|` removed, all of it whitespace. */
  predicate CutFrom(s: string, r: string, i: int) {
    0 <= i && i + |r| <= |s| && r == s[i..i + |r|] && IsBlank(s[..i]) && IsBlank(s[i + |r|..])
  }

  /**
   * `String.trim()`: the result is a stretch of `s` with only whitespace before and
   * after it, and no whitespace at either end of its own. An already trimmed string is
   * returned unchanged, and only a blank string trims to the empty string.
   */
  function Trim(s: string): (r: string)
    ensures exists i :: CutFrom(s, r, i)
    ensures IsTrimmed(r)
    ensures IsTrimmed(s) ==> r == s
    ensures r == [] <==> IsBlank(s)
  {
    TrimCut(s);
    TrimEnds(s);
    TrimEnd(TrimStart(s))
  }

  /** Trimming removes only whitespace, from both ends. */
  lemma TrimCut(s: string)
    ensures CutFrom(s, TrimEnd(TrimStart(s)), |s| - |TrimStart(s)|)
  {
    TrimStartDrops(s);
    TrimEndDrops(TrimStart(s));
    TrimStretch(s, TrimStart(s), TrimEnd(TrimStart(s)));
  }

  /** Trimming leaves no whitespace at either end, and only a blank string trims to nothing. */
  lemma TrimEnds(s: string)
    ensures IsTrimmed(TrimEnd(TrimStart(s)))
    ensures IsTrimmed(s) ==> TrimEnd(TrimStart(s)) == s
    ensures TrimEnd(TrimStart(s)) == [] <==> IsBlank(s)
  {
    var t := TrimStart(s);
    var r := TrimEnd(t);
    TrimStartBlank(s);
    TrimEndBlank(t);
    assert r != [] ==> r[0] == t[0];
    assert t != [] ==> !IsBlank(t) by {
      if t != [] {
        assert !IsWhitespace(t[0]);
      }
    }
  }

  /** A blank-padded prefix of a blank-padded suffix is a blank-padded stretch. */
  lemma TrimStretch(s: string, t: string, r: string)
    requires |t| <= |s| && t == s[|s| - |t|..] && IsBlank(s[..|s| - |t|])
    requires |r| <= |t| && r == t[..|r|] && IsBlank(t[|r|..])
    ensures CutFrom(s, r, |s| - |t|)
  {
    var i := |s| - |t|;
    assert s[i + |r|..] == t[|r|..];
    assert r == s[i..i + |r|];
  }

  /** `TrimStart` drops only whitespace. */
  lemma {:induction false} TrimStartDrops(s: string)
    ensures IsBlank(s[..|s| - |TrimStart(s)|])
    decreases |s|
  {
    if s != [] && IsWhitespace(s[0]) {
      TrimStartDrops(s[1..]);
      var k := |s| - |TrimStart(s)|;
      assert forall i :: 1 <= i < k ==> s[..k][i] == s[1..][..k - 1][i - 1];
    }
  }

  /** `TrimEnd` drops only whitespace. */
  lemma {:induction false} TrimEndDrops(s: string)
    ensures IsBlank(s[|TrimEnd(s)|..])
    decreases |s|
  {
    if s != [] && IsWhitespace(s[|s| - 1]) {
      var n := |s| - 1;
      TrimEndDrops(s[..n]);
      var k := |TrimEnd(s)|;
      forall j | 0 <= j < |s| - k ensures IsWhitespace(s[k..][j]) {
        if k + j < n {
          assert s[k..][j] == s[..n][k..][j];
        }
      }
    }
  }

  lemma {:induction false} TrimStartBlank(s: string)
    ensures TrimStart(s) == [] <==> IsBlank(s)
    decreases |s|
  {
    if s != [] {
      if IsWhitespace(s[0]) {
        TrimStartBlank(s[1..]);
        assert IsBlank(s) <==> IsBlank(s[1..]) by {
          assert forall i :: 1 <= i < |s| ==> s[i] == s[1..][i - 1];
        }
      } else {
        assert !IsWhitespace(s[0]);
      }
    }
  }

  lemma {:induction false} TrimEndBlank(s: string)
    ensures TrimEnd(s) == [] <==> IsBlank(s)
    decreases |s|
  {
    if s != [] {
      var n := |s| - 1;
      if IsWhitespace(s[n]) {
        TrimEndBlank(s[..n]);
        assert IsBlank(s) <==> IsBlank(s[..n]) by {
          assert forall i :: 0 <= i < n ==> s[i] == s[..n][i];
        }
      } else {
        assert !IsWhitespace(s[n]);
      }
    }
  }

  // ---------------------------------------------------------------------------
  // Lines
  // ---------------------------------------------------------------------------

  /** No piece holds `c`. */
  predicate NoneContains(pieces: seq<string>, c: char) {
    forall i :: 0 <= i < |pieces| ==> c !in pieces[i]
  }

  lemma NoneContainsCons(piece: string, pieces: seq<string>, c: char)
    requires c !in piece && NoneContains(pieces, c)
    ensures NoneContains([piece] + pieces, c)
  {
    var r := [piece] + pieces;
    forall i | 0 <= i < |r| ensures c !in r[i] {
      if i > 0 {
        assert r[i] == pieces[i - 1];
      }
    }
  }

  lemma NoneContainsSplit(pieces: seq<string>, c: char)
    requires pieces != []
    ensures NoneContains(pieces, c) <==> c !in pieces[0] && NoneContains(pieces[1..], c)
  {
    assert forall i :: 1 <= i < |pieces| ==> pieces[i] == pieces[1..][i - 1];
  }

  /** `s` holds neither of the characters that `lineSequence` breaks lines at. */
  predicate OneLineText(s: string) {
    '\n' !in s && '\r' !in s
  }

  lemma OneLineAppend(a: string, b: string)
    requires OneLineText(a) && OneLineText(b)
    ensures OneLineText(a + b)
  {
  }

  /** Joins lines with a `'\n'` between each two. */
  function JoinLines(lines: seq<string>): string {
    if lines == [] then []
    else if |lines| == 1 then lines[0]
    else lines[0] + ['\n'] + JoinLines(lines[1..])
  }

  /** The text with every line break (`"\r\n"`, `'\n'` or a lone `'\r'`) written as `'\n'`. */
  function NormalizeBreaks(s: string): (r: string)
    ensures '\r' !in r
    decreases |s|
  {
    if s == [] then []
    else if s[0] == '\r' && |s| >= 2 && s[1] == '\n' then ['\n'] + NormalizeBreaks(s[2..])
    else if s[0] == '\r' then ['\n'] + NormalizeBreaks(s[1..])
    else [s[0]] + NormalizeBreaks(s[1..])
  }

  /** Text whose only line breaks are `'\n'` is already normal. */
  lemma {:induction false} NormalizeFree(s: string)
    requires '\r' !in s
    ensures NormalizeBreaks(s) == s
    decreases |s|
  {
    if s != [] {
      assert '\r' !in s[1..] by {
        assert forall c :: c in s[1..] ==> c in s;
      }
      NormalizeFree(s[1..]);
      assert [s[0]] + s[1..] == s;
    }
  }

  /**
   * `CharSequence.lineSequence()`: the pieces between line breaks, where a break is
   * `"\r\n"`, `'\n'` or a lone `'\r'`. A text with n breaks has n + 1 lines (the last
   * one empty when the text ends with a break), and no line holds a break character.
   */
  function Lines(s: string): (r: seq<string>)
    ensures |r| >= 1
    ensures NoneContains(r, '\n') && NoneContains(r, '\r')
    ensures JoinLines(r) == NormalizeBreaks(s)
    decreases |s|
  {
    if s == [] then [[]]
    else if s[0] == '\r' && |s| >= 2 && s[1] == '\n' then
      var rest := Lines(s[2..]);
      LinesBreak(rest);
      [[]] + rest
    else if s[0] == '\n' || s[0] == '\r' then
      var rest := Lines(s[1..]);
      LinesBreak(rest);
      [[]] + rest
    else
      var rest := Lines(s[1..]);
      LinesHead(s[0], rest);
      [[s[0]] + rest[0]] + rest[1..]
  }

  /** An empty line in front of break-free lines: one more `'\n'` when joined. */
  lemma LinesBreak(rest: seq<string>)
    requires rest != []
    requires NoneContains(rest, '\n') && NoneContains(rest, '\r')
    ensures NoneContains([[]] + rest, '\n') && NoneContains([[]] + rest, '\r')
    ensures JoinLines([[]] + rest) == ['\n'] + JoinLines(rest)
  {
    var r := [[]] + rest;
    assert r[1..] == rest;
    NoneContainsCons([], rest, '\n');
    NoneContainsCons([], rest, '\r');
  }

  /** A character that is no break, put in front of the first line: one more character when joined. */
  lemma LinesHead(c: char, rest: seq<string>)
    requires c != '\n' && c != '\r' && rest != []
    requires NoneContains(rest, '\n') && NoneContains(rest, '\r')
    ensures NoneContains([[c] + rest[0]] + rest[1..], '\n')
    ensures NoneContains([[c] + rest[0]] + rest[1..], '\r')
    ensures JoinLines([[c] + rest[0]] + rest[1..]) == [c] + JoinLines(rest)
  {
    var r := [[c] + rest[0]] + rest[1..];
    assert r[1..] == rest[1..];
    forall i | 0 <= i < |r| ensures '\n' !in r[i] && '\r' !in r[i] {
      if i > 0 {
        assert r[i] == rest[i];
      }
    }
    if |rest| > 1 {
      AppendAssoc([c], rest[0], ['\n'] + JoinLines(rest[1..]));
      AppendAssoc(rest[0], ['\n'], JoinLines(rest[1..]));
      AppendAssoc([c] + rest[0], ['\n'], JoinLines(rest[1..]));
    }
  }

  /** Without a `'\r'`, joining the lines gives the text back. */
  lemma JoinLinesPlain(s: string)
    requires '\r' !in s
    ensures JoinLines(Lines(s)) == s
  {
    NormalizeFree(s);
  }

  /** A first line that holds no break character is split off whole at a `'\n'`. */
  lemma {:induction false} LinesCons(a: string, b: string)
    requires OneLineText(a)
    ensures Lines(a + ['\n'] + b) == [a] + Lines(b)
    decreases |a|
  {
    if a == [] {
      assert a + ['\n'] + b == ['\n'] + b;
    } else {
      assert (a + ['\n'] + b)[0] == a[0];
      assert (a + ['\n'] + b)[1..] == a[1..] + ['\n'] + b;
      assert OneLineText(a[1..]) by {
        assert forall c :: c in a[1..] ==> c in a;
      }
      LinesCons(a[1..], b);
      assert [a[0]] + a[1..] == a;
    }
  }

  /** Text without a break character is one line. */
  lemma {:induction false} LinesSingle(s: string)
    requires OneLineText(s)
    ensures Lines(s) == [s]
    decreases |s|
  {
    if s != [] {
      assert OneLineText(s[1..]) by {
        assert forall c :: c in s[1..] ==> c in s;
      }
      LinesSingle(s[1..]);
      assert [s[0]] + s[1..] == s;
    }
  }

  /** Trimming only removes characters: whatever the result holds, the input held. */
  lemma TrimKeeps(s: string, c: char)
    ensures c in Trim(s) ==> c in s
  {
    var t := TrimStart(s);
    var r := TrimEnd(t);
    if c in r {
      var i :| 0 <= i < |r| && r[i] == c;
      assert t[i] == c;
      assert s[|s| - |t| + i] == c;
    }
  }

  /** Text with a break character in it is more than one line. */
  lemma {:induction false} LineBreakSplits(s: string)
    requires !OneLineText(s)
    ensures |Lines(s)| >= 2
    decreases |s|
  {
    if s[0] != '\n' && s[0] != '\r' {
      assert !OneLineText(s[1..]) by {
        assert '\n' in s ==> '\n' in s[1..];
        assert '\r' in s ==> '\r' in s[1..];
      }
      LineBreakSplits(s[1..]);
    }
  }

  // ---------------------------------------------------------------------------
  // 32-bit integers
  // ---------------------------------------------------------------------------

  const INT_MIN: int := -0x8000_0000
  const INT_MAX: int := 0x7FFF_FFFF

  /** Kotlin's `Int`. */
  type Int32 = x: int | INT_MIN <= x <= INT_MAX

  /** Two's-complement wrap-around of an `Int` addition. */
  function Wrap32(x: int): (r: Int32)
    ensures INT_MIN <= x <= INT_MAX ==> r == x
    ensures (r - x) % 0x1_0000_0000 == 0
  {
    (x - INT_MIN) % 0x1_0000_0000 + INT_MIN
  }

  predicate IsDigit(c: char) {
    '0' <= c <= '9'
  }

  predicate AllDigits(s: string) {
    forall i :: 0 <= i < |s| ==> IsDigit(s[i])
  }

  /** The decimal value of a string of digits, most significant first. */
  function DigitsValue(s: string): nat
    requires AllDigits(s)
  {
    if s == [] then 0
    else DigitsValue(s[..|s| - 1]) * 10 + (s[|s| - 1] as int - '0' as int)
  }

  function Digit(d: nat): (c: char)
    requires d < 10
  {
    ('0' as int + d) as char
  }

  /** Decimal digits of `n` without leading zeros; `DigitsValue` reads them back. */
  function ShowNat(n: nat): (r: string)
    ensures r != [] && AllDigits(r)
    ensures DigitsValue(r) == n
  {
    if n < 10 then [Digit(n)]
    else
      var r := ShowNat(n / 10) + [Digit(n % 10)];
      assert r[..|r| - 1] == ShowNat(n / 10);
      r
  }

  /** `Int.toString()`: a minus sign for negative numbers, then the decimal digits. */
  function ShowInt(n: int): string {
    if n < 0 then ['-'] + ShowNat(-n) else ShowNat(n)
  }

  /**
   * `String.toIntOrNull()`: an optional `+` or `-` sign, then at least one decimal
   * digit and nothing else, with a value in the range of `Int`.
   */
  function ParseInt(s: string): Option<Int32> {
    var digits := if s != [] && (s[0] == '-' || s[0] == '+') then s[1..] else s;
    if digits == [] || !AllDigits(digits) then None
    else
      var v: int := if s[0] == '-' then -(DigitsValue(digits) as int) else DigitsValue(digits);
      if INT_MIN <= v <= INT_MAX then Some(v) else None
  }

  /** `toIntOrNull` reads back what `toString` wrote, for every `Int`. */
  lemma ParseShowInt(n: Int32)
    ensures ParseInt(ShowInt(n)) == Some(n)
  {
    var s := ShowInt(n);
    if n < 0 {
      var m: int := -(n as int);
      assert s[1..] == ShowNat(m);
    } else {
      assert s[0] != '-' && s[0] != '+';
    }
  }

  /** `toString` never writes whitespace, a quote, a comma or a break character. */
  lemma ShowIntPlain(n: int)
    ensures IsTrimmed(ShowInt(n))
    ensures '"' !in ShowInt(n) && ',' !in ShowInt(n) && OneLineText(ShowInt(n))
  {
    var s := ShowInt(n);
    var d := ShowNat(if n < 0 then -n else n);
    assert forall i :: 0 <= i < |s| ==> s[i] == '-' || IsDigit(s[i]) by {
      if n < 0 {
        assert forall i :: 1 <= i < |s| ==> s[i] == d[i - 1];
      }
    }
  }
}
