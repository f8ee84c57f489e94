/**
 * The handful of Rust string operations the back end relies on: `trim`,
 * `lines`, `split(c).nth(n)`, `starts_with`, `to_lowercase` (restricted to
 * ASCII letters) and the decimal rendering of an integer by `format!("{}")`.
 */
module Text {
  import opened Wrappers

  /** The Unicode White_Space characters, the set that Rust's `str::trim` removes. */
  predicate IsWhitespace(c: char) {
    || ('\t' <= c <= '\r')
    || c == ' '
    || c == '\U{85}'
    || c == '\U{A0}'
    || c == '\U{1680}'
    || ('\U{2000}' <= c <= '\U{200A}')
    || c == '\U{2028}'
    || c == '\U{2029}'
    || c == '\U{202F}'
    || c == '\U{205F}'
    || c == '\U{3000}'
  }

  /** Neither the first nor the last character is white space. */
  predicate IsTrimmed(s: string) {
    s == [] || (!IsWhitespace(s[0]) && !IsWhitespace(s[|s| - 1]))
  }

  /** `str::trim_start`: the longest suffix that does not start with white space. */
  function TrimStart(s: string): (r: string)
    ensures |r| <= |s| && r == s[|s| - |r|..]
    ensures r == [] || !IsWhitespace(r[0])
  {
    if s == [] || !IsWhitespace(s[0]) then s else TrimStart(s[1..])
  }

  /** `str::trim_end`: the longest prefix that does not end with white space. */
  function TrimEnd(s: string): (r: string)
    ensures |r| <= |s| && r == s[..|r|]
    ensures r == [] || !IsWhitespace(r[|r| - 1])
  {
    if s == [] || !IsWhitespace(s[|s| - 1]) then s else TrimEnd(s[..|s| - 1])
  }

  /** `str::trim`: what is left of `s` once the white space at both ends is removed. */
  function Trim(s: string): (r: string)
    ensures IsTrimmed(r)
  {
    var t := TrimStart(s);
    TrimEndKeepsFirst(t);
    TrimEnd(t)
  }

  /** Trimming the end leaves the first character where it was. */
  lemma TrimEndKeepsFirst(t: string)
    ensures TrimEnd(t) != [] ==> TrimEnd(t)[0] == t[0]
  {
  }

  /** What `TrimStart` drops is white space. */
  lemma {:induction false} TrimStartDropsWhitespace(s: string)
    ensures forall k :: 0 <= k < |s| - |TrimStart(s)| ==> IsWhitespace(s[k])
  {
    if s != [] && IsWhitespace(s[0]) {
      TrimStartDropsWhitespace(s[1..]);
      forall k | 1 <= k < |s| - |TrimStart(s)| ensures IsWhitespace(s[k]) {
        assert s[k] == s[1..][k - 1];
      }
    }
  }

  /** What `TrimEnd` drops is white space. */
  lemma {:induction false} TrimEndDropsWhitespace(s: string)
    ensures forall k :: |TrimEnd(s)| <= k < |s| ==> IsWhitespace(s[k])
  {
    if s != [] && IsWhitespace(s[|s| - 1]) {
      TrimEndDropsWhitespace(s[..|s| - 1]);
      forall k | |TrimEnd(s)| <= k < |s| - 1 ensures IsWhitespace(s[k]) {
        assert s[k] == s[..|s| - 1][k];
      }
    }
  }

  /** `Trim(s)` is a slice `s[a..b]` of `s` with only white space outside it. */
  lemma TrimIsSlice(s: string)
    ensures exists a, b :: (0 <= a <= b <= |s| && Trim(s) == s[a..b]
      && (forall k :: 0 <= k < a ==> IsWhitespace(s[k]))
      && (forall k :: b <= k < |s| ==> IsWhitespace(s[k])))
  {
    var t := TrimStart(s);
    var r := TrimEnd(t);
    var a := |s| - |t|;
    TrimStartDropsWhitespace(s);
    TrimEndDropsWhitespace(t);
    assert r == s[a..a + |r|];
    forall k | a + |r| <= k < |s| ensures IsWhitespace(s[k]) {
      assert s[k] == t[k - a];
    }
  }

  /** Trimming a trimmed string changes nothing, so trimming twice is trimming once. */
  lemma TrimIdempotent(s: string)
    ensures Trim(Trim(s)) == Trim(s)
  {
    var t := Trim(s);
    if t != [] {
      assert TrimStart(t) == t;
      assert TrimEnd(t) == t;
    }
  }

  /** Rust's `char::to_lowercase` on ASCII letters; every other character is kept. */
  function LowerAscii(c: char): char {
    if 'A' <= c <= 'Z' then (c as int - 'A' as int + 'a' as int) as char else c
  }

  function ToLowerAscii(s: string): (r: string)
    ensures |r| == |s|
  {
    if s == [] then [] else [LowerAscii(s[0])] + ToLowerAscii(s[1..])
  }

  /** Lower-casing works character by character. */
  lemma {:induction false} ToLowerAsciiAt(s: string)
    ensures forall k :: 0 <= k < |s| ==> ToLowerAscii(s)[k] == LowerAscii(s[k])
  {
    if s != [] {
      ToLowerAsciiAt(s[1..]);
      forall k | 1 <= k < |s| ensures ToLowerAscii(s)[k] == LowerAscii(s[k]) {
        assert ToLowerAscii(s)[k] == ToLowerAscii(s[1..])[k - 1];
      }
    }
  }

  /** `s.starts_with(p)`. */
  predicate StartsWith(s: string, p: string) {
    |p| <= |s| && s[..|p|] == p
  }

  /** The position of the first `c` in `s`, or `|s|` when `s` holds none. */
  function IndexOf(s: string, c: char): (i: nat)
    ensures i <= |s|
    ensures i < |s| ==> s[i] == c
    ensures forall k :: 0 <= k < i ==> s[k] != c
  {
    if s == [] then 0 else if s[0] == c then 0 else 1 + IndexOf(s[1..], c)
  }

  /** A prefix free of `c` shifts the first `c` by its length. */
  lemma {:induction false} IndexOfAfter(p: string, s: string, c: char)
    requires c !in p
    ensures IndexOf(p + s, c) == |p| + IndexOf(s, c)
  {
    if p != [] {
      assert (p + s)[0] == p[0] && p[0] != c;
      assert (p + s)[1..] == p[1..] + s;
      IndexOfAfter(p[1..], s, c);
    } else {
      assert p + s == s;
    }
  }

  /** `s.split(c)`: the pieces between the occurrences of `c`; always at least one. */
  function Split(s: string, c: char): (parts: seq<string>)
    ensures |parts| >= 1
    decreases |s|
  {
    var i := IndexOf(s, c);
    if i == |s| then [s] else [s[..i]] + Split(s[i + 1..], c)
  }

  /** `iterator.nth(n)` over the pieces of `s.split(c)`. */
  function SplitNth(s: string, c: char, n: nat): Option<string> {
    var parts := Split(s, c);
    if n < |parts| then Some(parts[n]) else None
  }

  /** The pieces joined back together with `c` between neighbours. */
  function Join(parts: seq<string>, c: char): string {
    if parts == [] then []
    else if |parts| == 1 then parts[0]
    else parts[0] + [c] + Join(parts[1..], c)
  }

  /** Joining the pieces of a split with `c` gives back `s`. */
  lemma {:induction false} SplitJoin(s: string, c: char)
    ensures Join(Split(s, c), c) == s
    decreases |s|
  {
    var i := IndexOf(s, c);
    if i < |s| {
      var rest := s[i + 1..];
      SplitJoin(rest, c);
      var parts := Split(s, c);
      assert parts == [s[..i]] + Split(rest, c);
      assert |parts| >= 2 && parts[0] == s[..i] && parts[1..] == Split(rest, c);
      assert s == s[..i] + [c] + rest;
    }
  }

  /** No piece of a split contains `c`. */
  lemma {:induction false} SplitPiecesFree(s: string, c: char)
    ensures forall k :: 0 <= k < |Split(s, c)| ==> c !in Split(s, c)[k]
    decreases |s|
  {
    var i := IndexOf(s, c);
    if i < |s| {
      SplitPiecesFree(s[i + 1..], c);
      assert Split(s, c) == [s[..i]] + Split(s[i + 1..], c);
    }
  }

  /** The text of `s` up to, not including, its first `c`. */
  function UpTo(s: string, c: char): (r: string)
    ensures c !in r && StartsWith(s, r)
    ensures |r| < |s| ==> s[|r|] == c
  {
    s[..IndexOf(s, c)]
  }

  /** After a first piece `p`, the second piece of a split is the text up to the next separator. */
  lemma SecondPieceAfter(p: string, rest: string, c: char)
    requires c !in p
    ensures SplitNth(p + [c] + rest, c, 1) == Some(UpTo(rest, c))
  {
    var s := p + [c] + rest;
    assert s == p + ([c] + rest);
    IndexOfAfter(p, [c] + rest, c);
    assert IndexOf(s, c) == |p|;
    assert s[|p| + 1..] == rest;
    assert Split(s, c) == [p] + Split(rest, c);
    var j := IndexOf(rest, c);
    if j == |rest| {
      assert Split(rest, c) == [rest];
      assert rest[..j] == rest;
    } else {
      assert Split(rest, c)[0] == rest[..j];
    }
  }

  /** The first piece of a split is the text up to the first `c`; every piece is free of `c`. */
  lemma SplitNthPieces(s: string, c: char, n: nat)
    ensures SplitNth(s, c, 0) == Some(UpTo(s, c))
    ensures SplitNth(s, c, n).Some? ==> c !in SplitNth(s, c, n).value
  {
    FirstPiece(s, c);
    SplitPiecesFree(s, c);
    var parts := Split(s, c);
    if n < |parts| {
      assert c !in parts[n];
    }
  }

  lemma FirstPiece(s: string, c: char)
    ensures Split(s, c)[0] == UpTo(s, c)
  {
    var i := IndexOf(s, c);
    if i < |s| {
      assert Split(s, c) == [s[..i]] + Split(s[i + 1..], c);
    } else {
      assert s[..i] == s;
    }
  }

  /** `line` without one trailing `\r`, the carriage return of a `\r\n` pair. */
  function DropCarriageReturn(line: string): string {
    if line != [] && line[|line| - 1] == '\r' then line[..|line| - 1] else line
  }

  /**
   * `str::lines`: split at `\n` or `\r\n`; a line ending at the very end adds no
   * empty line, and a bare `\r` at the end of the last line stays in it.
   */
  function Lines(s: string): seq<string>
    decreases |s|
  {
    if s == [] then []
    else
      var i := IndexOf(s, '\n');
      if i == |s| then [s]
      else [DropCarriageReturn(s[..i])] + Lines(s[i + 1..])
  }

  /** No line contains `\n`, and only the empty text has no lines. */
  lemma {:induction false} LinesHaveNoNewline(s: string)
    ensures Lines(s) == [] <==> s == []
    ensures forall k :: 0 <= k < |Lines(s)| ==> '\n' !in Lines(s)[k]
    decreases |s|
  {
    if s != [] {
      var i := IndexOf(s, '\n');
      if i < |s| {
        LinesHaveNoNewline(s[i + 1..]);
        var line := s[..i];
        assert '\n' !in line;
        assert '\n' !in DropCarriageReturn(line);
        assert Lines(s) == [DropCarriageReturn(line)] + Lines(s[i + 1..]);
      }
    }
  }

  /** The text of `lines`, each followed by `\r\n`, as Windows tools print it. */
  function JoinCrlf(lines: seq<string>): string {
    if lines == [] then [] else lines[0] + "\r\n" + JoinCrlf(lines[1..])
  }

  /** `lines` takes back apart what `JoinCrlf` put together. */
  lemma {:induction false} LinesOfJoinCrlf(lines: seq<string>)
    requires forall k :: 0 <= k < |lines| ==> '\n' !in lines[k]
    ensures Lines(JoinCrlf(lines)) == lines
  {
    if lines != [] {
      var l := lines[0];
      var rest := JoinCrlf(lines[1..]);
      var s := l + "\r\n" + rest;
      assert s == (l + "\r") + ("\n" + rest);
      IndexOfAfter(l + "\r", "\n" + rest, '\n');
      assert IndexOf(s, '\n') == |l| + 1;
      assert s[..|l| + 1] == l + "\r";
      assert DropCarriageReturn(l + "\r") == l;
      assert s[|l| + 2..] == rest;
      LinesOfJoinCrlf(lines[1..]);
    }
  }

  predicate IsDigit(c: char) {
    '0' <= c <= '9'
  }

  predicate AllDigits(s: string) {
    forall k :: 0 <= k < |s| ==> IsDigit(s[k])
  }

  function DigitChar(d: nat): (c: char)
    requires d < 10
    ensures IsDigit(c)
  {
    ('0' as int + d) as char
  }

  /** `format!("{}", n)` for a non-negative integer: decimal without leading zeros. */
  function NatToDecimal(n: nat): (s: string)
    ensures s != [] && AllDigits(s)
    ensures s[0] == '0' ==> n == 0
  {
    if n < 10 then [DigitChar(n)] else NatToDecimal(n / 10) + [DigitChar(n % 10)]
  }

  /** The number a string of decimal digits denotes. */
  function DecimalValue(s: string): nat
    requires AllDigits(s)
  {
    if s == [] then 0
    else
      assert IsDigit(s[|s| - 1]);
      DecimalValue(s[..|s| - 1]) * 10 + (s[|s| - 1] as int - '0' as int)
  }

  /** Reading back the decimal rendering gives the number. */
  lemma {:induction false} DecimalRoundTrip(n: nat)
    ensures DecimalValue(NatToDecimal(n)) == n
  {
    if n >= 10 {
      var s := NatToDecimal(n);
      assert s[..|s| - 1] == NatToDecimal(n / 10);
      DecimalRoundTrip(n / 10);
    }
  }
}
