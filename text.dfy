/** String operations of Rust's `str` that the core relies on, over `seq<char>`. */
module Text {
  import opened Wrappers

  /** Rust's `char::is_whitespace`: the Unicode White_Space property. */
  predicate IsWhitespace(c: char) {
    ('\U{0009}' <= c <= '\U{000D}') || c == ' ' || c == '\U{0085}' || c == '\U{00A0}' ||
    c == '\U{1680}' || ('\U{2000}' <= c <= '\U{200A}') || c == '\U{2028}' || c == '\U{2029}' ||
    c == '\U{202F}' || c == '\U{205F}' || c == '\U{3000}'
  }

  /** `str::trim_start`: drops the leading whitespace, nothing else. */
  function TrimStart(s: string): string {
    if s != [] && IsWhitespace(s[0]) then TrimStart(s[1..]) else s
  }

  /** `trim_start` keeps a suffix of `s`, drops only whitespace, and leaves none in front. */
  lemma {:induction false} TrimStartSpec(s: string)
    ensures |TrimStart(s)| <= |s| && TrimStart(s) == s[|s| - |TrimStart(s)|..]
    ensures forall i :: 0 <= i < |s| - |TrimStart(s)| ==> IsWhitespace(s[i])
    ensures TrimStart(s) == [] || !IsWhitespace(TrimStart(s)[0])
    decreases |s|
  {
    if s != [] && IsWhitespace(s[0]) {
      TrimStartSpec(s[1..]);
    }
  }

  /** `str::starts_with` with a string pattern. */
  predicate StartsWith(s: string, prefix: string) {
    |prefix| <= |s| && s[..|prefix|] == prefix
  }

  /** `str::matches(c).count()`: how many times `c` occurs in `s`. */
  function Occurrences(s: string, c: char): nat {
    if s == [] then 0 else (if s[0] == c then 1 else 0) + Occurrences(s[1..], c)
  }

  /** At most one occurrence per character, and none exactly when `c` is absent. */
  lemma {:induction false} OccurrencesSpec(s: string, c: char)
    ensures Occurrences(s, c) <= |s|
    ensures Occurrences(s, c) == 0 <==> c !in s
  {
    if s != [] {
      OccurrencesSpec(s[1..], c);
      assert s == [s[0]] + s[1..];
    }
  }

  /** Lower-casing of one character (ASCII letters only). */
  function LowerChar(c: char): char {
    if 'A' <= c <= 'Z' then (c as int + 32) as char else c
  }

  /** `str::to_lowercase`, restricted to ASCII letters. */
  function ToLower(s: string): string {
    if s == [] then [] else [LowerChar(s[0])] + ToLower(s[1..])
  }

  /** Lower-casing maps each character on its own. */
  lemma {:induction false} ToLowerSpec(s: string)
    ensures |ToLower(s)| == |s|
    ensures forall i :: 0 <= i < |s| ==> ToLower(s)[i] == LowerChar(s[i])
  {
    if s != [] {
      ToLowerSpec(s[1..]);
    }
  }

  function DigitChar(d: nat): (c: char)
    requires d < 10
    ensures '0' <= c <= '9'
  {
    ('0' as int + d) as char
  }

  /** `usize::to_string`: the decimal numeral of `n`, most significant digit first. */
  function Decimal(n: nat): (r: string)
    ensures 1 <= |r|
    ensures forall i :: 0 <= i < |r| ==> '0' <= r[i] <= '9'
    ensures (n < 10) <==> (|r| == 1)
    ensures r[|r| - 1] == DigitChar(n % 10)
    decreases n
  {
    if n < 10 then [DigitChar(n)] else Decimal(n / 10) + [DigitChar(n % 10)]
  }

  /** Different numbers have different numerals. */
  lemma {:induction false} DecimalInjective(n: nat, m: nat)
    requires Decimal(n) == Decimal(m)
    ensures n == m
    decreases n
  {
    if n < 10 || m < 10 {
      assert n < 10 && m < 10;
      assert [DigitChar(n)] == [DigitChar(m)];
    } else {
      SnocInjective(Decimal(n / 10), DigitChar(n % 10), Decimal(m / 10), DigitChar(m % 10));
      DecimalInjective(n / 10, m / 10);
      assert n == 10 * (n / 10) + n % 10 && m == 10 * (m / 10) + m % 10;
    }
  }

  lemma {:induction false} SnocInjective(a: string, x: char, b: string, y: char)
    requires a + [x] == b + [y]
    ensures a == b && x == y
  {
    assert |a| == |b|;
    assert (a + [x])[|a|] == x && (b + [y])[|b|] == y;
    assert a == (a + [x])[..|a|] && b == (b + [y])[..|b|];
  }

  /** `Vec<String>::join("")`: the concatenation of the pieces, in order. */
  function Concat(pieces: seq<string>): string {
    if pieces == [] then "" else Concat(pieces[..|pieces| - 1]) + pieces[|pieces| - 1]
  }

  lemma {:induction false} ConcatAppend(a: seq<string>, b: seq<string>)
    ensures Concat(a + b) == Concat(a) + Concat(b)
    decreases |b|
  {
    if b == [] {
      assert a + b == a;
    } else {
      var b', x := b[..|b| - 1], b[|b| - 1];
      assert a + b == (a + b') + [x];
      assert ((a + b') + [x])[..|a + b'|] == a + b';
      ConcatAppend(a, b');
    }
  }

  /** Text made of lines, each terminated by a newline. */
  function Unlines(lines: seq<string>): string {
    if lines == [] then "" else Unlines(lines[..|lines| - 1]) + lines[|lines| - 1] + "\n"
  }

  lemma {:induction false} UnlinesAppend(a: seq<string>, b: seq<string>)
    ensures Unlines(a + b) == Unlines(a) + Unlines(b)
    decreases |b|
  {
    if b == [] {
      assert a + b == a;
    } else {
      var b', x := b[..|b| - 1], b[|b| - 1];
      assert a + b == (a + b') + [x];
      assert ((a + b') + [x])[..|a + b'|] == a + b';
      UnlinesAppend(a, b');
    }
  }

  /** `Unlines` unfolded from the front. */
  lemma {:induction false} UnlinesCons(l: string, ls: seq<string>)
    ensures Unlines([l] + ls) == l + "\n" + Unlines(ls)
  {
    UnlinesAppend([l], ls);
    assert [l][..0] == [];
  }

  /** The index of the first newline of `s`, if any. */
  function NewlineIndex(s: string): (r: Option<nat>)
    ensures r.None? <==> '\n' !in s
    ensures r.Some? ==> r.value < |s| && s[r.value] == '\n' && '\n' !in s[..r.value]
  {
    if s == [] then None
    else if s[0] == '\n' then Some(0)
    else match NewlineIndex(s[1..])
      case None => None
      case Some(k) =>
        assert s[..k + 1] == [s[0]] + s[1..][..k];
        Some(k + 1)
  }

  /** Drops one trailing carriage return. */
  function StripCR(l: string): (r: string)
    ensures r == l || (l == r + ['\r'])
  {
    if l != [] && l[|l| - 1] == '\r' then l[..|l| - 1] else l
  }

  function StripEach(ls: seq<string>): (r: seq<string>)
    ensures |r| == |ls| && forall i :: 0 <= i < |ls| ==> r[i] == StripCR(ls[i])
  {
    if ls == [] then [] else [StripCR(ls[0])] + StripEach(ls[1..])
  }

  /** `str::lines`: the text split at each `\n`, a `\r` just before the `\n` removed; a
      final line without a terminator is kept as it is, and a trailing `\n` opens no
      further line. */
  function Lines(s: string): seq<string>
    decreases |s|
  {
    if s == [] then []
    else match NewlineIndex(s)
      case None => [s]
      case Some(k) => [StripCR(s[..k])] + Lines(s[k + 1..])
  }

  /** No line of `str::lines` holds a newline. */
  lemma {:induction false} LinesNoNewline(s: string)
    ensures forall i :: 0 <= i < |Lines(s)| ==> '\n' !in Lines(s)[i]
    decreases |s|
  {
    if s != [] {
      match NewlineIndex(s)
      case None =>
      case Some(k) =>
        LinesNoNewline(s[k + 1..]);
        var l := StripCR(s[..k]);
        assert '\n' !in l by {
          if l != s[..k] {
            assert s[..k] == l + ['\r'];
            assert forall j :: 0 <= j < |l| ==> l[j] == s[..k][j];
          }
        }
    }
  }

  /** Splitting a text made of newline-free lines gives those lines back, each with one
      trailing carriage return removed. */
  lemma {:induction false} LinesOfUnlines(ls: seq<string>)
    requires forall i :: 0 <= i < |ls| ==> '\n' !in ls[i]
    ensures Lines(Unlines(ls)) == StripEach(ls)
    decreases |ls|
  {
    if ls != [] {
      var l, tail := ls[0], ls[1..];
      assert ls == [l] + tail;
      UnlinesCons(l, tail);
      var s := Unlines(ls);
      assert s == l + "\n" + Unlines(tail);
      assert s[|l|] == '\n' && s[..|l|] == l && s[|l| + 1..] == Unlines(tail);
      assert NewlineIndex(s) == Some(|l|);
      assert forall i :: 0 <= i < |tail| ==> tail[i] == ls[i + 1];
      LinesOfUnlines(tail);
    }
  }

  /** The length of the lines joined with a newline after each. */
  function Len(lines: seq<string>): nat {
    if lines == [] then 0 else |lines[0]| + 1 + Len(lines[1..])
  }

  lemma {:induction false} LenSuffix(lines: seq<string>, i: nat, j: nat)
    requires i <= j <= |lines|
    ensures Len(lines[j..]) <= Len(lines[i..])
    decreases j - i
  {
    if i < j {
      var rest := lines[i..];
      assert rest[1..] == lines[i + 1..];
      LenSuffix(lines, i + 1, j);
    }
  }

  /** Splitting a text never produces more than the text and one newline per line. */
  lemma {:induction false} LinesLen(s: string)
    ensures Len(Lines(s)) <= |s| + 1
    decreases |s|
  {
    if s != [] {
      match NewlineIndex(s)
      case None =>
      case Some(k) =>
        LinesLen(s[k + 1..]);
    }
  }
}
