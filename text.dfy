/**
  Character classes and the string operations the ingestion code takes from
  Python's `str` and `re`: `lower()`, `isalpha()`, `strip()`, `split()`,
  `endswith()`, `join()`, the regular-expression classes `\w`, `\d`, `\s`,
  and the decimal rendering of integers used in report labels.

  The classes cover ASCII and the letters of the Spanish alphabet
  (á é í ó ú ü ñ and their capitals); every other character is treated as
  neither a letter, a digit nor whitespace.
 */
module Text {

  // ---------------------------------------------------------------------------
  // Character classes
  // ---------------------------------------------------------------------------

  /**
    `\s` in a regular expression, and the separators of `str.split()` /
    `str.strip()`: the ASCII whitespace, including the file, group, record
    and unit separators U+001C to U+001F.
   */
  predicate IsSpace(c: char) {
    c == ' ' || c == '\t' || c == '\n' || c == '\r' || c == '\U{B}' || c == '\U{C}' || ('\U{1C}' <= c <= '\U{1F}')
  }

  /** `\d`. */
  predicate IsDigit(c: char) {
    '0' <= c <= '9'
  }

  predicate IsUpper(c: char) {
    ('A' <= c <= 'Z') || c == 'Á' || c == 'É' || c == 'Í' || c == 'Ó' || c == 'Ú' || c == 'Ü' || c == 'Ñ'
  }

  predicate IsLowerLetter(c: char) {
    ('a' <= c <= 'z') || c == 'á' || c == 'é' || c == 'í' || c == 'ó' || c == 'ú' || c == 'ü' || c == 'ñ'
  }

  /** `str.isalpha()` for one character. */
  predicate IsAlpha(c: char) {
    IsUpper(c) || IsLowerLetter(c)
  }

  /** `\w`: letters, digits and the underscore. */
  predicate IsWordChar(c: char) {
    IsAlpha(c) || IsDigit(c) || c == '_'
  }

  /** Whitespace is neither a word character nor a digit. */
  lemma SpaceIsNotWordChar(c: char)
    requires IsSpace(c)
    ensures !IsWordChar(c) && !IsDigit(c)
  {
  }

  /** `str.lower()` for one character: capitals map to their small letter, the rest is kept. */
  function Lower(c: char): (d: char)
    ensures IsAlpha(d) == IsAlpha(c) && IsDigit(d) == IsDigit(c) && IsSpace(d) == IsSpace(c)
    ensures IsWordChar(d) == IsWordChar(c)
    ensures !IsUpper(d)
    ensures !IsUpper(c) ==> d == c
  {
    if IsUpper(c) then (c as int + 32) as char else c
  }

  /** `str.lower()`. */
  function LowerStr(s: string): (r: string)
    ensures |r| == |s|
    ensures forall i :: 0 <= i < |s| ==> r[i] == Lower(s[i])
  {
    seq(|s|, i requires 0 <= i < |s| => Lower(s[i]))
  }

  /** A string that `lower()` leaves as it is. */
  predicate IsLowerCase(s: string) {
    forall i :: 0 <= i < |s| ==> !IsUpper(s[i])
  }

  lemma LowerStrIsLowerCase(s: string)
    ensures IsLowerCase(LowerStr(s))
    ensures LowerStr(LowerStr(s)) == LowerStr(s)
    ensures IsLowerCase(s) ==> LowerStr(s) == s
  {
  }

  /** `str.isalpha()`: non-empty and made of letters only. */
  predicate IsAlphaWord(w: string) {
    |w| > 0 && forall i :: 0 <= i < |w| ==> IsAlpha(w[i])
  }

  /** Every character of `s` is a decimal digit. */
  predicate AllDigits(s: string) {
    forall i :: 0 <= i < |s| ==> IsDigit(s[i])
  }

  /** `s.endswith(suffix)`. */
  predicate EndsWith(s: string, suffix: string) {
    |suffix| <= |s| && s[|s| - |suffix|..] == suffix
  }

  // ---------------------------------------------------------------------------
  // strip() and split()
  // ---------------------------------------------------------------------------

  /** Number of whitespace characters at the start of `s`. */
  function LeadingSpaces(s: string): (k: nat)
    ensures k <= |s|
    ensures forall i :: 0 <= i < k ==> IsSpace(s[i])
    ensures k < |s| ==> !IsSpace(s[k])
  {
    if s != [] && IsSpace(s[0]) then 1 + LeadingSpaces(s[1..]) else 0
  }

  /** Number of whitespace characters at the end of `s`. */
  function TrailingSpaces(s: string): (k: nat)
    ensures k <= |s|
    ensures forall i :: |s| - k <= i < |s| ==> IsSpace(s[i])
    ensures k < |s| ==> !IsSpace(s[|s| - 1 - k])
  {
    if s != [] && IsSpace(s[|s| - 1]) then 1 + TrailingSpaces(s[..|s| - 1]) else 0
  }

  /** `str.strip()`: `s` without its leading and trailing whitespace. */
  function Strip(s: string): (r: string)
    ensures r == [] <==> forall i :: 0 <= i < |s| ==> IsSpace(s[i])
    ensures r != [] ==> !IsSpace(r[0]) && !IsSpace(r[|r| - 1])
    ensures LeadingSpaces(s) < |s| ==> LeadingSpaces(s) + TrailingSpaces(s) < |s|
    ensures LeadingSpaces(s) < |s| ==> r == s[LeadingSpaces(s)..|s| - TrailingSpaces(s)]
  {
    var a := LeadingSpaces(s);
    if a == |s| then []
    else
      assert !IsSpace(s[a]);
      s[a..|s| - TrailingSpaces(s)]
  }

  /** Stripping twice strips nothing more. */
  lemma {:induction false} StripIdempotent(s: string)
    ensures Strip(Strip(s)) == Strip(s)
  {
    var r := Strip(s);
    if r != [] {
      assert LeadingSpaces(r) == 0;
      assert TrailingSpaces(r) == 0;
    }
  }

  /** Length of the run of non-whitespace characters that starts `s`. */
  function TokenLength(s: string): (k: nat)
    ensures k <= |s|
    ensures forall i :: 0 <= i < k ==> !IsSpace(s[i])
    ensures k < |s| ==> IsSpace(s[k])
  {
    if s == [] || IsSpace(s[0]) then 0 else 1 + TokenLength(s[1..])
  }

  /** A token as `split()` produces it: non-empty, without whitespace. */
  predicate IsToken(w: string) {
    |w| > 0 && forall i :: 0 <= i < |w| ==> !IsSpace(w[i])
  }

  /** `str.split()` with no argument: the maximal runs of non-whitespace characters, in order. */
  function Split(s: string): (ws: seq<string>)
    ensures forall k :: 0 <= k < |ws| ==> IsToken(ws[k])
    decreases |s|
  {
    if s == [] then []
    else if IsSpace(s[0]) then Split(s[1..])
    else [s[..TokenLength(s)]] + Split(s[TokenLength(s)..])
  }

  /** Every character of every token is a character of the text. */
  lemma {:induction false} SplitChars(s: string)
    ensures forall k, i :: 0 <= k < |Split(s)| && 0 <= i < |Split(s)[k]| ==> Split(s)[k][i] in s
    decreases |s|
  {
    if s != [] {
      if IsSpace(s[0]) {
        SplitChars(s[1..]);
        forall k, i | 0 <= k < |Split(s)| && 0 <= i < |Split(s)[k]| ensures Split(s)[k][i] in s {
          assert Split(s)[k][i] in s[1..];
        }
      } else {
        var n := TokenLength(s);
        SplitChars(s[n..]);
        forall k, i | 0 <= k < |Split(s)| && 0 <= i < |Split(s)[k]| ensures Split(s)[k][i] in s {
          if k > 0 {
            assert Split(s)[k] == Split(s[n..])[k - 1];
            assert Split(s)[k][i] in s[n..];
          } else {
            assert Split(s)[k][i] == s[i];
          }
        }
      }
    }
  }

  /** `sep.join(parts)`. */
  function JoinWith(sep: string, parts: seq<string>): (r: string)
    ensures |parts| == 1 ==> r == parts[0]
    ensures parts == [] ==> r == []
  {
    if parts == [] then []
    else if |parts| == 1 then parts[0]
    else parts[0] + sep + JoinWith(sep, parts[1..])
  }

  lemma {:induction false} SplitOfSpaceThenText(s: string)
    requires s != [] && IsSpace(s[0])
    ensures Split(s) == Split(s[1..])
  {
  }

  lemma {:induction false} SplitOfTokenThenRest(w: string, rest: string)
    requires IsToken(w)
    requires rest == [] || IsSpace(rest[0])
    ensures Split(w + rest) == [w] + Split(rest)
  {
    var s := w + rest;
    assert TokenLength(s) == |w| by {
      TokenLengthOfToken(w, rest);
    }
    assert s[..|w|] == w;
    assert s[|w|..] == rest;
  }

  lemma {:induction false} TokenLengthOfToken(w: string, rest: string)
    requires forall i :: 0 <= i < |w| ==> !IsSpace(w[i])
    requires rest == [] || IsSpace(rest[0])
    ensures TokenLength(w + rest) == |w|
    decreases |w|
  {
    if w != [] {
      assert (w + rest)[1..] == w[1..] + rest;
      TokenLengthOfToken(w[1..], rest);
    }
  }

  /** Splitting the space-joined tokens gives the tokens back: `split()` inverts `" ".join`. */
  lemma {:induction false} SplitJoinRoundTrip(ws: seq<string>)
    requires forall k :: 0 <= k < |ws| ==> IsToken(ws[k])
    ensures Split(JoinWith(" ", ws)) == ws
  {
    if ws == [] {
    } else if |ws| == 1 {
      SplitOfTokenThenRest(ws[0], []);
      assert ws[0] + [] == ws[0];
    } else {
      var tail := JoinWith(" ", ws[1..]);
      SplitJoinRoundTrip(ws[1..]);
      assert JoinWith(" ", ws) == ws[0] + (" " + tail);
      SplitOfTokenThenRest(ws[0], " " + tail);
      SplitOfSpaceThenText(" " + tail);
      assert (" " + tail)[1..] == tail;
      assert ws == [ws[0]] + ws[1..];
    }
  }

  // ---------------------------------------------------------------------------
  // File names
  // ---------------------------------------------------------------------------

  /** `s.split('/')[-1]`: what follows the last `'/'` of `s` (all of `s` when it has none). */
  function Basename(s: string): string
  {
    if s == [] then []
    else if s[|s| - 1] == '/' then []
    else Basename(s[..|s| - 1]) + [s[|s| - 1]]
  }

  /**
    The base name is the longest suffix without '/': it has none, it ends
    `s`, it is all of `s` when `s` has none, and a '/' precedes it otherwise.
   */
  lemma {:induction false} BasenameSpec(s: string)
    ensures var r := Basename(s);
      && '/' !in r
      && |r| <= |s| && r == s[|s| - |r|..]
      && ('/' !in s ==> r == s)
      && (|r| < |s| ==> s[|s| - |r| - 1] == '/')
    decreases |s|
  {
    if s != [] && s[|s| - 1] != '/' {
      var init, c := s[..|s| - 1], s[|s| - 1];
      BasenameSpec(init);
      var b := Basename(init);
      var r := b + [c];
      assert Basename(s) == r;
      assert s[|s| - |r|..] == init[|init| - |b|..] + [c];
      assert '/' !in s ==> '/' !in init && init + [c] == s;
      if |r| < |s| {
        assert s[|s| - |r| - 1] == init[|init| - |b| - 1];
      }
    }
  }

  /** Text without '/' appended to a path is appended to its base name. */
  lemma {:induction false} BasenameAppend(p: string, q: string)
    requires '/' !in q
    ensures Basename(p + q) == Basename(p) + q
    decreases |q|
  {
    if q == [] {
      assert p + q == p;
    } else {
      var front, c := q[..|q| - 1], q[|q| - 1];
      var s := p + q;
      assert s[..|s| - 1] == p + front;
      assert s[|s| - 1] == c;
      assert c in q;
      assert Basename(s) == Basename(p + front) + [c];
      assert forall x :: x in front ==> x in q;
      BasenameAppend(p, front);
      SnocAssoc(Basename(p), front, c);
      assert front + [c] == q;
    }
  }

  lemma SnocAssoc(a: string, b: string, c: char)
    ensures a + b + [c] == a + (b + [c])
  {
  }

  /** A suffix without '/' survives taking the base name. */
  lemma BasenameKeepsSuffix(name: string, suffix: string)
    requires EndsWith(name, suffix) && '/' !in suffix
    ensures EndsWith(Basename(name), suffix)
  {
    var p := name[..|name| - |suffix|];
    assert name == p + suffix;
    BasenameAppend(p, suffix);
    var b := Basename(p);
    assert (b + suffix)[|b|..] == suffix;
  }

  /** Lowercasing works character by character, so it distributes over concatenation. */
  lemma LowerStrAppend(a: string, b: string)
    ensures LowerStr(a + b) == LowerStr(a) + LowerStr(b)
  {
    var l, r := LowerStr(a + b), LowerStr(a) + LowerStr(b);
    forall i | 0 <= i < |l| ensures l[i] == r[i] {
      if i < |a| {
        assert (a + b)[i] == a[i];
      } else {
        assert (a + b)[i] == b[i - |a|];
      }
    }
  }

  /** A lowercase suffix survives `lower()`. */
  lemma LowerKeepsSuffix(s: string, suffix: string)
    requires EndsWith(s, suffix) && LowerStr(suffix) == suffix
    ensures EndsWith(LowerStr(s), suffix)
  {
    var p := s[..|s| - |suffix|];
    assert s == p + suffix;
    LowerStrAppend(p, suffix);
    var l := LowerStr(p);
    assert (l + suffix)[|l|..] == suffix;
  }

  /** A suffix of `b` is a suffix of `a + b`. */
  lemma EndsWithAppend(a: string, b: string, suffix: string)
    requires EndsWith(b, suffix)
    ensures EndsWith(a + b, suffix)
  {
    assert (a + b)[|a + b| - |suffix|..] == b[|b| - |suffix|..];
  }

  // ---------------------------------------------------------------------------
  // Decimal numerals: f"{n}" and int(s)
  // ---------------------------------------------------------------------------

  function DigitChar(d: nat): (c: char)
    requires d < 10
    ensures IsDigit(c)
  {
    ('0' as int + d) as char
  }

  function DigitValue(c: char): (d: nat)
    requires IsDigit(c)
    ensures d < 10
  {
    c as int - '0' as int
  }

  /** The decimal rendering of `n`, as `str(n)` gives it. */
  function NatToString(n: nat): (s: string)
    ensures |s| >= 1 && AllDigits(s)
    ensures |s| > 1 ==> s[0] != '0'
    decreases n
  {
    if n < 10 then [DigitChar(n)]
    else
      var p := NatToString(n / 10);
      p + [DigitChar(n % 10)]
  }

  /** `int(s)` for a string of decimal digits. */
  function ParseDigits(s: string): nat
    requires AllDigits(s)
  {
    if s == [] then 0 else 10 * ParseDigits(s[..|s| - 1]) + DigitValue(s[|s| - 1])
  }

  /** Reading back the rendering of `n` gives `n`. */
  lemma {:induction false} ParseNatToString(n: nat)
    ensures ParseDigits(NatToString(n)) == n
    decreases n
  {
    var s := NatToString(n);
    if n >= 10 {
      ParseNatToString(n / 10);
      assert s[..|s| - 1] == NatToString(n / 10);
    }
  }

  /** Different numbers have different renderings. */
  lemma NatToStringInjective(m: nat, n: nat)
    requires NatToString(m) == NatToString(n)
    ensures m == n
  {
    ParseNatToString(m);
    ParseNatToString(n);
  }
}
