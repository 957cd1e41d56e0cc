/**
 * The string operations the request handler relies on: Rust's `str::trim`,
 * `str::to_ascii_lowercase` and the decimal rendering `format!` gives an
 * unsigned length.
 */
module Text {

  /** Rust's `char::is_whitespace`: the characters with the Unicode White_Space property. */
  predicate IsWhitespace(c: char) {
    || ('\t' <= c <= '\r')
    || c == ' '
    || c == '\U{85}'
    || c == '\U{A0}'
    || c == '\U{1680}'
    || ('\U{2000}' <= c <= '\U{200A}')
    || c == '\U{2028}'
    || c == '\U{2029}'
    || c == '\U{202F}'
    || c == '\U{205F}'
    || c == '\U{3000}'
  }

  predicate AllWhitespace(s: string) {
    forall i :: 0 <= i < |s| ==> IsWhitespace(s[i])
  }

  /** Neither end of `s` is whitespace. */
  predicate IsTrimmed(s: string) {
    s == [] || (!IsWhitespace(s[0]) && !IsWhitespace(s[|s| - 1]))
  }

  /** `str::trim_start`: `s` without its longest all-whitespace prefix. */
  function TrimStart(s: string): (r: string)
    ensures |r| <= |s| && r == s[|s| - |r|..]
    ensures AllWhitespace(s[..|s| - |r|])
    ensures r == [] || !IsWhitespace(r[0])
    decreases |s|
  {
    if |s| > 0 && IsWhitespace(s[0]) then
      var r := TrimStart(s[1..]);
      TrimStartStep(s, r);
      r
    else
      assert s[..0] == [] && s[0..] == s;
      s
  }

  /** `str::trim_end`: `s` without its longest all-whitespace suffix. */
  function TrimEnd(s: string): (r: string)
    ensures |r| <= |s| && r == s[..|r|]
    ensures AllWhitespace(s[|r|..])
    ensures r == [] || !IsWhitespace(r[|r| - 1])
    decreases |s|
  {
    if |s| > 0 && IsWhitespace(s[|s| - 1]) then
      var r := TrimEnd(s[..|s| - 1]);
      TrimEndStep(s, r);
      r
    else
      assert s[|s|..] == [] && s[..|s|] == s;
      s
  }

  /** Putting a whitespace character back in front of a string keeps its trimmed suffix. */
  lemma TrimStartStep(s: string, r: string)
    requires |s| > 0 && IsWhitespace(s[0])
    requires var q := s[1..]; |r| <= |q| && r == q[|q| - |r|..] && AllWhitespace(q[..|q| - |r|])
    ensures |r| <= |s| && r == s[|s| - |r|..] && AllWhitespace(s[..|s| - |r|])
  {
    var q := s[1..];
    assert q[|q| - |r|..] == s[|s| - |r|..];
    var w := s[..|s| - |r|];
    forall j | 0 <= j < |w| ensures IsWhitespace(w[j]) {
      if j > 0 {
        assert w[j] == q[..|q| - |r|][j - 1];
      }
    }
  }

  /** Putting a whitespace character back behind a string keeps its trimmed prefix. */
  lemma TrimEndStep(s: string, r: string)
    requires |s| > 0 && IsWhitespace(s[|s| - 1])
    requires var p := s[..|s| - 1]; |r| <= |p| && r == p[..|r|] && AllWhitespace(p[|r|..])
    ensures |r| <= |s| && r == s[..|r|] && AllWhitespace(s[|r|..])
  {
    var p := s[..|s| - 1];
    assert p[..|r|] == s[..|r|];
    forall j | 0 <= j < |s| - |r| ensures IsWhitespace(s[|r|..][j]) {
      if j < |s| - 1 - |r| {
        assert s[|r|..][j] == p[|r|..][j];
      }
    }
  }

  /** `str::trim`: both ends stripped of whitespace. */
  function Trim(s: string): (r: string)
    ensures IsTrimmed(r)
  {
    TrimEnd(TrimStart(s))
  }

  /** `r` sits at index `i` of `s` with nothing but whitespace on either side of it. */
  predicate Surrounds(s: string, i: nat, r: string) {
    && i + |r| <= |s|
    && s[i..i + |r|] == r
    && AllWhitespace(s[..i])
    && AllWhitespace(s[i + |r|..])
  }

  /** What `Trim` removes is whitespace on either side of what it keeps. */
  lemma TrimSplits(s: string)
    ensures Surrounds(s, |s| - |TrimStart(s)|, Trim(s))
  {
    var t := TrimStart(s);
    var r := TrimEnd(t);
    Regions(s, t, r);
    assert Surrounds(s, |s| - |t|, Trim(s));
  }

  /**
   * Whitespace in front of a suffix `t` of `s`, and whitespace behind a prefix
   * `r` of `t`, surround `r` in `s`.
   */
  lemma Regions(s: string, t: string, r: string)
    requires |t| <= |s| && t == s[|s| - |t|..] && AllWhitespace(s[..|s| - |t|])
    requires |r| <= |t| && r == t[..|r|] && AllWhitespace(t[|r|..])
    ensures Surrounds(s, |s| - |t|, r)
  {
    var i := |s| - |t|;
    assert s[i..][..|r|] == s[i..i + |r|];
    assert s[i..][|r|..] == s[i + |r|..];
  }

  /** Stripping a leading run of whitespace in front of a non-whitespace character. */
  lemma {:induction false} TrimStartOf(w: string, x: string)
    requires AllWhitespace(w)
    requires x == [] || !IsWhitespace(x[0])
    ensures TrimStart(w + x) == x
    decreases |w|
  {
    if w != [] {
      assert (w + x)[1..] == w[1..] + x;
      TrimStartOf(w[1..], x);
    }
  }

  /** Stripping a trailing run of whitespace after a non-whitespace character. */
  lemma {:induction false} TrimEndOf(x: string, w: string)
    requires AllWhitespace(w)
    requires x == [] || !IsWhitespace(x[|x| - 1])
    ensures TrimEnd(x + w) == x
    decreases |w|
  {
    if w != [] {
      var w' := w[..|w| - 1];
      assert (x + w)[..|x + w| - 1] == x + w';
      TrimEndOf(x, w');
    } else {
      assert x + w == x;
    }
  }

  /**
   * `Trim` is characterised by its result: whatever whitespace surrounds a
   * string whose ends are not whitespace, trimming yields exactly that string.
   */
  lemma TrimSurrounded(lead: string, core: string, tail: string)
    requires AllWhitespace(lead) && AllWhitespace(tail) && IsTrimmed(core)
    ensures Trim(lead + core + tail) == core
  {
    if core == [] {
      assert lead + core + tail == lead + tail + [];
      TrimStartOf(lead + tail, []);
    } else {
      assert lead + core + tail == lead + (core + tail);
      TrimStartOf(lead, core + tail);
      TrimEndOf(core, tail);
    }
  }

  lemma TrimIdempotent(s: string)
    ensures Trim(Trim(s)) == Trim(s)
  {
    var r := Trim(s);
    assert IsTrimmed(r);
    assert TrimStart(r) == r;
    assert TrimEnd(r) == r;
  }

  /** `char::to_ascii_lowercase`: 'A'..'Z' become 'a'..'z', everything else is kept. */
  function LowerChar(c: char): char {
    if 'A' <= c <= 'Z' then (c as int + 32) as char else c
  }

  function UpperChar(c: char): char {
    if 'a' <= c <= 'z' then (c as int - 32) as char else c
  }

  /** `str::to_ascii_lowercase`. */
  function AsciiLower(s: string): (r: string)
    ensures |r| == |s|
    ensures forall i :: 0 <= i < |r| ==> !('A' <= r[i] <= 'Z')
    ensures forall i :: 0 <= i < |s| ==>
      r[i] == s[i] || ('A' <= s[i] <= 'Z' && r[i] as int == s[i] as int + 32)
  {
    seq(|s|, i requires 0 <= i < |s| => LowerChar(s[i]))
  }

  predicate IsLowerWord(w: string) {
    forall i :: 0 <= i < |w| ==> 'a' <= w[i] <= 'z'
  }

  /**
   * A string lowercases to a word of lower-case letters exactly when it spells
   * that word with each letter in either case.
   */
  lemma AsciiLowerMatches(s: string, w: string)
    requires IsLowerWord(w)
    ensures AsciiLower(s) == w <==>
      |s| == |w| && forall i :: 0 <= i < |s| ==> s[i] == w[i] || s[i] == UpperChar(w[i])
  {
    if |s| == |w| && forall i :: 0 <= i < |s| ==> s[i] == w[i] || s[i] == UpperChar(w[i]) {
      forall i | 0 <= i < |s| ensures AsciiLower(s)[i] == w[i] { }
    }
  }

  /** Only a letter lower-cases to a letter. */
  lemma AsciiLowerLetters(s: string, w: string)
    requires IsLowerWord(w) && AsciiLower(s) == w
    ensures forall i :: 0 <= i < |s| ==> 'a' <= s[i] <= 'z' || 'A' <= s[i] <= 'Z'
  {
    forall i | 0 <= i < |s| ensures 'a' <= s[i] <= 'z' || 'A' <= s[i] <= 'Z' {
      assert LowerChar(s[i]) == w[i];
    }
  }

  function Digit(d: nat): (c: char)
    requires d < 10
  {
    ('0' as int + d) as char
  }

  predicate IsDigit(c: char) {
    '0' <= c <= '9'
  }

  /** The value of a string of decimal digits, most significant first. */
  function DigitsValue(s: string): nat
    requires forall i :: 0 <= i < |s| ==> IsDigit(s[i])
  {
    if s == [] then 0
    else
      assert IsDigit(s[|s| - 1]);
      DigitsValue(s[..|s| - 1]) * 10 + (s[|s| - 1] as int - '0' as int)
  }

  /** How `format!("{}", n)` renders an unsigned integer. */
  function Decimal(n: nat): (r: string)
    ensures 1 <= |r|
    ensures forall i :: 0 <= i < |r| ==> IsDigit(r[i])
    ensures r[0] == '0' ==> n == 0 && r == "0"
  {
    if n < 10 then [Digit(n)] else Decimal(n / 10) + [Digit(n % 10)]
  }

  /** Reading back a rendered number gives the number. */
  lemma {:induction false} DecimalValue(n: nat)
    ensures DigitsValue(Decimal(n)) == n
  {
    var r := Decimal(n);
    if n >= 10 {
      DecimalValue(n / 10);
      assert r[..|r| - 1] == Decimal(n / 10);
    }
  }
}
