/**
 * The JavaScript string primitives the back end relies on, over `seq<char>`:
 * white space as `\s` and `trim` see it, ASCII `toLowerCase`, `indexOf` /
 * `includes`, `split(/\s+/)`, decimal formatting of a number and `parseInt`.
 */
module JsString {
  import opened Wrappers

  /** ECMAScript WhiteSpace and LineTerminator: the characters matched by `\s`
      and removed by `trim` (and skipped by `parseInt`). */
  predicate IsSpace(c: char) {
    || c == '\t' || c == '\n' || c == '\U{000B}' || c == '\U{000C}' || c == '\r' || c == ' '
    || c == '\U{00A0}' || c == '\U{1680}' || ('\U{2000}' <= c <= '\U{200A}')
    || c == '\U{2028}' || c == '\U{2029}' || c == '\U{202F}' || c == '\U{205F}'
    || c == '\U{3000}' || c == '\U{FEFF}'
  }

  /** No white space anywhere in `s`. */
  predicate NoSpace(s: string) {
    forall k :: 0 <= k < |s| ==> !IsSpace(s[k])
  }

  /** `toLowerCase` on one character, restricted to ASCII letters. */
  function LowerChar(c: char): (r: char)
    ensures 'A' <= c <= 'Z' ==> r as int == c as int + 32
    ensures !('A' <= c <= 'Z') ==> r == c
  {
    if 'A' <= c <= 'Z' then (c as int + 32) as char else c
  }

  /** `toLowerCase`: maps every character and keeps the length. */
  function ToLower(s: string): (r: string)
    ensures |r| == |s|
    ensures forall k :: 0 <= k < |s| ==> r[k] == LowerChar(s[k])
  {
    seq(|s|, k requires 0 <= k < |s| => LowerChar(s[k]))
  }

  /** Lower-casing commutes with taking a slice. */
  lemma ToLowerSlice(s: string, i: nat, j: nat)
    requires i <= j <= |s|
    ensures ToLower(s[i..j]) == ToLower(s)[i..j]
  {
  }

  /** Index of the first character that is not white space. */
  function StartOfContent(s: string): (i: nat)
    ensures i <= |s|
    ensures forall k :: 0 <= k < i ==> IsSpace(s[k])
    ensures i == |s| || !IsSpace(s[i])
  {
    if |s| == 0 || !IsSpace(s[0]) then 0 else 1 + StartOfContent(s[1..])
  }

  /** Index just past the last character that is not white space. */
  function EndOfContent(s: string): (j: nat)
    ensures j <= |s|
    ensures forall k :: j <= k < |s| ==> IsSpace(s[k])
    ensures j == 0 || !IsSpace(s[j - 1])
  {
    if |s| == 0 || !IsSpace(s[|s| - 1]) then |s| else EndOfContent(s[..|s| - 1])
  }

  /** `String.prototype.trim`. The result is the slice of `s` that starts at its
      first and ends at its last non-white-space character; it is empty exactly
      when `s` is all white space. */
  function Trim(s: string): (r: string)
    ensures StartOfContent(s) + |r| <= |s|
    ensures r == s[StartOfContent(s)..StartOfContent(s) + |r|]
    ensures r != [] ==> !IsSpace(r[0]) && !IsSpace(r[|r| - 1])
    ensures forall k :: StartOfContent(s) + |r| <= k < |s| ==> IsSpace(s[k])
    ensures r == [] <==> forall k :: 0 <= k < |s| ==> IsSpace(s[k])
  {
    var i := StartOfContent(s);
    var t := s[i..];
    var j := EndOfContent(t);
    assert forall k :: j <= k < |t| ==> IsSpace(t[k]);
    t[..j]
  }

  /** A string with a character other than white space does not trim to "". */
  lemma NonSpaceNotBlank(s: string, i: nat)
    requires i < |s| && !IsSpace(s[i])
    ensures Trim(s) != ""
  {
  }

  /** `s` has no white space at either end. */
  predicate IsTrimmed(s: string) {
    s == [] || (!IsSpace(s[0]) && !IsSpace(s[|s| - 1]))
  }

  /** The trimmed strings are exactly those that trimming leaves alone. */
  lemma TrimmedIsFixedPoint(s: string)
    ensures IsTrimmed(s) <==> Trim(s) == s
  {
    if IsTrimmed(s) && s != [] {
      assert StartOfContent(s) == 0;
      assert EndOfContent(s[0..]) == |s|;
      assert s[0..] == s && s[..|s|] == s;
    }
  }

  /** Trimming a trimmed string changes nothing. */
  lemma TrimIdempotent(s: string)
    ensures Trim(Trim(s)) == Trim(s)
  {
    TrimmedIsFixedPoint(Trim(s));
  }

  /** Trimming the slice `t[start..end]` gives a slice of `t` itself, starting
      at the slice's first content character. */
  predicate TrimIsSliceOf(t: string, start: nat, end: nat)
    requires start <= end <= |t|
  {
    var c := start + StartOfContent(t[start..end]);
    var body := Trim(t[start..end]);
    c + |body| <= end && body == t[c..c + |body|]
  }

  /** Trimming a slice of `t` gives a slice of `t`. */
  lemma TrimOfSlice(t: string, start: nat, end: nat)
    requires start <= end <= |t|
    ensures TrimIsSliceOf(t, start, end)
  {
    TrimIsSlice(t[start..end], StartOfContent(t[start..end]), Trim(t[start..end]));
    SliceOfSlice(t, start, end, StartOfContent(t[start..end]), StartOfContent(t[start..end]) + |Trim(t[start..end])|);
  }

  /** The trimmed string is the slice of `s` from its first content character. */
  lemma TrimIsSlice(s: string, c: nat, body: string)
    requires c == StartOfContent(s) && body == Trim(s)
    ensures c + |body| <= |s| && body == s[c..c + |body|]
  {
  }

  lemma SliceOfSlice(t: string, start: nat, end: nat, a: nat, b: nat)
    requires start <= end <= |t| && a <= b <= end - start
    ensures t[start..end][a..b] == t[start + a..start + b]
  {
    forall k | 0 <= k < b - a ensures t[start..end][a..b][k] == t[start + a + k] {
      assert t[start..end][a..b][k] == t[start..end][a + k];
    }
  }

  /** `w` occurs in `s` starting at position `k`. */
  predicate OccursAt(s: string, w: string, k: nat) {
    k + |w| <= |s| && s[k..k + |w|] == w
  }

  /** The first position at or after `from` where `w` occurs in `s`, or -1. */
  function IndexFrom(s: string, w: string, from: nat): (r: int)
    decreases |s| - from
    ensures r == -1 || (from <= r && OccursAt(s, w, r))
    ensures r == -1 ==> forall k: nat :: from <= k ==> !OccursAt(s, w, k)
    ensures r >= 0 ==> forall k: nat :: from <= k < r ==> !OccursAt(s, w, k)
  {
    if from + |w| > |s| then -1
    else if OccursAt(s, w, from) then from
    else IndexFrom(s, w, from + 1)
  }

  /** `s.indexOf(w)`: the first position where `w` occurs in `s`, or -1 when it
      occurs nowhere. */
  function IndexOf(s: string, w: string): (r: int)
    ensures r == -1 || (0 <= r && OccursAt(s, w, r))
    ensures r == -1 <==> forall k: nat :: !OccursAt(s, w, k)
    ensures r >= 0 ==> forall k: nat :: k < r ==> !OccursAt(s, w, k)
  {
    IndexFrom(s, w, 0)
  }

  /** `s.includes(w)`. */
  predicate Contains(s: string, w: string) {
    IndexOf(s, w) >= 0
  }

  /** A witness occurrence is enough for `includes`. */
  lemma ContainsAt(s: string, w: string, k: nat)
    requires OccursAt(s, w, k)
    ensures Contains(s, w)
  {
  }

  /** An occurrence inside an occurrence is an occurrence. */
  lemma OccursWithin(s: string, t: string, k: nat, w: string, j: nat)
    requires OccursAt(s, t, k) && OccursAt(t, w, j)
    ensures OccursAt(s, w, k + j)
  {
    forall m | 0 <= m < |w| ensures s[k + j + m] == w[m] {
      assert s[k + j + m] == s[k..k + |t|][j + m] == t[j + m] == t[j..j + |w|][m];
    }
    assert s[k + j..k + j + |w|] == w;
  }

  /** Length of the run of non-white-space characters at the front of `s`. */
  function RunLength(s: string): (n: nat)
    ensures n <= |s|
    ensures forall k :: 0 <= k < n ==> !IsSpace(s[k])
    ensures n == |s| || IsSpace(s[n])
  {
    if |s| == 0 || IsSpace(s[0]) then 0 else 1 + RunLength(s[1..])
  }

  /** The maximal runs of non-white-space characters of `s`, in order: what
      `s.split(/\s+/)` returns once its empty leading and trailing fields are
      dropped. */
  function Tokens(s: string): (ts: seq<string>)
    decreases |s|
    ensures forall t <- ts :: t != [] && NoSpace(t)
  {
    if |s| == 0 then []
    else if IsSpace(s[0]) then Tokens(s[1..])
    else
      var n := RunLength(s);
      [s[..n]] + Tokens(s[n..])
  }

  /** The white space around and between the tokens of `s`: before the
      first, between each two, and after the last. */
  function Gaps(s: string): (gs: seq<string>)
    decreases |s|
    ensures |gs| >= 1
  {
    if |s| == 0 then [[]]
    else if IsSpace(s[0]) then
      var g := Gaps(s[1..]);
      [[s[0]] + g[0]] + g[1..]
    else
      var n := RunLength(s);
      [[]] + Gaps(s[n..])
  }

  /** `gs[0] + ts[0] + gs[1] + ... + ts[n-1] + gs[n]`. */
  function Weave(gs: seq<string>, ts: seq<string>): string
    requires |gs| == |ts| + 1
  {
    if |ts| == 0 then gs[0] else gs[0] + ts[0] + Weave(gs[1..], ts[1..])
  }

  predicate AllSpace(g: string) {
    forall k :: 0 <= k < |g| ==> IsSpace(g[k])
  }

  /** `split(/\s+/)` without its empty end fields: `s` is its tokens woven
      with white-space gaps, the inner gaps are not empty and the tokens are
      non-empty runs without white space. Such a decomposition is unique, so
      the tokens are exactly the maximal runs of `s`, in order. */
  lemma {:induction false} TokensWeave(s: string)
    decreases |s|
    ensures |Gaps(s)| == |Tokens(s)| + 1
    ensures Weave(Gaps(s), Tokens(s)) == s
    ensures forall i :: 0 <= i < |Gaps(s)| ==> AllSpace(Gaps(s)[i])
    ensures forall i :: 0 < i < |Tokens(s)| ==> Gaps(s)[i] != []
    ensures forall t <- Tokens(s) :: t != [] && NoSpace(t)
  {
    if |s| > 0 {
      if IsSpace(s[0]) {
        var rest := s[1..];
        TokensWeave(rest);
        var g := Gaps(rest);
        assert Tokens(s) == Tokens(rest);
        assert Gaps(s) == [[s[0]] + g[0]] + g[1..];
        SpaceGapFront(s[0], g[0]);
        WeaveSpaceFront(s[0], g, Tokens(rest));
        assert [s[0]] + rest == s;
      } else {
        var n := RunLength(s);
        var rest := s[n..];
        TokensWeave(rest);
        var g := Gaps(rest);
        assert Tokens(s) == [s[..n]] + Tokens(rest);
        assert Gaps(s) == [[]] + g;
        WeaveTokenFront(s[..n], g, Tokens(rest));
        assert s[..n] + rest == s;
        if |Tokens(rest)| > 0 {
          assert rest != [] && IsSpace(rest[0]);
          assert g[0] == [rest[0]] + Gaps(rest[1..])[0];
        }
      }
    }
  }

  /** A white-space character before a white-space gap gives a white-space gap. */
  lemma SpaceGapFront(c: char, g: string)
    requires IsSpace(c) && AllSpace(g)
    ensures AllSpace([c] + g)
  {
    var h := [c] + g;
    forall k | 0 < k < |h| ensures IsSpace(h[k]) {
      assert h[k] == g[k - 1];
    }
  }

  /** Putting a character in front of the first gap puts it in front of the weave. */
  lemma WeaveSpaceFront(c: char, g: seq<string>, ts: seq<string>)
    requires |g| == |ts| + 1
    ensures Weave([[c] + g[0]] + g[1..], ts) == [c] + Weave(g, ts)
  {
    var gs := [[c] + g[0]] + g[1..];
    if |ts| > 0 {
      assert gs[1..] == g[1..];
      assert Weave(gs, ts) == ([c] + g[0]) + ts[0] + Weave(g[1..], ts[1..]);
    }
  }

  /** A token with an empty gap before it goes in front of the weave. */
  lemma WeaveTokenFront(t: string, g: seq<string>, ts: seq<string>)
    requires |g| == |ts| + 1
    ensures Weave([[]] + g, [t] + ts) == t + Weave(g, ts)
  {
    var gs, all := [[]] + g, [t] + ts;
    assert gs[0] == [] && all[0] == t;
    assert gs[1..] == g && all[1..] == ts;
    assert Weave(gs, all) == gs[0] + all[0] + Weave(g, ts);
    assert [] + t == t;
  }

  /** Value of a digit in radices up to 16; 99 for any other character. */
  function DigitValue(c: char): nat {
    if '0' <= c <= '9' then c as int - '0' as int
    else if 'a' <= c <= 'f' then c as int - 'a' as int + 10
    else if 'A' <= c <= 'F' then c as int - 'A' as int + 10
    else 99
  }

  /** The decimal digit character of `d`. */
  function DigitChar(d: nat): (c: char)
    requires d < 10
    ensures DigitValue(c) == d
  {
    ('0' as int + d) as char
  }

  /** Length of the run of radix-`radix` digits at the front of `s`. */
  function DigitRun(s: string, radix: nat): (n: nat)
    ensures n <= |s|
    ensures forall k :: 0 <= k < n ==> DigitValue(s[k]) < radix
    ensures n == |s| || DigitValue(s[n]) >= radix
  {
    if |s| == 0 || DigitValue(s[0]) >= radix then 0 else 1 + DigitRun(s[1..], radix)
  }

  /** The number written by the digits `ds` in radix `radix`, most significant first. */
  function DigitsValue(ds: string, radix: nat): nat {
    if |ds| == 0 then 0
    else DigitsValue(ds[..|ds| - 1], radix) * radix + DigitValue(ds[|ds| - 1])
  }

  /** Template-literal formatting of a non-negative integer: its decimal digits. */
  function NatToString(n: nat): (r: string)
    ensures r != []
    ensures forall c <- r :: '0' <= c <= '9'
  {
    if n < 10 then [DigitChar(n)] else NatToString(n / 10) + [DigitChar(n % 10)]
  }

  /** `parseInt(s)` with no radix: skip leading white space, read an optional
      sign, then an unsigned number; no digit at all is NaN, written `None`. */
  function ParseInt(s: string): (r: Option<int>)
  {
    var t := s[StartOfContent(s)..];
    if |t| > 0 && t[0] == '-' then
      match ParseUnsigned(t[1..])
      case None => None
      case Some(v) => Some(-v)
    else if |t| > 0 && t[0] == '+' then ParseUnsigned(t[1..])
    else ParseUnsigned(t)
  }

  /** The unsigned part of `parseInt`: radix 16 after a `0x`/`0X` prefix,
      otherwise 10, and the value of the longest run of digits at the front. */
  function ParseUnsigned(u: string): (r: Option<int>)
  {
    var hex := |u| >= 2 && u[0] == '0' && (u[1] == 'x' || u[1] == 'X');
    var radix := if hex then 16 else 10;
    var digits := if hex then u[2..] else u;
    var n := DigitRun(digits, radix);
    if n == 0 then None else Some(DigitsValue(digits[..n], radix))
  }

  lemma {:induction false} DigitsOfNatToString(n: nat)
    ensures DigitsValue(NatToString(n), 10) == n
  {
    if n >= 10 {
      DigitsOfNatToString(n / 10);
      var s := NatToString(n / 10) + [DigitChar(n % 10)];
      assert s[..|s| - 1] == NatToString(n / 10);
    }
  }

  /** A string made of decimal digits only is one run of decimal digits. */
  lemma {:induction false} DigitRunOfDigits(s: string)
    requires forall c <- s :: '0' <= c <= '9'
    ensures DigitRun(s, 10) == |s|
  {
    if |s| > 0 {
      assert s[0] in s;
      assert forall c <- s[1..] :: c in s;
      DigitRunOfDigits(s[1..]);
    }
  }

  /** Formatting a number and reading it back with `parseInt` is the identity. */
  lemma ParseIntOfNatToString(n: nat)
    ensures ParseInt(NatToString(n)) == Some(n)
  {
    ParseIntOfDigits(NatToString(n));
    DigitsOfNatToString(n);
  }

  /** `parseInt` of a non-empty string of decimal digits is their value. */
  lemma ParseIntOfDigits(s: string)
    requires s != [] && forall c <- s :: '0' <= c <= '9'
    ensures ParseInt(s) == Some(DigitsValue(s, 10))
  {
    assert s[0] in s;
    assert !IsSpace(s[0]);
    assert StartOfContent(s) == 0;
    assert s[0..] == s;
    ParseUnsignedOfDigits(s);
  }

  /** The unsigned reading of decimal digits only: no hexadecimal prefix, and
      every character is part of the number. */
  lemma ParseUnsignedOfDigits(s: string)
    requires s != [] && forall c <- s :: '0' <= c <= '9'
    ensures ParseUnsigned(s) == Some(DigitsValue(s, 10))
  {
    if |s| >= 2 {
      assert s[1] in s;
    }
    DigitRunOfDigits(s);
    assert s[..|s|] == s;
  }
}
