/**
 * The parts of the JavaScript runtime that the QR generator's core relies on,
 * modelled on exact values: String.prototype.trim, the first-occurrence form of
 * String.prototype.replace, parseInt for radixes 10 and 16, Number.prototype.toString(16),
 * String.prototype.padStart, ASCII case mapping and Node's path.extname.
 */
module JsBuiltins {
  import opened Wrappers

  // ---------------------------------------------------------------------------
  // White space and trim
  // ---------------------------------------------------------------------------

  /**
   * The characters ECMAScript's trim removes: WhiteSpace (tab, vertical tab, form feed, space,
   * no-break space, the byte order mark and every Zs character: U+1680, U+2000 to U+200A, U+202F,
   * U+205F, U+3000) and LineTerminator (line feed, carriage return, U+2028, U+2029).
   */
  predicate IsJsWhiteSpace(c: char) {
    ('\t' <= c <= '\r') || c == ' ' || c == '\U{00A0}' || c == '\U{1680}'
    || ('\U{2000}' <= c <= '\U{200A}') || c == '\U{2028}' || c == '\U{2029}' || c == '\U{202F}'
    || c == '\U{205F}' || c == '\U{3000}' || c == '\U{FEFF}'
  }

  predicate AllWhiteSpace(s: string) {
    forall k :: 0 <= k < |s| ==> IsJsWhiteSpace(s[k])
  }

  /** Neither the first nor the last character is white space. */
  predicate IsTrimmed(s: string) {
    s == [] || (!IsJsWhiteSpace(s[0]) && !IsJsWhiteSpace(s[|s| - 1]))
  }

  /** Removes leading white space: the result is the suffix left after the longest white-space prefix. */
  function TrimStart(s: string): (r: string)
    ensures |r| <= |s| && r == s[|s| - |r|..]
    ensures AllWhiteSpace(s[..|s| - |r|])
    ensures r == [] || !IsJsWhiteSpace(r[0])
  {
    if |s| > 0 && IsJsWhiteSpace(s[0]) then
      var r := TrimStart(s[1..]);
      TrimStartStep(s, r);
      r
    else s
  }

  /** Removes trailing white space: the result is the prefix left after the longest white-space suffix. */
  function TrimEnd(s: string): (r: string)
    ensures |r| <= |s| && r == s[..|r|]
    ensures AllWhiteSpace(s[|r|..])
    ensures r == [] || !IsJsWhiteSpace(r[|r| - 1])
  {
    if |s| > 0 && IsJsWhiteSpace(s[|s| - 1]) then
      var r := TrimEnd(s[..|s| - 1]);
      TrimEndStep(s, r);
      r
    else s
  }

  /** One white-space character in front of a string and its trimmed suffix. */
  lemma TrimStartStep(s: string, r: string)
    requires |s| > 0 && IsJsWhiteSpace(s[0])
    requires |r| <= |s| - 1 && r == s[1..][|s| - 1 - |r|..] && AllWhiteSpace(s[1..][..|s| - 1 - |r|])
    ensures r == s[|s| - |r|..] && AllWhiteSpace(s[..|s| - |r|])
  {
    assert s[..|s| - |r|] == [s[0]] + s[1..][..|s| - 1 - |r|];
  }

  /** One white-space character behind a string and its trimmed prefix. */
  lemma TrimEndStep(s: string, r: string)
    requires |s| > 0 && IsJsWhiteSpace(s[|s| - 1])
    requires |r| <= |s| - 1 && r == s[..|s| - 1][..|r|] && AllWhiteSpace(s[..|s| - 1][|r|..])
    ensures r == s[..|r|] && AllWhiteSpace(s[|r|..])
  {
    assert s[|r|..] == s[..|s| - 1][|r|..] + [s[|s| - 1]];
  }

  /** String.prototype.trim: the input with its white-space prefix and white-space suffix cut off. */
  function Trim(s: string): (r: string)
    ensures IsTrimmed(r)
    ensures exists i :: IsTrimOf(s, r, i)
  {
    var t := TrimStart(s);
    var r := TrimEnd(t);
    TrimSplit(s, t, r);
    r
  }

  /** `r` is `s` with the white-space prefix `s[..i]` and a white-space suffix cut off. */
  predicate IsTrimOf(s: string, r: string, i: int) {
    0 <= i <= |s| - |r| && r == s[i..i + |r|] && AllWhiteSpace(s[..i]) && AllWhiteSpace(s[i + |r|..])
  }

  /**
   * A white-space prefix cut off `s` (leaving `t`), then a white-space suffix cut off `t`
   * (leaving `r`), is one trim of `s`.
   */
  lemma TrimSplit(s: string, t: string, r: string)
    requires |t| <= |s| && t == s[|s| - |t|..] && AllWhiteSpace(s[..|s| - |t|])
    requires |r| <= |t| && r == t[..|r|] && AllWhiteSpace(t[|r|..])
    ensures IsTrimOf(s, r, |s| - |t|)
  {
    var i := |s| - |t|;
    assert s[i + |r|..] == t[|r|..];
  }

  /** A string without surrounding white space is left as it is by trim. */
  lemma TrimOfTrimmed(s: string)
    requires IsTrimmed(s)
    ensures Trim(s) == s
  {
  }

  /** trim yields the empty string exactly for white-space-only input. */
  lemma TrimEmptyIff(s: string)
    ensures Trim(s) == [] <==> AllWhiteSpace(s)
  {
    var r := Trim(s);
    var i :| IsTrimOf(s, r, i);
    if r == [] {
      forall k | 0 <= k < |s| ensures IsJsWhiteSpace(s[k]) {
        if k >= i { assert s[k] == s[i..][k - i]; } else { assert s[k] == s[..i][k]; }
      }
    }
    if r != [] {
      assert r[0] == s[i];
    }
  }

  lemma TrimIdempotent(s: string)
    ensures Trim(Trim(s)) == Trim(s)
  {
    TrimOfTrimmed(Trim(s));
  }

  // ---------------------------------------------------------------------------
  // replace (first occurrence) and trailing-character stripping
  // ---------------------------------------------------------------------------

  /** The index of the first `c` in `s`, or `|s|` when there is none (indexOf, with -1 moved to |s|). */
  function FirstIndex(s: string, c: char): (i: nat)
    ensures i <= |s| && c !in s[..i]
    ensures i < |s| ==> s[i] == c
    ensures i == |s| ==> c !in s
  {
    if s == [] then 0
    else if s[0] == c then 0
    else
      var i := 1 + FirstIndex(s[1..], c);
      assert s[..i] == [s[0]] + s[1..][..i - 1];
      i
  }

  /** `s.replace(c, "")` with a one-character string pattern: only the first occurrence is removed. */
  function RemoveFirst(s: string, c: char): (r: string)
    ensures c !in s ==> r == s
    ensures c in s ==> |r| == |s| - 1 && exists i :: 0 <= i < |s| && s[i] == c && c !in s[..i] && r == s[..i] + s[i + 1..]
  {
    var i := FirstIndex(s, c);
    if i < |s| then s[..i] + s[i + 1..] else s
  }

  /** `s.replace(/c+$/, "")`: removes the whole run of `c` at the end of the string and nothing else. */
  function StripTrailing(s: string, c: char): (r: string)
    ensures |r| <= |s| && r == s[..|r|]
    ensures forall k :: |r| <= k < |s| ==> s[k] == c
    ensures r == [] || r[|r| - 1] != c
  {
    if |s| > 0 && s[|s| - 1] == c then StripTrailing(s[..|s| - 1], c) else s
  }

  lemma {:induction false} StripTrailingIdempotent(s: string, c: char)
    ensures StripTrailing(StripTrailing(s, c), c) == StripTrailing(s, c)
  {
  }

  // ---------------------------------------------------------------------------
  // Digits, parseInt
  // ---------------------------------------------------------------------------

  /** The value of a character as a digit in radixes up to 36; 36 for characters that are no digit at all. */
  function DigitValue(c: char): (v: nat)
    ensures v <= 36
  {
    if '0' <= c <= '9' then c as int - '0' as int
    else if 'a' <= c <= 'z' then c as int - 'a' as int + 10
    else if 'A' <= c <= 'Z' then c as int - 'A' as int + 10
    else 36
  }

  predicate IsHexDigit(c: char) {
    DigitValue(c) < 16
  }

  /** The longest prefix of `s` made of digits of the given radix. */
  function DigitPrefix(s: string, radix: nat): (ds: string)
    ensures |ds| <= |s| && ds == s[..|ds|]
    ensures forall k :: 0 <= k < |ds| ==> DigitValue(ds[k]) < radix
    ensures |ds| < |s| ==> DigitValue(s[|ds|]) >= radix
  {
    if |s| > 0 && DigitValue(s[0]) < radix then [s[0]] + DigitPrefix(s[1..], radix) else []
  }

  /** The number a string of digits denotes, most significant digit first. */
  function DigitsValue(ds: string, radix: nat): (v: nat)
  {
    if ds == [] then 0
    else DigitsValue(ds[..|ds| - 1], radix) * radix + DigitValue(ds[|ds| - 1])
  }

  /**
   * parseInt(s, radix) for radix 10 or 16: leading white space is skipped, one sign is read,
   * radix 16 also skips a "0x"/"0X" prefix, and the longest run of digits is converted;
   * without a single digit the result is NaN (None).
   */
  function ParseInt(s: string, radix: nat): (r: Option<int>)
    requires radix == 10 || radix == 16
  {
    var t := TrimStart(s);
    var negative := |t| > 0 && t[0] == '-';
    var u := if |t| > 0 && (t[0] == '-' || t[0] == '+') then t[1..] else t;
    var w := if radix == 16 && |u| >= 2 && u[0] == '0' && (u[1] == 'x' || u[1] == 'X') then u[2..] else u;
    var ds := DigitPrefix(w, radix);
    var magnitude: int := DigitsValue(ds, radix);
    if ds == [] then None
    else if negative then Some(-magnitude)
    else Some(magnitude)
  }

  lemma TrimStartDigit(c: char, s: string)
    requires '0' <= c <= '9' && s == [c]
    ensures TrimStart(s) == s
  {
    assert !IsJsWhiteSpace(c);
  }
  lemma DigitPrefixOne(c: char, s: string)
    requires '0' <= c <= '9' && s == [c]
    ensures DigitPrefix(s, 10) == s
  {
    assert s[1..] == [];
  }
  lemma DigitsValueOne(c: char, s: string)
    requires '0' <= c <= '9' && s == [c]
    ensures DigitsValue(s, 10) == c as int - '0' as int
  {
    assert s[..0] == [];
  }
  /** parseInt of a single decimal digit is that digit. */
  lemma ParseOneDigit(c: char)
    requires '0' <= c <= '9'
    ensures ParseInt([c], 10) == Some(c as int - '0' as int)
  {
    var s := [c];
    TrimStartDigit(c, s);
    DigitPrefixOne(c, s);
    DigitsValueOne(c, s);
  }

  // ---------------------------------------------------------------------------
  // toString(16), padStart, case mapping
  // ---------------------------------------------------------------------------

  /** The lower-case digit Number.prototype.toString uses for the value `v`. */
  function LowerHexChar(v: nat): char
    requires v < 16
  {
    if v < 10 then ('0' as int + v) as char else ('a' as int + v - 10) as char
  }

  /** Reading back the digit toString writes gives its value. */
  lemma LowerHexCharValue(v: nat)
    requires v < 16
    ensures DigitValue(LowerHexChar(v)) == v
  {
  }

  /** The digits of a natural number in radix 16, lower case, without leading zeros. */
  function NatToHex(x: nat): (s: string)
    ensures |s| >= 1
  {
    if x < 16 then [LowerHexChar(x)] else NatToHex(x / 16) + [LowerHexChar(x % 16)]
  }

  /** Number.prototype.toString(16) on an integer: a minus sign for negative values. */
  function IntToHex(x: int): string {
    if x < 0 then "-" + NatToHex(-x) else NatToHex(x)
  }

  /** String.prototype.padStart(len, fill) with a one-character fill string. */
  function PadStart(s: string, len: nat, fill: char): (r: string)
    ensures |r| == if |s| >= len then |s| else len
    ensures r[|r| - |s|..] == s
    ensures forall k :: 0 <= k < |r| - |s| ==> r[k] == fill
  {
    if |s| >= len then s else seq(len - |s|, _ => fill) + s
  }

  function UpperChar(c: char): char {
    if 'a' <= c <= 'z' then (c as int - 32) as char else c
  }

  function LowerChar(c: char): char {
    if 'A' <= c <= 'Z' then (c as int + 32) as char else c
  }

  /** String.prototype.toUpperCase restricted to ASCII letters; other characters are kept. */
  function UpperAscii(s: string): (r: string)
    ensures |r| == |s| && forall k :: 0 <= k < |s| ==> r[k] == UpperChar(s[k])
  {
    seq(|s|, k requires 0 <= k < |s| => UpperChar(s[k]))
  }

  /** String.prototype.toLowerCase restricted to ASCII letters; other characters are kept. */
  function LowerAscii(s: string): (r: string)
    ensures |r| == |s| && forall k :: 0 <= k < |s| ==> r[k] == LowerChar(s[k])
  {
    seq(|s|, k requires 0 <= k < |s| => LowerChar(s[k]))
  }

  // ---------------------------------------------------------------------------
  // path.extname (POSIX)
  // ---------------------------------------------------------------------------

  /** The part of `s` after its last '/'. */
  function LastComponent(s: string): (c: string)
    ensures |c| <= |s| && c == s[|s| - |c|..] && '/' !in c
    ensures |c| < |s| ==> s[|s| - |c| - 1] == '/'
  {
    if s == [] then s
    else if s[|s| - 1] == '/' then []
    else
      var c := LastComponent(s[..|s| - 1]) + [s[|s| - 1]];
      c
  }

  /** The index of the last '.' in `s`, if any. */
  function LastDot(s: string): (r: Option<nat>)
    ensures r.None? ==> '.' !in s
    ensures r.Some? ==> r.value < |s| && s[r.value] == '.' && '.' !in s[r.value + 1..]
  {
    if s == [] then None
    else if s[|s| - 1] == '.' then Some(|s| - 1)
    else
      var r := LastDot(s[..|s| - 1]);
      assert r.Some? ==> s[r.value + 1..] == s[..|s| - 1][r.value + 1..] + [s[|s| - 1]];
      r
  }

  /**
   * path.extname: in the last component of the path (trailing slashes ignored), the text from
   * the last '.' to its end; empty when that component has no '.', when its only '.'-run starts
   * the component (".profile"), and for "..".
   */
  function Extname(p: string): (e: string)
    ensures e == [] || (e[0] == '.' && '.' !in e[1..] && '/' !in e)
  {
    ComponentExt(LastComponent(StripTrailing(p, '/')))
  }

  /** The extension of one path component, as path.extname takes it. */
  function ComponentExt(c: string): (e: string)
    requires '/' !in c
    ensures IsSuffix(e, c)
    ensures e == [] || (e[0] == '.' && '.' !in e[1..] && '/' !in e)
  {
    match LastDot(c)
    case None => ""
    case Some(d) =>
      if d == 0 || c == ".." then "" else c[d..]
  }

  /**
   * A name made of a stem without '/' and an extension `.x…` (at least one character after the
   * dot, no further '.' and no '/') has exactly that extension, whatever dots the stem holds.
   */
  lemma ExtnameOfStemExt(stem: string, ext: string)
    requires stem != [] && '/' !in stem
    requires |ext| >= 2 && ext[0] == '.' && '.' !in ext[1..] && '/' !in ext[1..]
    ensures Extname(stem + ext) == ext
  {
    var s := stem + ext;
    assert ext[|ext| - 1] in ext[1..];
    assert s[|s| - 1] == ext[|ext| - 1];
    assert StripTrailing(s, '/') == s;
    assert '/' !in s by {
      forall k | 0 <= k < |s| ensures s[k] != '/' {
        if k < |stem| {
          assert s[k] == stem[k];
        } else if k > |stem| {
          assert s[k] == ext[1..][k - |stem| - 1];
        }
      }
    }
    var c := LastComponent(s);
    assert |c| == |s|;
    assert c == s;
    assert s[|stem| + 1..] == ext[1..];
    LastDotIs(s, |stem|);
    var d := |stem|;
    assert s != ".." by {
      assert |s| >= 3;
    }
    assert s[d..] == ext;
  }

  /** A '.' with no '.' after it is the last one. */
  lemma LastDotIs(s: string, d: nat)
    requires d < |s| && s[d] == '.' && '.' !in s[d + 1..]
    ensures LastDot(s) == Some(d)
  {
    var r := LastDot(s).value;
    NoDotAfter(s, d);
    NoDotAfter(s, r);
  }

  lemma NoDotAfter(s: string, d: nat)
    requires d < |s| && '.' !in s[d + 1..]
    ensures forall k :: d < k < |s| ==> s[k] != '.'
  {
    forall k | d < k < |s|
      ensures s[k] != '.'
    {
      assert s[k] == s[d + 1..][k - d - 1];
    }
  }

  predicate IsPrefix(a: string, b: string) {
    |a| <= |b| && a == b[..|a|]
  }

  predicate IsSuffix(a: string, b: string) {
    |a| <= |b| && a == b[|b| - |a|..]
  }

  /** The extension is a suffix of the path with its trailing slashes removed. */
  lemma ExtnameIsSuffix(p: string)
    ensures IsSuffix(Extname(p), StripTrailing(p, '/'))
  {
    var s := StripTrailing(p, '/');
    var c := LastComponent(s);
    SuffixTransitive(Extname(p), c, s);
  }

  lemma SuffixTransitive(a: string, b: string, c: string)
    requires IsSuffix(a, b) && IsSuffix(b, c)
    ensures IsSuffix(a, c)
  {
    assert a == c[|c| - |a|..];
  }
}
