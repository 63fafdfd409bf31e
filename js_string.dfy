/**
 * The JavaScript string built-ins that the card codec and the serial
 * protocol are written with, over `string` (= `seq<char>`, one Unicode
 * scalar value per element).
 */
module JsString {

  /** `p` occurs in `s` starting at index `i`. */
  predicate OccursAt(s: string, p: string, i: int) {
    0 <= i <= |s| - |p| && s[i..i + |p|] == p
  }

  /** `s.includes(p)` */
  predicate Contains(s: string, p: string) {
    exists i | 0 <= i <= |s| - |p| :: OccursAt(s, p, i)
  }

  /** Text received later never takes away a substring already present. */
  lemma ContainsAppend(s: string, t: string, p: string)
    requires Contains(s, p)
    ensures Contains(s + t, p)
  {
    var i: int :| 0 <= i <= |s| - |p| && OccursAt(s, p, i);
    assert (s + t)[i..i + |p|] == p;
    assert OccursAt(s + t, p, i);
  }

  /** A substring of a substring is a substring. */
  lemma ContainsTransitive(s: string, p: string, q: string)
    requires Contains(s, p) && Contains(p, q)
    ensures Contains(s, q)
  {
    var i: int :| 0 <= i <= |s| - |p| && OccursAt(s, p, i);
    var j: int :| 0 <= j <= |p| - |q| && OccursAt(p, q, j);
    assert p == s[i..i + |p|];
    assert forall k | 0 <= k < |q| :: s[i + j + k] == p[j + k] == q[k];
    assert s[i + j..i + j + |q|] == q;
    assert OccursAt(s, q, i + j);
  }

  /** `s.endsWith(suffix)` */
  predicate EndsWith(s: string, suffix: string) {
    |suffix| <= |s| && s[|s| - |suffix|..] == suffix
  }

  /**
   * `s.length`: JavaScript counts UTF-16 code units, so a character
   * outside the Basic Multilingual Plane counts twice.
   */
  function Utf16Length(s: string): (n: nat)
    ensures |s| <= n <= 2 * |s|
  {
    if s == [] then 0 else (if s[0] as int > 0xFFFF then 2 else 1) + Utf16Length(s[1..])
  }

  lemma {:induction false} Utf16LengthAppend(s: string, t: string)
    ensures Utf16Length(s + t) == Utf16Length(s) + Utf16Length(t)
  {
    if s == [] {
      assert s + t == t;
    } else {
      assert (s + t)[1..] == s[1..] + t;
      Utf16LengthAppend(s[1..], t);
    }
  }

  /** A string of Basic Multilingual Plane characters is as long in UTF-16 units as in characters. */
  lemma {:induction false} Utf16LengthBmp(s: string)
    requires forall i | 0 <= i < |s| :: s[i] as int <= 0xFFFF
    ensures Utf16Length(s) == |s|
  {
    if s != [] {
      assert forall i | 0 <= i < |s[1..]| :: s[1..][i] == s[i + 1];
      Utf16LengthBmp(s[1..]);
    }
  }

  /**
   * The code points `String.prototype.trim` removes: ECMAScript's
   * WhiteSpace (tab, vertical tab, form feed, space, no-break space,
   * byte order mark and the space separators) and LineTerminator
   * (line feed, carriage return, line and paragraph separators).
   */
  predicate IsJsWhitespace(c: char) {
    var n := c as int;
    n == 0x09 || n == 0x0A || n == 0x0B || n == 0x0C || n == 0x0D || n == 0x20
    || n == 0xA0 || n == 0x1680 || (0x2000 <= n <= 0x200A) || n == 0x2028
    || n == 0x2029 || n == 0x202F || n == 0x205F || n == 0x3000 || n == 0xFEFF
  }

  /** Every character of `s` is white space or a line terminator. */
  predicate AllWhitespace(s: string) {
    forall i | 0 <= i < |s| :: IsJsWhitespace(s[i])
  }

  /** How many white space characters `s` starts with (where `trimStart` stops). */
  function LeadingWhitespace(s: string): (n: nat)
    ensures n <= |s| && AllWhitespace(s[..n])
    ensures n == |s| || !IsJsWhitespace(s[n])
  {
    if s != [] && IsJsWhitespace(s[0]) then
      var n := LeadingWhitespace(s[1..]) + 1;
      assert forall j | 0 < j < n :: s[..n][j] == s[1..][..n - 1][j - 1];
      n
    else
      0
  }

  /** Where the white space `s` ends with begins (where `trimEnd` cuts). */
  function TrailingWhitespace(s: string): (m: nat)
    ensures m <= |s| && AllWhitespace(s[m..])
    ensures m == 0 || !IsJsWhitespace(s[m - 1])
  {
    if s != [] && IsJsWhitespace(s[|s| - 1]) then
      var m := TrailingWhitespace(s[..|s| - 1]);
      assert forall j | 0 <= j < |s| - 1 - m :: s[m..][j] == s[..|s| - 1][m..][j];
      m
    else
      |s|
  }

  /**
   * `s.trim()`: the piece of `s` left once the white space at both ends is
   * removed. It starts where the leading white space ends, everything
   * before and after it is white space, and it neither starts nor ends with
   * white space; it is empty exactly when `s` is all white space.
   */
  function Trim(s: string): (r: string)
    ensures var a := LeadingWhitespace(s);
      && a + |r| <= |s| && r == s[a..a + |r|]
      && AllWhitespace(s[..a]) && AllWhitespace(s[a + |r|..])
    ensures Contains(s, r)
    ensures r == [] || (!IsJsWhitespace(r[0]) && !IsJsWhitespace(r[|r| - 1]))
    ensures r == [] <==> AllWhitespace(s)
  {
    var a := LeadingWhitespace(s);
    var b := TrailingWhitespace(s);
    if a == |s| then
      assert s[..|s|] == s;
      assert OccursAt(s, [], |s|);
      []
    else
      assert a < b;
      assert OccursAt(s, s[a..b], a);
      assert s[a..b][0] == s[a] && s[a..b][b - a - 1] == s[b - 1];
      assert !AllWhitespace(s);
      s[a..b]
  }

  /** `\d` (ASCII digits only, as in JavaScript) */
  predicate IsDigit(c: char) {
    '0' <= c <= '9'
  }

  /** `[0-9A-F]`: lower-case letters are not hexadecimal digits here. */
  predicate IsUpperHexDigit(c: char) {
    '0' <= c <= '9' || 'A' <= c <= 'F'
  }

  predicate IsUpperHex(s: string) {
    forall i | 0 <= i < |s| :: IsUpperHexDigit(s[i])
  }

  /** The upper-case digit for a value below 16. */
  function HexDigit(d: nat): (c: char)
    requires d < 16
    ensures IsUpperHexDigit(c)
  {
    if d < 10 then ('0' as int + d) as char else ('A' as int + d - 10) as char
  }

  function HexDigitValue(c: char): (d: nat)
    requires IsUpperHexDigit(c)
    ensures d < 16 && HexDigit(d) == c
  {
    if c <= '9' then (c as int - '0' as int) else (c as int - 'A' as int) + 10
  }

  /** `16 ** k`: one more than the largest value of a `k`-digit hex string. */
  function Pow16(k: nat): nat {
    if k == 0 then 1 else 16 * Pow16(k - 1)
  }

  lemma UpperHexAppend(a: string, b: string)
    requires IsUpperHex(a) && IsUpperHex(b)
    ensures IsUpperHex(a + b)
  {
    forall i | 0 <= i < |a + b| ensures IsUpperHexDigit((a + b)[i]) {
      if i >= |a| {
        assert (a + b)[i] == b[i - |a|];
      }
    }
  }

  /** `parseInt(s, 16)` for a string of hexadecimal digits, most significant first. */
  function HexValue(s: string): (n: nat)
    requires IsUpperHex(s)
    ensures n < Pow16(|s|)
  {
    if s == [] then 0
    else
      var high := HexValue(s[..|s| - 1]);
      var low := HexDigitValue(s[|s| - 1]);
      assert 16 * high <= 16 * (Pow16(|s| - 1) - 1);
      16 * high + low
  }

  /**
   * `n.toString(16).toUpperCase()`: the shortest upper-case hexadecimal
   * numeral of `n`, whose value is `n`.
   */
  function HexString(n: nat): (s: string)
    ensures IsUpperHex(s) && 1 <= |s|
    ensures HexValue(s) == n
    ensures |s| > 1 ==> s[0] != '0'
  {
    if n < 16 then [HexDigit(n)]
    else
      var high := HexString(n / 16);
      var s := high + [HexDigit(n % 16)];
      assert s[..|s| - 1] == high;
      s
  }

  /** A value below `16^k` has at most `k` hexadecimal digits. */
  lemma {:induction false} HexStringLength(n: nat, k: nat)
    requires 1 <= k && n < Pow16(k)
    ensures |HexString(n)| <= k
  {
    if n >= 16 {
      assert Pow16(1) == 16;
      assert n / 16 < Pow16(k - 1);
      HexStringLength(n / 16, k - 1);
    }
  }

  /** Leading zero digits do not change `parseInt(s, 16)`. */
  lemma {:induction false} HexValueLeadingZeros(z: nat, s: string)
    requires IsUpperHex(s)
    ensures IsUpperHex(Fill('0', z) + s)
    ensures HexValue(Fill('0', z) + s) == HexValue(s)
    decreases z + |s|
  {
    var zeros := Fill('0', z);
    var t := zeros + s;
    if s == [] {
      if z > 0 {
        var shorter := Fill('0', z - 1);
        assert t[..|t| - 1] == shorter + s;
        HexValueLeadingZeros(z - 1, s);
      }
    } else {
      assert t[..|t| - 1] == zeros + s[..|s| - 1];
      HexValueLeadingZeros(z, s[..|s| - 1]);
    }
  }

  /** `count` copies of the character `c`. */
  function Fill(c: char, count: nat): (r: string)
    ensures |r| == count && forall i | 0 <= i < count :: r[i] == c
  {
    seq(count, _ => c)
  }

  /** `s.padStart(width, fill)` with a one-character `fill`. */
  function PadStart(s: string, width: nat, fill: char): (r: string)
    ensures |r| == if |s| < width then width else |s|
    ensures r[|r| - |s|..] == s
    ensures forall i | 0 <= i < |r| - |s| :: r[i] == fill
  {
    if |s| >= width then s else Fill(fill, width - |s|) + s
  }

  /** `s.repeat(count)` */
  function Repeat(s: string, count: nat): (r: string)
    ensures |r| == count * |s|
    ensures forall i | 0 <= i < |r| :: r[i] in s
  {
    if count == 0 then ""
    else
      var rest := Repeat(s, count - 1);
      assert |s + rest| == count * |s| by {
        assert count * |s| == (count - 1) * |s| + |s|;
      }
      s + rest
  }

  /** Repeating a string made of one character gives a string made of that character. */
  lemma {:induction false} RepeatOfFill(c: char, k: nat, count: nat)
    ensures Repeat(Fill(c, k), count) == Fill(c, count * k)
  {
    if count > 0 {
      RepeatOfFill(c, k, count - 1);
      assert count * k == (count - 1) * k + k;
      assert Fill(c, k) + Fill(c, (count - 1) * k) == Fill(c, count * k);
    }
  }

  /** `s.replace(/0+$/, '')`: drops the run of '0' characters that ends `s`. */
  function StripTrailingZeros(s: string): (r: string)
    ensures |r| <= |s| && r == s[..|r|]
    ensures r == [] || r[|r| - 1] != '0'
    ensures forall i | |r| <= i < |s| :: s[i] == '0'
  {
    if s != [] && s[|s| - 1] == '0' then StripTrailingZeros(s[..|s| - 1]) else s
  }

  /** `s.replace(/^0+/, '')`: drops the run of '0' characters that starts `s`. */
  function StripLeadingZeros(s: string): (r: string)
    ensures |r| <= |s| && r == s[|s| - |r|..]
    ensures r == [] || r[0] != '0'
    ensures forall i | 0 <= i < |s| - |r| :: s[i] == '0'
    ensures r == s <==> s == [] || s[0] != '0'
  {
    if s != [] && s[0] == '0' then StripLeadingZeros(s[1..]) else s
  }
}
