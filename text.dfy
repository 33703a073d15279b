/**
 * The string operations the parsers rely on: `str.strip()`, ASCII `lower()`/`upper()`,
 * `str.isdigit()`, `int(s, 10)`, `str(n)`, `int(s, 16)` and the `02X` format.
 */
module Text {

  import opened Wrappers

  /* ---------- whitespace and `strip` ---------- */

  /** The characters Python's `str.isspace()` accepts (and `str.strip()` removes). */
  predicate IsSpace(c: char) {
    || c == ' '
    || ('\t' <= c <= '\r')
    || ('\U{1c}' <= c <= '\U{1f}')
    || c == '\U{85}' || c == '\U{a0}' || c == '\U{1680}'
    || ('\U{2000}' <= c <= '\U{200a}')
    || c == '\U{2028}' || c == '\U{2029}' || c == '\U{202f}' || c == '\U{205f}' || c == '\U{3000}'
  }

  /** Neither end of `s` is whitespace. */
  predicate IsStripped(s: string) {
    s == [] || (!IsSpace(s[0]) && !IsSpace(s[|s| - 1]))
  }

  /** The number of whitespace characters `s` starts with. */
  function LeadingSpaces(s: string): (n: nat)
    ensures n <= |s|
    ensures forall k :: 0 <= k < n ==> IsSpace(s[k])
    ensures n == |s| || !IsSpace(s[n])
  {
    if s != [] && IsSpace(s[0]) then 1 + LeadingSpaces(s[1..]) else 0
  }

  /** The number of whitespace characters `s` ends with. */
  function TrailingSpaces(s: string): (n: nat)
    ensures n <= |s|
    ensures forall k :: |s| - n <= k < |s| ==> IsSpace(s[k])
    ensures n == |s| || !IsSpace(s[|s| - 1 - n])
  {
    if s != [] && IsSpace(s[|s| - 1]) then 1 + TrailingSpaces(s[..|s| - 1]) else 0
  }

  /** Cutting `s` to `s[i..j]` removes only whitespace. */
  ghost predicate OnlySpacesOutside(s: string, i: int, j: int) {
    && 0 <= i <= j <= |s|
    && (forall k :: 0 <= k < i ==> IsSpace(s[k]))
    && (forall k :: j <= k < |s| ==> IsSpace(s[k]))
  }

  /** `s.strip()`: `s` without the whitespace at either end. */
  function Strip(s: string): (r: string)
    ensures IsStripped(r)
    ensures |r| <= |s|
  {
    var i := LeadingSpaces(s);
    var t := s[i..];
    t[..|t| - TrailingSpaces(t)]
  }

  /** What `strip` removes is whitespace, and all of it is at the two ends. */
  lemma StripSpec(s: string)
    ensures exists i, j :: OnlySpacesOutside(s, i, j) && Strip(s) == s[i..j]
  {
    var i := LeadingSpaces(s);
    var t := s[i..];
    var j := i + |t| - TrailingSpaces(t);
    assert OnlySpacesOutside(s, i, j) by {
      forall k | j <= k < |s| ensures IsSpace(s[k]) {
        assert s[k] == t[k - i];
      }
    }
    assert s[i..j] == t[..|t| - TrailingSpaces(t)];
  }

  /** A string already stripped comes back unchanged. */
  lemma StripStripped(s: string)
    requires IsStripped(s)
    ensures Strip(s) == s
  {
    assert LeadingSpaces(s) == 0;
    assert TrailingSpaces(s) == 0;
  }

  /** So `strip` is idempotent. */
  lemma StripIdempotent(s: string)
    ensures Strip(Strip(s)) == Strip(s)
  {
    StripStripped(Strip(s));
  }

  /** `s.strip()` is empty exactly when `s` is all whitespace. */
  lemma StripEmpty(s: string)
    ensures Strip(s) == [] <==> forall k :: 0 <= k < |s| ==> IsSpace(s[k])
  {
    var r := Strip(s);
    StripSpec(s);
    assert exists i, j :: OnlySpacesOutside(s, i, j) && r == s[i..j];
    var i, j :| OnlySpacesOutside(s, i, j) && r == s[i..j];
    if forall k :: 0 <= k < |s| ==> IsSpace(s[k]) {
      assert LeadingSpaces(s) == |s|;
    }
  }

  /* ---------- ASCII case mapping ---------- */

  function LowerChar(c: char): char {
    if 'A' <= c <= 'Z' then (c as int + 32) as char else c
  }

  function UpperChar(c: char): char {
    if 'a' <= c <= 'z' then (c as int - 32) as char else c
  }

  /** `s.lower()`, on ASCII letters. */
  function Lower(s: string): (r: string)
    ensures |r| == |s| && forall k :: 0 <= k < |s| ==> r[k] == LowerChar(s[k])
  {
    seq(|s|, k requires 0 <= k < |s| => LowerChar(s[k]))
  }

  /** `s.upper()`, on ASCII letters. */
  function Upper(s: string): (r: string)
    ensures |r| == |s| && forall k :: 0 <= k < |s| ==> r[k] == UpperChar(s[k])
  {
    seq(|s|, k requires 0 <= k < |s| => UpperChar(s[k]))
  }

  /** Lowercasing ignores an earlier change of case. */
  lemma LowerOfCase(s: string)
    ensures Lower(Upper(s)) == Lower(s)
    ensures Lower(Lower(s)) == Lower(s)
  {
    assert forall k :: 0 <= k < |s| ==> LowerChar(UpperChar(s[k])) == LowerChar(s[k]);
  }

  /** Case mapping works character by character, so it distributes over concatenation. */
  lemma CaseConcat(a: string, b: string)
    ensures Lower(a + b) == Lower(a) + Lower(b)
    ensures Upper(a + b) == Upper(a) + Upper(b)
  {
  }

  /* ---------- decimal digits ---------- */

  predicate IsDigit(c: char) {
    '0' <= c <= '9'
  }

  /** `s.isdigit()` on ASCII: at least one character, all of them digits. */
  predicate AllDigits(s: string) {
    |s| > 0 && forall k :: 0 <= k < |s| ==> IsDigit(s[k])
  }

  function DigitChar(d: nat): (c: char)
    requires d < 10
    ensures IsDigit(c)
  {
    "0123456789"[d]
  }

  function DigitValue(c: char): (d: nat)
    requires IsDigit(c)
    ensures d < 10
  {
    c as int - '0' as int
  }

  /** The value of a string of decimal digits (empty counts as 0). */
  function DecValue(s: string): nat
    requires forall k :: 0 <= k < |s| ==> IsDigit(s[k])
  {
    if s == [] then 0
    else DecValue(s[..|s| - 1]) * 10 + DigitValue(s[|s| - 1])
  }

  /** `str(n)`: the canonical decimal rendering, without leading zeros. */
  function ShowDec(n: nat): (r: string)
    ensures |r| > 0 && (r[0] == '0' ==> n == 0)
  {
    if n < 10 then [DigitChar(n)] else ShowDec(n / 10) + [DigitChar(n % 10)]
  }

  /** `str(n)` is a digit string that reads back as `n`. */
  lemma {:induction false} DecRoundTrip(n: nat)
    ensures AllDigits(ShowDec(n)) && DecValue(ShowDec(n)) == n
  {
    if n >= 10 {
      DecRoundTrip(n / 10);
      var s := ShowDec(n);
      assert s[..|s| - 1] == ShowDec(n / 10);
    }
  }

  /** `int(s, 10)` on a stripped string; only plain ASCII digit strings parse. */
  function ParseInt(s: string): (r: Option<nat>)
    ensures r.Some? <==> AllDigits(s)
    ensures r.Some? ==> r.value == DecValue(s)
  {
    if AllDigits(s) then Some(DecValue(s)) else None
  }

  /* ---------- hexadecimal digits ---------- */

  /** The class `[0-9a-fA-F]`. */
  predicate IsHexDigit(c: char) {
    IsDigit(c) || ('a' <= c <= 'f') || ('A' <= c <= 'F')
  }

  /** An uppercase hexadecimal digit, as the `X` format writes them. */
  predicate IsUpperHexDigit(c: char) {
    IsDigit(c) || ('A' <= c <= 'F')
  }

  function HexDigitValue(c: char): (d: nat)
    requires IsHexDigit(c)
    ensures d < 16
  {
    if IsDigit(c) then c as int - '0' as int
    else if 'a' <= c <= 'f' then c as int - 'a' as int + 10
    else c as int - 'A' as int + 10
  }

  function HexChar(d: nat): (c: char)
    requires d < 16
    ensures IsUpperHexDigit(c) && HexDigitValue(c) == d
  {
    "0123456789ABCDEF"[d]
  }

  /** `int(s, 16)` on a string of hex digits (empty counts as 0). */
  function HexValue(s: string): (r: nat)
    requires forall k :: 0 <= k < |s| ==> IsHexDigit(s[k])
    ensures r == 0 <==> forall k :: 0 <= k < |s| ==> s[k] == '0'
  {
    if s == [] then 0
    else HexValue(s[..|s| - 1]) * 16 + HexDigitValue(s[|s| - 1])
  }

  /** `f"{n:X}"`: uppercase hexadecimal without leading zeros. */
  function ShowHex(n: nat): (r: string)
    ensures |r| > 0 && forall k :: 0 <= k < |r| ==> IsUpperHexDigit(r[k])
  {
    if n < 16 then [HexChar(n)] else ShowHex(n / 16) + [HexChar(n % 16)]
  }

  /** `f"{n:X}"` reads back as `n`, and has one digit exactly when `n < 16`. */
  lemma {:induction false} HexRoundTrip(n: nat)
    ensures forall k :: 0 <= k < |ShowHex(n)| ==> IsHexDigit(ShowHex(n)[k])
    ensures HexValue(ShowHex(n)) == n
    ensures |ShowHex(n)| == 1 <==> n < 16
    ensures n < 256 ==> |ShowHex(n)| <= 2
  {
    if n >= 16 {
      HexRoundTrip(n / 16);
      var s := ShowHex(n);
      assert s[..|s| - 1] == ShowHex(n / 16);
    }
  }

  /** `f"{n:02X}"`: uppercase hexadecimal, zero-padded to at least two digits. */
  function Hex2(n: nat): (r: string)
    ensures forall k :: 0 <= k < |r| ==> IsUpperHexDigit(r[k])
  {
    var h := ShowHex(n);
    if |h| < 2 then "0" + h else h
  }

  /**
   * For IDs 0..255, `02X` gives exactly two uppercase hex digits that read back
   * as the ID; larger IDs give more than two.
   */
  lemma Hex2Width(n: nat)
    ensures |Hex2(n)| >= 2
    ensures n < 256 <==> |Hex2(n)| == 2
    ensures forall k :: 0 <= k < |Hex2(n)| ==> IsHexDigit(Hex2(n)[k])
    ensures HexValue(Hex2(n)) == n
  {
    HexRoundTrip(n);
    var h := ShowHex(n);
    if |h| < 2 {
      var r := "0" + h;
      assert r[..1] == "0";
      assert HexValue(r[..1]) == 0 by {
        assert r[..1][..0] == [];
      }
      assert HexValue(r) == HexValue(h) by {
        assert r[..|r| - 1] == "0" && h[..|h| - 1] == [];
      }
    } else if n >= 256 {
      HexRoundTrip(n / 16);
      assert h[..|h| - 1] == ShowHex(n / 16);
      assert n / 16 >= 16;
    }
  }

  /** Worked values of the two-digit rendering. */
  lemma Hex2Examples()
    ensures Hex2(5) == "05" && Hex2(171) == "AB" && Hex2(0) == "00" && Hex2(255) == "FF"
  {
    assert ShowHex(171) == ShowHex(10) + [HexChar(11)];
    assert ShowHex(255) == ShowHex(15) + [HexChar(15)];
  }

  /** The regular expression `0x[0-9a-f]+`, matched in full and ignoring case. */
  predicate IsHexLiteral(s: string) {
    |s| >= 3 && s[0] == '0' && (s[1] == 'x' || s[1] == 'X')
    && forall k :: 2 <= k < |s| ==> IsHexDigit(s[k])
  }

  /** Lowercasing then uppercasing gives back a string of uppercase hex digits. */
  lemma UpperLowerHex(s: string)
    requires forall k :: 0 <= k < |s| ==> IsUpperHexDigit(s[k])
    ensures Upper(Lower(s)) == s
    ensures forall k :: 0 <= k < |s| ==> IsHexDigit(Lower(s)[k])
  {
  }

  /** A string that starts and ends with non-space characters is its own `strip()`. */
  lemma StripJoined(p: string, h: string)
    requires |p| > 0 && !IsSpace(p[0]) && |h| > 0 && !IsSpace(h[|h| - 1])
    ensures Strip(p + h) == p + h
  {
    assert (p + h)[0] == p[0] && (p + h)[|p + h| - 1] == h[|h| - 1];
    StripStripped(p + h);
  }

  /** `0x` or `0X` followed by hex digits lowercases to `0x` + lowercase digits. */
  lemma HexSelectorForm(p: string, h: string)
    requires p == "0x" || p == "0X"
    requires |h| > 0 && forall k :: 0 <= k < |h| ==> IsHexDigit(h[k])
    ensures Lower(Strip(p + h)) == "0x" + Lower(h)
  {
    assert Strip(p + h) == p + h by {
      assert IsHexDigit(h[|h| - 1]);
      StripJoined(p, h);
    }
    assert Lower(p) == "0x" by {
      assert Lower(p)[0] == '0' && Lower(p)[1] == 'x';
    }
    CaseConcat(p, h);
  }

  /** The selector forms `0x<h>`, `0X<h>` and `0x<lowercase h>` all normalise alike. */
  lemma HexSelectorForms(h: string)
    requires |h| > 0 && forall k :: 0 <= k < |h| ==> IsHexDigit(h[k])
    ensures Lower(Strip("0x" + h)) == "0x" + Lower(h)
    ensures Lower(Strip("0X" + h)) == "0x" + Lower(h)
    ensures Lower(Strip("0x" + Lower(h))) == "0x" + Lower(h)
  {
    HexSelectorForm("0x", h);
    HexSelectorForm("0X", h);
    assert forall k :: 0 <= k < |h| ==> IsHexDigit(Lower(h)[k]);
    HexSelectorForm("0x", Lower(h));
    LowerOfCase(h);
  }

  /** A decimal selector is unchanged by strip and lowercase, and is not a hex literal. */
  lemma DecSelectorForm(d: string)
    requires AllDigits(d)
    ensures Lower(Strip(d)) == d
    ensures !IsHexLiteral(d)
  {
    assert IsDigit(d[0]) && IsDigit(d[|d| - 1]);
    StripStripped(d);
    assert |d| >= 2 ==> IsDigit(d[1]);
  }

  /* ---------- space replacement ---------- */

  /** `s.replace(" ", "_")`. */
  function ReplaceSpaces(s: string): (r: string)
    ensures |r| == |s|
    ensures forall k :: 0 <= k < |s| ==> r[k] == if s[k] == ' ' then '_' else s[k]
  {
    if s == [] then []
    else ReplaceSpaces(s[..|s| - 1]) + [if s[|s| - 1] == ' ' then '_' else s[|s| - 1]]
  }

  lemma ReplaceSpacesExample()
    ensures ReplaceSpaces("Sand Dune") == "Sand_Dune" && ReplaceSpaces("Grass") == "Grass"
  {
    var r := ReplaceSpaces("Sand Dune");
    assert forall k :: 0 <= k < |r| ==> r[k] == "Sand_Dune"[k];
    var g := ReplaceSpaces("Grass");
    assert forall k :: 0 <= k < |g| ==> g[k] == "Grass"[k];
  }
}
