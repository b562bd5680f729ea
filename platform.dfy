/**
  The pieces of the ESP8266 Arduino platform that the sketch leans on:
  bytes, the 32-bit `millis()` clock with its wrap-around subtraction, and
  the C-string and `String` library behaviour (NUL termination, `trim`,
  `toUpperCase`, `toInt`, `strncpy`, `snprintf`).
 */
module Platform {

  /** An unsigned 8-bit cell: an EEPROM byte or an (unsigned) `char`. */
  type byte = b: int | 0 <= b < 0x100

  /** An `unsigned long` on the ESP8266 (32 bits). */
  type u32 = x: int | 0 <= x < 0x1_0000_0000

  const INT32_MIN: int := -0x8000_0000
  const INT32_MAX: int := 0x7FFF_FFFF

  /** An `int` or `long` on the ESP8266 (32 bits). */
  type int32 = x: int | -0x8000_0000 <= x <= 0x7FFF_FFFF

  datatype Option<T> = None | Some(value: T)
  {
    /** The value, or `fallback` when there is none: how each loader keeps its default. */
    function GetOr(fallback: T): T
    {
      if Some? then value else fallback
    }
  }

  function Min(a: int, b: int): int { if a <= b then a else b }

  /** The first `n` elements of `s`, or all of `s` when it is shorter. */
  function Prefix(s: seq<byte>, n: nat): (r: seq<byte>)
    ensures |r| == Min(|s|, n) && r == s[..|r|]
  {
    if |s| <= n then s else s[..n]
  }

  // ---------------------------------------------------------------------
  // The 32-bit clock
  // ---------------------------------------------------------------------

  /** `a - b` on `unsigned long`: the difference modulo 2^32. */
  function Sub32(a: u32, b: u32): (r: u32)
    ensures (b + r) % 0x1_0000_0000 == a
    ensures b <= a ==> r == a - b
    ensures a < b ==> r == a - b + 0x1_0000_0000
  {
    (a - b) % 0x1_0000_0000
  }

  /** What `millis()` returns at real time `t` (milliseconds since boot). */
  function Clock(t: nat): u32 { t % 0x1_0000_0000 }

  /** Less than 2^32 ms apart, the wrapped difference of two readings is the real elapsed time. */
  lemma ElapsedFromClock(t1: nat, t2: nat)
    requires t1 <= t2 < t1 + 0x1_0000_0000
    ensures Sub32(Clock(t2), Clock(t1)) == t2 - t1
  {
    var m := 0x1_0000_0000;
    var q1, q2 := t1 / m, t2 / m;
    assert t1 == q1 * m + Clock(t1);
    assert t2 == q2 * m + Clock(t2);
    if Clock(t1) <= Clock(t2) {
      assert (q2 - q1) * m == (t2 - t1) - (Clock(t2) - Clock(t1));
      assert q2 == q1;
    } else {
      assert (q2 - q1) * m == (t2 - t1) + (Clock(t1) - Clock(t2));
      assert q2 == q1 + 1;
    }
  }

  // ---------------------------------------------------------------------
  // C strings
  // ---------------------------------------------------------------------

  /** What a C-string reader (`String(buf)`, `c_str()`, `strncpy`) sees of a buffer: everything before the first NUL. */
  function CString(buf: seq<byte>): (r: seq<byte>)
    ensures |r| <= |buf| && r == buf[..|r|]
    ensures 0 !in r
    ensures |r| < |buf| ==> buf[|r|] == 0
  {
    if buf == [] || buf[0] == 0 then [] else [buf[0]] + CString(buf[1..])
  }

  /** A NUL-free text followed by a NUL (or by nothing) reads back as itself. */
  lemma {:induction false} CStringOfTerminated(t: seq<byte>, rest: seq<byte>)
    requires 0 !in t
    requires rest == [] || rest[0] == 0
    ensures CString(t + rest) == t
  {
    if t != [] {
      assert (t + rest)[1..] == t[1..] + rest;
      CStringOfTerminated(t[1..], rest);
    }
  }

  /**
    What `strncpy(dst, src, n)` leaves in a field: the same size, cells from
    `n` on untouched, and either the whole C string of `src` (when it is
    shorter than `n`) followed by NULs up to cell `n`, or the first `n`
    bytes of `src` with no NUL added.
   */
  predicate CopiedInto(r: seq<byte>, dst: seq<byte>, src: seq<byte>, n: nat)
  {
    && |r| == |dst| && n <= |dst| && r[n..] == dst[n..]
    && (|CString(src)| < n ==>
          && r[..|CString(src)|] == CString(src)
          && (forall i :: |CString(src)| <= i < n ==> r[i] == 0)
          && CString(r) == CString(src))
    && (|CString(src)| >= n ==> n <= |src| && r[..n] == src[..n])
  }

  /**
    `strncpy(dst, src, n)` into a fixed-size field: the first `n` cells get
    the C string of `src` and then NUL padding; cells from `n` on are untouched.
   */
  function Strncpy(dst: seq<byte>, src: seq<byte>, n: nat): (r: seq<byte>)
    requires n <= |dst|
    ensures CopiedInto(r, dst, src, n)
  {
    var s := CString(src);
    var k := Min(|s|, n);
    var r := s[..k] + seq(n - k, _ => 0) + dst[n..];
    assert |s| < n ==> CString(r) == s by {
      if |s| < n {
        assert r == s + ([0] + seq(n - k - 1, _ => 0) + dst[n..]);
        CStringOfTerminated(s, [0] + seq(n - k - 1, _ => 0) + dst[n..]);
      }
    }
    r
  }

  /**
    `snprintf(dst, n, "%s", text)` into a fixed-size field: at most `n - 1`
    bytes of `text`, then one NUL; cells after that NUL are untouched.
   */
  function Snprintf(dst: seq<byte>, text: seq<byte>, n: nat): (r: seq<byte>)
    requires 0 < n <= |dst|
    requires 0 !in text
    ensures |r| == |dst|
    ensures CString(r) == text[..Min(|text|, n - 1)]
    ensures r[Min(|text|, n - 1) + 1..] == dst[Min(|text|, n - 1) + 1..]
  {
    var k := Min(|text|, n - 1);
    var r := text[..k] + ([0] + dst[k + 1..]);
    CStringOfTerminated(text[..k], [0] + dst[k + 1..]);
    assert r[k + 1..] == dst[k + 1..];
    r
  }

  // ---------------------------------------------------------------------
  // String::trim, String::toUpperCase
  // ---------------------------------------------------------------------

  /** C `isspace` in the "C" locale: space, tab, LF, VT, FF, CR. */
  predicate IsSpace(b: byte) { b == ' ' as int || 9 <= b <= 13 }

  /** Every byte is white space. */
  predicate AllSpaces(s: seq<byte>)
  {
    forall i :: 0 <= i < |s| ==> IsSpace(s[i])
  }

  /** The first index from `i` on that holds no white space (`|s|` when there is none). */
  function SkipSpaces(s: seq<byte>, i: nat): (k: nat)
    requires i <= |s|
    ensures i <= k <= |s| && AllSpaces(s[i..k])
    ensures k < |s| ==> !IsSpace(s[k])
    decreases |s| - i
  {
    if i < |s| && IsSpace(s[i]) then
      var k := SkipSpaces(s, i + 1);
      assert forall j :: i + 1 <= j < k ==> s[i + 1..k][j - i - 1] == s[j];
      assert forall j :: i <= j < k ==> s[i..k][j - i] == s[j];
      k
    else i
  }

  /** The index just past the last byte before `j` that is not white space (0 when there is none). */
  function SkipSpacesBack(s: seq<byte>, j: nat): (k: nat)
    requires j <= |s|
    ensures k <= j && AllSpaces(s[k..j])
    ensures k > 0 ==> !IsSpace(s[k - 1])
    decreases j
  {
    if j > 0 && IsSpace(s[j - 1]) then
      var k := SkipSpacesBack(s, j - 1);
      assert forall m :: k <= m < j - 1 ==> s[k..j - 1][m - k] == s[m];
      assert forall m :: k <= m < j ==> s[k..j][m - k] == s[m];
      k
    else j
  }

  /** How many leading white-space bytes `trim` and `strtol` skip. */
  function LeadingSpaces(s: seq<byte>): (n: nat)
    ensures n <= |s| && AllSpaces(s[..n])
    ensures n < |s| ==> !IsSpace(s[n])
  {
    var n := SkipSpaces(s, 0);
    assert s[..n] == s[0..n];
    n
  }

  /** Drops leading white space, and nothing else. */
  function TrimStart(s: seq<byte>): (r: seq<byte>)
    ensures |r| <= |s| && r == s[|s| - |r|..] && AllSpaces(s[..|s| - |r|])
    ensures r != [] ==> !IsSpace(r[0])
  {
    s[LeadingSpaces(s)..]
  }

  /**
    `String::trim`: the slice between the first and the last byte that is
    not white space; everything it drops is white space.
   */
  function Trim(s: seq<byte>): (r: seq<byte>)
    ensures LeadingSpaces(s) + |r| <= |s|
    ensures r == s[LeadingSpaces(s)..LeadingSpaces(s) + |r|]
    ensures AllSpaces(s[..LeadingSpaces(s)]) && AllSpaces(s[LeadingSpaces(s) + |r|..])
    ensures r != [] ==> !IsSpace(r[0]) && !IsSpace(r[|r| - 1])
  {
    var i := LeadingSpaces(s);
    var j := SkipSpacesBack(s, |s|);
    assert s[j..|s|] == s[j..];
    if j <= i then
      []
    else
      assert forall m :: j <= m < |s| ==> s[j..][m - j] == s[m];
      s[i..j]
  }

  /** Trimming brings in no NUL. */
  lemma TrimNulFree(s: seq<byte>)
    requires 0 !in s
    ensures 0 !in Trim(s)
  {
    var r := Trim(s);
    assert forall k :: 0 <= k < |r| ==> r[k] == s[LeadingSpaces(s) + k];
  }

  /** Skipping from `i` stops at `k` when `s[i..k]` is white space and `s[k]` is not. */
  lemma {:induction false} SkipSpacesTo(s: seq<byte>, i: nat, k: nat)
    requires i <= k <= |s| && AllSpaces(s[i..k])
    requires k < |s| ==> !IsSpace(s[k])
    ensures SkipSpaces(s, i) == k
    decreases k - i
  {
    if i < k {
      assert s[i..k][0] == s[i];
      assert s[i + 1..k] == s[i..k][1..];
      SkipSpacesTo(s, i + 1, k);
    }
  }

  /** Skipping back from `j` stops at `k` when `s[k..j]` is white space and `s[k - 1]` is not. */
  lemma {:induction false} SkipSpacesBackTo(s: seq<byte>, k: nat, j: nat)
    requires k <= j <= |s| && AllSpaces(s[k..j])
    requires k > 0 ==> !IsSpace(s[k - 1])
    ensures SkipSpacesBack(s, j) == k
    decreases j - k
  {
    if k < j {
      assert s[k..j][j - 1 - k] == s[j - 1];
      assert s[k..j - 1] == s[k..j][..j - 1 - k];
      SkipSpacesBackTo(s, k, j - 1);
    }
  }

  /** Surrounding white space is all that `trim` removes. */
  lemma TrimPadded(lead: seq<byte>, t: seq<byte>, trail: seq<byte>)
    requires AllSpaces(lead) && AllSpaces(trail)
    requires t != [] ==> !IsSpace(t[0]) && !IsSpace(t[|t| - 1])
    ensures Trim(lead + t + trail) == t
  {
    var s := lead + t + trail;
    if t == [] {
      assert forall m :: 0 <= m < |s| ==> s[0..|s|][m] == if m < |lead| then lead[m] else trail[m - |lead|];
      SkipSpacesTo(s, 0, |s|);
    } else {
      var i, j := |lead|, |lead| + |t|;
      assert s[0..i] == lead && s[j..|s|] == trail && s[i..j] == t;
      SkipSpacesTo(s, 0, i);
      SkipSpacesBackTo(s, j, |s|);
    }
  }

  /** White space before a text that does not start with it is all that is skipped. */
  lemma TrimStartPadded(lead: seq<byte>, s: seq<byte>)
    requires AllSpaces(lead)
    requires s != [] ==> !IsSpace(s[0])
    ensures TrimStart(lead + s) == s
  {
    var u := lead + s;
    assert u[0..|lead|] == lead;
    SkipSpacesTo(u, 0, |lead|);
    assert u[|lead|..] == s;
  }

  /** C `toupper` in the "C" locale: only 'a'..'z' change. */
  function UpperByte(b: byte): byte
  {
    if 'a' as int <= b <= 'z' as int then b - 32 else b
  }

  /**
    `String::toUpperCase`: `toupper` on every byte in place, walking the
    buffer as a C string, so bytes from the first NUL on are left as they are.
   */
  function ToUpper(s: seq<byte>): (r: seq<byte>)
    ensures |r| == |s|
    ensures forall i :: 0 <= i < |CString(s)| ==> r[i] == UpperByte(s[i])
    ensures forall i :: |CString(s)| <= i < |s| ==> r[i] == s[i]
  {
    var n := |CString(s)|;
    seq(|s|, i requires 0 <= i < |s| => if i < n then UpperByte(s[i]) else s[i])
  }

  /** Upper-casing stops at the first NUL: what follows it keeps its case. */
  lemma UpperStopsAtNul(t: seq<byte>, u: seq<byte>)
    requires 0 !in t
    ensures ToUpper(t + [0] + u) == ToUpper(t) + [0] + u
  {
    CStringOfTerminated(t, [0] + u);
    assert t + [0] + u == t + ([0] + u);
    CStringOfTerminated(t, []);
    assert t + [] == t;
  }

  // ---------------------------------------------------------------------
  // String::toInt
  // ---------------------------------------------------------------------

  predicate IsDigit(b: byte) { '0' as int <= b <= '9' as int }

  /** The run of decimal digits at the start of `s`. */
  function LeadingDigits(s: seq<byte>): (r: seq<byte>)
    ensures |r| <= |s| && r == s[..|r|]
    ensures forall i :: 0 <= i < |r| ==> IsDigit(r[i])
    ensures |r| < |s| ==> !IsDigit(s[|r|])
  {
    if s != [] && IsDigit(s[0]) then [s[0]] + LeadingDigits(s[1..]) else []
  }

  /** The value of a run of decimal digits, most significant first. */
  function DigitsValue(ds: seq<byte>): nat
    requires forall i :: 0 <= i < |ds| ==> IsDigit(ds[i])
  {
    if ds == [] then 0
    else
      assert IsDigit(ds[|ds| - 1]);
      10 * DigitsValue(ds[..|ds| - 1]) + (ds[|ds| - 1] as int - '0' as int)
  }

  /** A `long` result of `strtol`: out-of-range values saturate. */
  function Saturate32(x: int): (r: int32)
    ensures INT32_MIN <= x <= INT32_MAX ==> r == x
    ensures x < INT32_MIN ==> r == INT32_MIN
    ensures x > INT32_MAX ==> r == INT32_MAX
  {
    if x < INT32_MIN then INT32_MIN else if x > INT32_MAX then INT32_MAX else x
  }

  /**
    `String::toInt`, which is `atol`, i.e. `strtol(s, NULL, 10)` on a 32-bit
    `long`: skip white space, an optional sign, then the leading digits;
    no digits gives 0 and an out-of-range value saturates. The text is read
    as a C string, so it stops at a NUL.
   */
  function ToInt(s: seq<byte>): (r: int32)
    ensures LeadingDigits(TrimStart(CString(s))) == [] && (TrimStart(CString(s)) == [] || (TrimStart(CString(s))[0] != '-' as int && TrimStart(CString(s))[0] != '+' as int)) ==> r == 0
  {
    var t := TrimStart(CString(s));
    if t != [] && t[0] == '-' as int then Saturate32(-(DigitsValue(LeadingDigits(t[1..])) as int))
    else if t != [] && t[0] == '+' as int then Saturate32(DigitsValue(LeadingDigits(t[1..])))
    else Saturate32(DigitsValue(LeadingDigits(t)))
  }

  /**
    No number where `atol` looks for one: after the white space of the C
    string there is neither a digit nor a sign followed by a digit.
   */
  predicate NoNumber(s: seq<byte>)
  {
    var t := TrimStart(CString(s));
    && LeadingDigits(t) == []
    && (t != [] && (t[0] == '-' as int || t[0] == '+' as int) ==> LeadingDigits(t[1..]) == [])
  }

  /** The decimal text of a natural number, without sign or leading zeros. */
  function Decimal(n: nat): (r: seq<byte>)
    ensures r != [] && IsDigit(r[0])
    ensures forall i :: 0 <= i < |r| ==> IsDigit(r[i])
  {
    if n < 10 then ['0' as int + n] else Decimal(n / 10) + ['0' as int + n % 10]
  }

  lemma {:induction false} DigitsValueOfDecimal(n: nat)
    ensures DigitsValue(Decimal(n)) == n
  {
    if n >= 10 {
      var d := Decimal(n);
      assert d[..|d| - 1] == Decimal(n / 10);
      DigitsValueOfDecimal(n / 10);
    }
  }

  lemma {:induction false} LeadingDigitsOfDigits(ds: seq<byte>, rest: seq<byte>)
    requires forall i :: 0 <= i < |ds| ==> IsDigit(ds[i])
    requires rest == [] || !IsDigit(rest[0])
    ensures LeadingDigits(ds + rest) == ds
  {
    if ds != [] {
      assert (ds + rest)[1..] == ds[1..] + rest;
      LeadingDigitsOfDigits(ds[1..], rest);
    } else {
      assert ds + rest == rest;
    }
  }

  /**
    `toInt` reads back the decimal text of any `int` value, whatever
    non-digit text (a NUL included) follows it and whatever white space
    precedes it.
   */
  lemma ToIntOfDecimal(lead: seq<byte>, n: nat, rest: seq<byte>)
    requires forall i :: 0 <= i < |lead| ==> IsSpace(lead[i])
    requires rest == [] || !IsDigit(rest[0])
    ensures ToInt(lead + Decimal(n) + rest) == Saturate32(n)
    ensures n <= INT32_MAX ==> ToInt(lead + Decimal(n) + rest) == n
    ensures n > INT32_MAX ==> ToInt(lead + Decimal(n) + rest) == INT32_MAX
  {
    var d := Decimal(n);
    var c := CString(rest);
    DigitsThenNulFree(d, []);
    assert d + [] == d;
    SpacesThenNulFree(lead, d);
    ToIntCutsAtNul(lead + d, rest);
    assert c == [] || c[0] == rest[0];
    assert d[0] == (d + c)[0];
    SkipsToDecimal(lead, d, c);
    ValueOfDecimalThenRest(n, c);
    ToIntOfDigits(lead + d + c, d + c, n);
  }

  /** A NUL-free text followed by anything reads, as a C string, as itself followed by the C string of the rest. */
  lemma {:induction false} CStringAppend(t: seq<byte>, u: seq<byte>)
    requires 0 !in t
    ensures CString(t + u) == t + CString(u)
  {
    if t != [] {
      assert (t + u)[1..] == t[1..] + u;
      CStringAppend(t[1..], u);
      assert [t[0]] + (t[1..] + CString(u)) == t + CString(u);
    } else {
      assert t + u == u;
    }
  }

  /** `toInt` sees nothing past the first NUL. */
  lemma ToIntCutsAtNul(p: seq<byte>, rest: seq<byte>)
    requires 0 !in p
    ensures ToInt(p + rest) == ToInt(p + CString(rest))
  {
    CStringAppend(p, rest);
    CStringAppend(p, CString(rest));
    CStringOfTerminated(CString(rest), []);
    assert CString(rest) + [] == CString(rest);
  }

  /** After the white space `toInt` finds the digits and what follows them. */
  lemma SkipsToDecimal(lead: seq<byte>, d: seq<byte>, rest: seq<byte>)
    requires forall i :: 0 <= i < |lead| ==> IsSpace(lead[i])
    requires d != [] && forall i :: 0 <= i < |d| ==> IsDigit(d[i])
    requires 0 !in rest
    ensures TrimStart(CString(lead + d + rest)) == d + rest
  {
    DigitsThenNulFree(d, rest);
    assert (d + rest)[0] == d[0];
    SpacesBefore(lead, d + rest);
    assert lead + d + rest == lead + (d + rest);
  }

  /** The leading digits of a decimal text followed by a non-digit have its value. */
  lemma ValueOfDecimalThenRest(n: nat, rest: seq<byte>)
    requires rest == [] || !IsDigit(rest[0])
    ensures DigitsValue(LeadingDigits(Decimal(n) + rest)) == n
  {
    LeadingDigitsOfDigits(Decimal(n), rest);
    DigitsValueOfDecimal(n);
  }

  /** Unsigned digits in range, once the white space is skipped, are the value `toInt` returns. */
  lemma ToIntOfDigits(s: seq<byte>, t: seq<byte>, n: nat)
    requires t != [] && TrimStart(CString(s)) == t && IsDigit(t[0])
    requires DigitsValue(LeadingDigits(t)) == n
    ensures ToInt(s) == Saturate32(n)
  {
  }

  /**
    `toInt` reads a sign in front of the digits: `-` negates, `+` does
    nothing, and the signed value saturates at the 32-bit bounds.
   */
  lemma ToIntOfSignedDecimal(lead: seq<byte>, negative: bool, n: nat, rest: seq<byte>)
    requires forall i :: 0 <= i < |lead| ==> IsSpace(lead[i])
    requires rest == [] || !IsDigit(rest[0])
    ensures var sign: byte := if negative then '-' as int else '+' as int;
      ToInt(lead + [sign] + Decimal(n) + rest) == Saturate32(if negative then -(n as int) else n)
  {
    var sign: byte := if negative then '-' as int else '+' as int;
    var c := CString(rest);
    SignedTextNulFree(lead, sign, n);
    ToIntCutsAtNul(lead + [sign] + Decimal(n), rest);
    assert c == [] || c[0] == rest[0];
    var t := [sign] + (Decimal(n) + c);
    SkipsToSign(lead, sign, n, c);
    ToIntOfSigned(lead + [sign] + Decimal(n) + c, t, negative, n);
  }

  /** White space, a sign and decimal digits hold no NUL. */
  lemma SignedTextNulFree(lead: seq<byte>, sign: byte, n: nat)
    requires forall i :: 0 <= i < |lead| ==> IsSpace(lead[i])
    requires sign == '-' as int || sign == '+' as int
    ensures 0 !in lead + [sign] + Decimal(n)
  {
    SignThenDecimal(sign, n, []);
    assert Decimal(n) + [] == Decimal(n);
    SpacesThenNulFree(lead, [sign] + Decimal(n));
    assert lead + ([sign] + Decimal(n)) == lead + [sign] + Decimal(n);
  }

  /** After the white space `toInt` finds the sign, the digits and what follows them. */
  lemma SkipsToSign(lead: seq<byte>, sign: byte, n: nat, rest: seq<byte>)
    requires forall i :: 0 <= i < |lead| ==> IsSpace(lead[i])
    requires sign == '-' as int || sign == '+' as int
    requires rest == [] || !IsDigit(rest[0])
    requires 0 !in rest
    ensures var t := [sign] + (Decimal(n) + rest);
      TrimStart(CString(lead + [sign] + Decimal(n) + rest)) == t &&
      DigitsValue(LeadingDigits(t[1..])) == n
  {
    var t := [sign] + (Decimal(n) + rest);
    SignThenDecimal(sign, n, rest);
    SpacesBefore(lead, t);
    assert lead + [sign] + Decimal(n) + rest == lead + t by { SplitSign(lead, sign, Decimal(n), rest); }
    assert t[1..] == Decimal(n) + rest;
    ValueOfDecimalThenRest(n, rest);
  }

  /** Regrouping the four parts of a signed number's text. */
  lemma SplitSign(lead: seq<byte>, sign: byte, d: seq<byte>, rest: seq<byte>)
    ensures lead + [sign] + d + rest == lead + ([sign] + (d + rest))
  {
    assert lead + [sign] + d == lead + ([sign] + d);
    assert [sign] + d + rest == [sign] + (d + rest);
  }

  /** A sign, then digits, then NUL-free text: nothing to cut, nothing to skip. */
  lemma SignThenDecimal(sign: byte, n: nat, rest: seq<byte>)
    requires sign == '-' as int || sign == '+' as int
    requires 0 !in rest
    ensures 0 !in [sign] + (Decimal(n) + rest) && !IsSpace(sign)
  {
    var d := Decimal(n);
    var t := [sign] + (d + rest);
    DigitsThenNulFree(d, rest);
    assert forall i :: 1 <= i < |t| ==> t[i] == (d + rest)[i - 1];
  }

  /** Signed digits, once the white space is skipped, give the value `toInt` returns. */
  lemma ToIntOfSigned(s: seq<byte>, t: seq<byte>, negative: bool, n: nat)
    requires t != [] && TrimStart(CString(s)) == t
    requires t[0] == if negative then '-' as int else '+' as int
    requires DigitsValue(LeadingDigits(t[1..])) == n
    ensures ToInt(s) == Saturate32(if negative then -(n as int) else n)
  {
  }

  /** `toInt` skips white space before a NUL-free text. */
  lemma SpacesBefore(lead: seq<byte>, t: seq<byte>)
    requires forall i :: 0 <= i < |lead| ==> IsSpace(lead[i])
    requires 0 !in t && (t != [] ==> !IsSpace(t[0]))
    ensures TrimStart(CString(lead + t)) == t
  {
    var s := lead + t;
    SpacesThenNulFree(lead, t);
    CStringOfTerminated(s, []);
    assert s + [] == s;
    TrimStartPadded(lead, t);
  }

  lemma SpacesThenNulFree(lead: seq<byte>, t: seq<byte>)
    requires forall i :: 0 <= i < |lead| ==> IsSpace(lead[i])
    requires 0 !in t
    ensures 0 !in lead + t
  {
    var s := lead + t;
    forall i | 0 <= i < |s| ensures s[i] != 0 {
      if i < |lead| { assert s[i] == lead[i]; } else { assert s[i] == t[i - |lead|]; }
    }
  }

  lemma DigitsThenNulFree(d: seq<byte>, rest: seq<byte>)
    requires forall i :: 0 <= i < |d| ==> IsDigit(d[i])
    requires 0 !in rest
    ensures 0 !in d + rest
  {
    var s := d + rest;
    forall i | 0 <= i < |s| ensures s[i] != 0 {
      if i < |d| { assert s[i] == d[i]; } else { assert s[i] == rest[i - |d|]; }
    }
  }

}
