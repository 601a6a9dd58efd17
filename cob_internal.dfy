/**
  The helpers of the runtime's internal header that compute something:
  the integer power `cob_s32_pow`, the two XML name-character tests and
  `cob_temp_name`, which prints a temporary file name into the caller's
  buffer. C's `int32_t` and `int64_t` are subset types of `int`.
*/
module CobInternal {

  const MinS32: int := -0x8000_0000
  const MaxS32: int := 0x7FFF_FFFF
  const MinS64: int := -0x8000_0000_0000_0000
  const MaxS64: int := 0x7FFF_FFFF_FFFF_FFFF

  /** `cob_s32_t` and `cob_s64_t`. */
  type S32 = x: int | MinS32 <= x <= MaxS32
  type S64 = x: int | MinS64 <= x <= MaxS64

  predicate FitsS64(x: int) {
    MinS64 <= x <= MaxS64
  }

  // ---------------------------------------------------------------------
  // cob_s32_pow
  // ---------------------------------------------------------------------

  /** The mathematical power `b` to the `e`. */
  function Power(b: int, e: nat): int
  {
    if e == 0 then 1 else b * Power(b, e - 1)
  }

  function Abs(x: int): nat {
    if x < 0 then -x else x
  }

  lemma {:induction false} PowerAbs(b: int, e: nat)
    ensures Abs(Power(b, e)) == Power(Abs(b), e)
  {
    if e > 0 {
      PowerAbs(b, e - 1);
      AbsMul(b, Power(b, e - 1));
    }
  }

  lemma AbsMul(x: int, y: int)
    ensures Abs(x * y) == Abs(x) * Abs(y)
  {
    if x < 0 && y < 0 {
      assert x * y == (-x) * (-y);
    } else if x < 0 {
      assert -(x * y) == (-x) * y;
    } else if y < 0 {
      assert -(x * y) == x * (-y);
    }
  }

  lemma {:induction false} OnePower(k: nat)
    ensures Power(1, k) == 1
  {
    if k > 0 {
      OnePower(k - 1);
    }
  }

  /** If a power fits in 64 bits, so does the one below it. (For a base of
      magnitude one its magnitude is one; otherwise it is at most 2^62.) */
  lemma FitsStep(b: int, e: nat)
    requires 1 <= e && FitsS64(Power(b, e))
    ensures FitsS64(Power(b, e - 1))
  {
    var p := Power(b, e - 1);
    assert Power(b, e) == b * p;
    if b != 0 {
      AbsMul(b, p);
      assert Abs(b) * Abs(p) <= 0x8000_0000_0000_0000;
      if Abs(b) == 1 {
        PowerAbs(b, e - 1);
        OnePower(e - 1);
      } else {
        DoubleBelow(Abs(b), Abs(p));
      }
    }
  }

  lemma DoubleBelow(q: nat, a: nat)
    requires 2 <= q
    ensures 2 * a <= q * a
  {
    assert q * a == 2 * a + (q - 2) * a;
  }

  /** When the power fits in 64 bits, so does every power below it: the
      loop's partial products never overflow. */
  lemma {:induction false} PowerFitsBelow(b: int, k: nat, e: nat)
    requires k <= e && FitsS64(Power(b, e))
    ensures FitsS64(Power(b, k))
    decreases e - k
  {
    if k < e {
      FitsStep(b, e);
      PowerFitsBelow(b, k, e - 1);
    }
  }

  /** The power of a sum of exponents is the product of the powers. */
  lemma {:induction false} PowerAdd(b: int, m: nat, n: nat)
    ensures Power(b, m + n) == Power(b, m) * Power(b, n)
  {
    if n > 0 {
      PowerAdd(b, m, n - 1);
      assert Power(b, m + n) == b * Power(b, m + n - 1);
      assert b * (Power(b, m) * Power(b, n - 1)) == Power(b, m) * (b * Power(b, n - 1));
    }
  }

  /** cobinternal.h:394: multiply `base` into a 64-bit result `exp` times.
      The product overflowing `int64_t` is undefined behaviour in C, so the
      caller must keep the final power in range. */
  method S32Pow(base: S32, exp: S32) returns (result: S64)
    requires exp <= 0 || FitsS64(Power(base, exp))
    ensures exp <= 0 ==> result == 1
    ensures exp >= 0 ==> result == Power(base, exp)
  {
    result := 1;
    var i: S32 := 0;
    while i < exp
      invariant 0 <= i && (exp <= 0 ==> i == 0) && (exp > 0 ==> i <= exp)
      invariant result == Power(base, i)
    {
      PowerFitsBelow(base, i + 1, exp);
      result := result * base;
      i := i + 1;
    }
  }

  // ---------------------------------------------------------------------
  // XML name characters
  // ---------------------------------------------------------------------

  function InRange(c: int, lo: int, hi: int): bool {
    lo <= c <= hi
  }

  /** The NameStartChar production of section 2.3 of XML 1.0 (Fifth Edition),
      over code points. */
  predicate XmlNameStartChar(c: int) {
    c == ':' as int || InRange(c, 'A' as int, 'Z' as int) || c == '_' as int
    || InRange(c, 'a' as int, 'z' as int)
    || InRange(c, 0xC0, 0xD6) || InRange(c, 0xD8, 0xF6) || InRange(c, 0xF8, 0x2FF)
    || InRange(c, 0x370, 0x37D) || InRange(c, 0x37F, 0x1FFF) || InRange(c, 0x200C, 0x200D)
    || InRange(c, 0x2070, 0x218F) || InRange(c, 0x2C00, 0x2FEF) || InRange(c, 0x3001, 0xD7FF)
    || InRange(c, 0xF900, 0xFDCF) || InRange(c, 0xFDF0, 0xFFFD) || InRange(c, 0x10000, 0xEFFFF)
  }

  /** The NameChar production of the same section. */
  predicate XmlNameChar(c: int) {
    XmlNameStartChar(c) || c == '-' as int || c == '.' as int
    || InRange(c, '0' as int, '9' as int) || c == 0xB7
    || InRange(c, 0x0300, 0x036F) || InRange(c, 0x203F, 0x2040)
  }

  predicate IsAscii(c: int) {
    0 <= c < 128
  }

  /** cobinternal.h:460: the ASCII letters, `_` and `:`. Every such character
      starts an XML name, and on ASCII these are all of them. */
  function IsXmlNameStartChar(c: int): (r: bool)
    ensures r ==> XmlNameStartChar(c)
    ensures IsAscii(c) ==> (r <==> XmlNameStartChar(c))
    ensures r ==> IsAscii(c)
  {
    InRange(c, 'A' as int, 'Z' as int) || InRange(c, 'a' as int, 'z' as int)
    || c == '_' as int || c == ':' as int
  }

  /** cobinternal.h:461: a name-start character, a digit, `-` or `.`. Every
      such character may appear in an XML name, and on ASCII these are all of
      them. */
  function IsXmlNameChar(c: int): (r: bool)
    ensures r ==> XmlNameChar(c)
    ensures IsAscii(c) ==> (r <==> XmlNameChar(c))
    ensures r ==> IsAscii(c)
  {
    IsXmlNameStartChar(c) || InRange(c, '0' as int, '9' as int)
    || c == '-' as int || c == '.' as int
  }

  /** A character that may start a name may also continue it. */
  lemma NameStartIsNameChar(c: int)
    ensures IsXmlNameStartChar(c) ==> IsXmlNameChar(c)
  {
  }

  /** Digits, `-` and `.` continue a name but never start one. */
  lemma ContinuationOnly(c: int)
    requires InRange(c, '0' as int, '9' as int) || c == '-' as int || c == '.' as int
    ensures IsXmlNameChar(c) && !IsXmlNameStartChar(c)
  {
  }

  /** Outside ASCII both tests are false, even where XML allows the character. */
  lemma NonAsciiRejected(c: int)
    requires !IsAscii(c)
    ensures !IsXmlNameStartChar(c) && !IsXmlNameChar(c)
  {
  }

  // ---------------------------------------------------------------------
  // cob_temp_name
  // ---------------------------------------------------------------------

  const Nul: char := '\0'
  const TempPrefix: string := "/tmp/cobtmp"

  /** The C string stored at the start of `s`: the characters before the first NUL. */
  function CString(s: seq<char>): (r: seq<char>)
    ensures |r| <= |s| && r == s[..|r|] && Nul !in r
    ensures |r| < |s| ==> s[|r|] == Nul
  {
    if s == [] || s[0] == Nul then [] else [s[0]] + CString(s[1..])
  }

  /** A text without NUL followed by a NUL reads back as that text, whatever follows. */
  lemma {:induction false} CStringOf(text: seq<char>, rest: seq<char>)
    requires Nul !in text
    ensures CString(text + [Nul] + rest) == text
  {
    if text != [] {
      assert (text + [Nul] + rest)[1..] == text[1..] + [Nul] + rest;
      CStringOf(text[1..], rest);
    }
  }

  /** cobinternal.h:555: `sprintf(buff, "/tmp/cobtmp%s", ext)` followed by
      `return buff`: the prefix, the characters of `ext` and a terminating
      NUL are written from the start of `buff`, the rest of `buff` is left
      alone. `ext` is a C string, so it holds no NUL, and `buff` must have
      room for the whole text, as `sprintf` does not check. */
  method TempName(buff: array<char>, ext: string) returns (r: array<char>)
    requires Nul !in ext
    requires |TempPrefix| + |ext| + 1 <= buff.Length
    modifies buff
    ensures r == buff
    ensures buff[..|TempPrefix| + |ext| + 1] == TempPrefix + ext + [Nul]
    ensures buff[|TempPrefix| + |ext| + 1..] == old(buff[|TempPrefix| + |ext| + 1..])
    ensures CString(buff[..]) == TempPrefix + ext
  {
    var text := TempPrefix + ext;
    var i := 0;
    while i < |text|
      invariant i <= |text|
      invariant buff[..i] == text[..i]
      invariant buff[|text| + 1..] == old(buff[|text| + 1..])
    {
      buff[i] := text[i];
      i := i + 1;
    }
    buff[i] := Nul;
    assert buff[..i + 1] == text + [Nul];
    assert buff[..] == buff[..i + 1] + buff[i + 1..];
    CStringOf(text, buff[i + 1..]);
    r := buff;
  }
}
