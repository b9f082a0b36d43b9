/** Byte strings and the few Go library routines on them that the ar codec
    relies on: `strings.TrimSpace`, `strings.TrimRight(s, " ")`,
    `strings.TrimSuffix(s, "/")`, `strconv.FormatInt`/`FormatUint` and
    `strconv.ParseInt`, restricted to bases 2 to 10. */
module Ascii {
  import opened Wrappers

  /** A Go byte. It is a character below 256 so that ASCII literals of the
      archive format can be written as Dafny strings. */
  type byte = c: char | c as int < 256

  type int32 = x: int | -0x8000_0000 <= x < 0x8000_0000
  type uint32 = x: int | 0 <= x < 0x1_0000_0000
  type int64 = x: int | -0x8000_0000_0000_0000 <= x < 0x8000_0000_0000_0000

  /** Go's conversion `uint32(x)` of a signed integer: two's complement truncation. */
  function Uint32(x: int): (r: uint32)
    ensures 0 <= x < 0x1_0000_0000 ==> r == x
    ensures -0x1_0000_0000 <= x < 0 ==> r == x + 0x1_0000_0000
    ensures (r - x) % 0x1_0000_0000 == 0
  {
    x % 0x1_0000_0000
  }

  /** Go's `a % b` for b > 0, which truncates toward zero (the result has the sign of a). */
  function GoRem(a: int, b: int): (r: int)
    requires b > 0
    ensures a >= 0 ==> r == a % b
    ensures a < 0 ==> -b < r <= 0
    ensures (a - r) % b == 0
  {
    if a >= 0 then
      ModUnique(a - a % b, b, a / b, 0);
      a % b
    else
      var q, m := (-a) / b, (-a) % b;
      assert -a == b * q + m;
      ModUnique(a + m, b, -q, 0);
      -m
  }

  lemma {:induction false} MulAtLeast(b: int, k: int)
    requires b > 0 && k >= 1
    ensures b * k >= b
  {
    assert b * k == b * (k - 1) + b;
    assert b * (k - 1) >= 0;
  }

  /** Euclidean division is unique: a quotient and a remainder in [0, b) fix a % b. */
  lemma {:induction false} ModUnique(a: int, b: int, q: int, m: int)
    requires b > 0 && 0 <= m < b && a == b * q + m
    ensures a % b == m
  {
    var q0 := a / b;
    assert a == b * q0 + a % b;
    assert b * (q0 - q) == m - a % b;
    if q0 > q {
      MulAtLeast(b, q0 - q);
    } else if q0 < q {
      MulAtLeast(b, q - q0);
    }
  }

  function Spaces(n: nat): (s: seq<byte>)
    ensures |s| == n
    ensures forall i | 0 <= i < n :: s[i] == ' '
  {
    seq(n, _ => ' ')
  }

  /** The ASCII white space that `strings.TrimSpace` removes: '\t', '\n', '\v', '\f', '\r' and ' '. */
  predicate IsSpace(c: byte) {
    c == ' ' || 9 <= c as int <= 13
  }

  /** A byte below 0x80. Go's `strings.TrimSpace` scans such bytes one at a
      time and switches to Unicode white space at the first byte that is not. */
  predicate IsAscii(c: byte) {
    c as int < 0x80
  }

  /** `strings.TrimRight(s, " ")`: drops trailing blanks, and only blanks. */
  function TrimRightBlanks(s: seq<byte>): (r: seq<byte>)
    ensures r <= s
    ensures forall i | |r| <= i < |s| :: s[i] == ' '
    ensures r == [] || r[|r| - 1] != ' '
  {
    if s != [] && s[|s| - 1] == ' ' then TrimRightBlanks(s[..|s| - 1]) else s
  }

  function TrimLeftSpace(s: seq<byte>): (r: seq<byte>)
    ensures |r| <= |s|
    ensures forall i | 0 <= i < |s| - |r| :: IsSpace(s[i])
    ensures r == [] || !IsSpace(r[0])
  {
    if s != [] && IsSpace(s[0]) then TrimLeftSpace(s[1..]) else s
  }

  function TrimRightSpace(s: seq<byte>): (r: seq<byte>)
    ensures r <= s
    ensures forall i | |r| <= i < |s| :: IsSpace(s[i])
    ensures r == [] || !IsSpace(r[|r| - 1])
  {
    if s != [] && IsSpace(s[|s| - 1]) then TrimRightSpace(s[..|s| - 1]) else s
  }

  /** `strings.TrimSpace` on ASCII input: all leading and trailing white space removed. */
  function TrimSpace(s: seq<byte>): (r: seq<byte>)
    ensures r == [] || (!IsSpace(r[0]) && !IsSpace(r[|r| - 1]))
    ensures |r| <= |s|
  {
    TrimRightSpace(TrimLeftSpace(s))
  }

  /** TrimLeftSpace keeps a suffix of its input. */
  lemma {:induction false} TrimLeftSuffix(s: seq<byte>)
    ensures TrimLeftSpace(s) == s[|s| - |TrimLeftSpace(s)|..]
  {
    if s != [] && IsSpace(s[0]) {
      TrimLeftSuffix(s[1..]);
      assert s[1..][|s| - 1 - |TrimLeftSpace(s[1..])|..] == s[|s| - |TrimLeftSpace(s[1..])|..];
    }
  }

  /** TrimSpace keeps the slice of s from its first byte other than white
      space, at n, and leaves only white space before and after it. With the
      ends of the result not white space, this fixes the result. */
  lemma {:induction false} TrimSpaceSlice(s: seq<byte>)
    ensures var r, n := TrimSpace(s), |s| - |TrimLeftSpace(s)|;
      && n + |r| <= |s| && r == s[n..n + |r|]
      && (forall i | 0 <= i < n :: IsSpace(s[i]))
      && (forall i | n + |r| <= i < |s| :: IsSpace(s[i]))
  {
    var l := TrimLeftSpace(s);
    var n := |s| - |l|;
    TrimLeftSuffix(s);
    var r := TrimRightSpace(l);
    assert r == TrimSpace(s);
    assert r == l[..|r|];
    assert r == s[n..n + |r|];
    forall i | n + |r| <= i < |s|
      ensures IsSpace(s[i])
    {
      assert s[i] == l[i - n];
    }
  }

  /** `strings.TrimSuffix(s, "/")`: removes one trailing slash, if any. */
  function TrimSlash(s: seq<byte>): (r: seq<byte>)
    ensures s != [] && s[|s| - 1] == '/' ==> r + ['/'] == s
    ensures s == [] || s[|s| - 1] != '/' ==> r == s
  {
    if s != [] && s[|s| - 1] == '/' then s[..|s| - 1] else s
  }

  lemma {:induction false} TrimRightBlanksPadded(text: seq<byte>, n: nat)
    requires text == [] || text[|text| - 1] != ' '
    ensures TrimRightBlanks(text + Spaces(n)) == text
    decreases n
  {
    if n > 0 {
      assert (text + Spaces(n))[..|text| + n - 1] == text + Spaces(n - 1);
      TrimRightBlanksPadded(text, n - 1);
    }
  }

  lemma {:induction false} TrimRightSpacePadded(text: seq<byte>, n: nat)
    requires text == [] || !IsSpace(text[|text| - 1])
    ensures TrimRightSpace(text + Spaces(n)) == text
    decreases n
  {
    if n > 0 {
      assert (text + Spaces(n))[..|text| + n - 1] == text + Spaces(n - 1);
      TrimRightSpacePadded(text, n - 1);
    }
  }

  lemma {:induction false} TrimLeftSpaceBlank(n: nat)
    ensures TrimLeftSpace(Spaces(n)) == []
    decreases n
  {
    if n > 0 {
      assert Spaces(n)[1..] == Spaces(n - 1);
      TrimLeftSpaceBlank(n - 1);
    }
  }

  /** Padding a trimmed text with blanks and trimming it again gives the text back. */
  lemma {:induction false} TrimSpacePadded(text: seq<byte>, n: nat)
    requires text == [] || (!IsSpace(text[0]) && !IsSpace(text[|text| - 1]))
    ensures TrimSpace(text + Spaces(n)) == text
  {
    if text == [] {
      assert text + Spaces(n) == Spaces(n);
      TrimLeftSpaceBlank(n);
    } else {
      assert TrimLeftSpace(text + Spaces(n)) == text + Spaces(n);
      TrimRightSpacePadded(text, n);
    }
  }

  // ---------------------------------------------------------------------------
  // Numerals

  predicate IsDigit(c: byte, base: nat) {
    '0' <= c && c as int - '0' as int < base
  }

  predicate AllDigits(s: seq<byte>, base: nat) {
    forall i | 0 <= i < |s| :: IsDigit(s[i], base)
  }

  function DigitChar(d: nat): (c: byte)
    requires d < 10
    ensures IsDigit(c, d + 1) && c as int - '0' as int == d
  {
    ('0' as int + d) as char
  }

  /** The value of a string of digits, most significant first. */
  function DigitsValue(s: seq<byte>, base: nat): nat
    requires AllDigits(s, base)
  {
    if s == [] then 0 else base * DigitsValue(s[..|s| - 1], base) + (s[|s| - 1] as int - '0' as int)
  }

  lemma {:induction false} DigitsValueSnoc(init: seq<byte>, c: byte, base: nat)
    requires AllDigits(init, base) && IsDigit(c, base)
    ensures AllDigits(init + [c], base)
    ensures DigitsValue(init + [c], base) == base * DigitsValue(init, base) + (c as int - '0' as int)
  {
    assert (init + [c])[..|init|] == init;
  }

  lemma {:induction false} DivShrinks(n: nat, base: nat)
    requires 2 <= base <= n
    ensures 1 <= n / base < n && n == base * (n / base) + n % base && n % base < base
  {
  }

  function Pow(b: nat, k: nat): (p: nat)
    ensures b >= 1 ==> p >= 1
  {
    if k == 0 then 1 else b * Pow(b, k - 1)
  }

  /** `strconv.FormatUint(n, base)`: the shortest digit string of n. */
  function FormatNat(n: nat, base: nat): (s: seq<byte>)
    requires 2 <= base <= 10
    ensures |s| >= 1 && AllDigits(s, base)
    ensures DigitsValue(s, base) == n
    ensures s[0] == '0' ==> n == 0
    ensures |s| > 1 ==> s[0] != '0'
    ensures n == 0 ==> s == "0"
    decreases n
  {
    if n < base then
      DigitsValueSnoc([], DigitChar(n), base);
      [DigitChar(n)]
    else
      var q, d := n / base, n % base;
      DivShrinks(n, base);
      var init := FormatNat(q, base);
      DigitsValueSnoc(init, DigitChar(d), base);
      assert n == base * q + d;
      init + [DigitChar(d)]
  }

  /** `strconv.FormatInt(n, base)`: a minus sign for negative numbers, then the digits. */
  function FormatInt(n: int, base: nat): (s: seq<byte>)
    requires 2 <= base <= 10
    ensures |s| >= 1
    ensures n < 0 <==> s[0] == '-'
    ensures n < 0 ==> s[1..] == FormatNat(-n, base)
    ensures n >= 0 ==> s == FormatNat(n, base)
  {
    if n < 0 then "-" + FormatNat(-n, base) else FormatNat(n, base)
  }

  datatype NumError = ErrSyntax | ErrRange

  /** What `strconv.ParseInt` returns: its value, and the kind of error if any. */
  datatype Parsed = Parsed(value: int, err: Option<NumError>)

  /** The digits of a numeral after one optional leading sign. */
  function Unsigned(s: seq<byte>): (d: seq<byte>)
    ensures s != [] && (s[0] == '+' || s[0] == '-') ==> d == s[1..]
    ensures s == [] || (s[0] != '+' && s[0] != '-') ==> d == s
  {
    if s != [] && (s[0] == '+' || s[0] == '-') then s[1..] else s
  }

  /** The syntax ParseInt accepts in bases 2 to 10: an optional sign, then one or more digits. */
  predicate IsNumeral(s: seq<byte>, base: nat) {
    Unsigned(s) != [] && AllDigits(Unsigned(s), base)
  }

  /** The signed value a numeral denotes. */
  function NumeralValue(s: seq<byte>, base: nat): int
    requires IsNumeral(s, base)
  {
    if s[0] == '-' then -(DigitsValue(Unsigned(s), base) as int) else DigitsValue(Unsigned(s), base)
  }

  /** 2^(bitSize-1), the first magnitude out of range for a signed integer of that size. */
  function Cutoff(bitSize: nat): (c: nat)
    requires bitSize == 32 || bitSize == 64
    ensures c == Pow(2, bitSize - 1)
  {
    PowTwo31();
    PowTwo63();
    if bitSize == 32 then 0x8000_0000 else 0x8000_0000_0000_0000
  }

  /** `strconv.ParseInt(s, base, bitSize)`. A syntax error gives 0; a value out
      of range is clamped to the nearest bound and gives a range error. */
  function ParseInt(s: seq<byte>, base: nat, bitSize: nat): (p: Parsed)
    requires 2 <= base <= 10
    requires bitSize == 32 || bitSize == 64
    ensures p.err == Some(ErrSyntax) <==> !IsNumeral(s, base)
    ensures p.err == Some(ErrSyntax) ==> p.value == 0
    ensures -(Cutoff(bitSize) as int) <= p.value < Cutoff(bitSize)
  {
    if s == [] then Parsed(0, Some(ErrSyntax))
    else
      var neg := s[0] == '-';
      var digits := Unsigned(s);
      if digits == [] || !AllDigits(digits, base) then Parsed(0, Some(ErrSyntax))
      else
        var un := DigitsValue(digits, base);
        var cutoff := Cutoff(bitSize);
        if !neg && un >= cutoff then Parsed(cutoff - 1, Some(ErrRange))
        else if neg && un > cutoff then Parsed(-(cutoff as int), Some(ErrRange))
        else Parsed(if neg then -(un as int) else un, None)
  }

  /** A numeral in range parses to the value it denotes; one out of range
      gives ErrRange and is clamped to the nearer end of the range. */
  lemma {:induction false} ParseIntMeaning(s: seq<byte>, base: nat, bitSize: nat)
    requires 2 <= base <= 10
    requires bitSize == 32 || bitSize == 64
    ensures var p, lo, hi := ParseInt(s, base, bitSize), -(Cutoff(bitSize) as int), Cutoff(bitSize);
      && (p.err.None? ==> IsNumeral(s, base) && p.value == NumeralValue(s, base))
      && (p.err == Some(ErrRange) <==> IsNumeral(s, base) && !(lo <= NumeralValue(s, base) < hi))
      && (p.err == Some(ErrRange) ==> p.value == if NumeralValue(s, base) < 0 then lo else hi - 1)
  {
  }

  lemma PowTwo31()
    ensures Pow(2, 31) == 0x8000_0000
  {
    PowTwo32();
    PowAdd(2, 31, 1);
    assert Pow(2, 1) == 2;
  }

  lemma PowTwo63()
    ensures Pow(2, 63) == 0x8000_0000_0000_0000
  {
    PowTwo32();
    PowSquare(2, 32);
    PowAdd(2, 63, 1);
    assert Pow(2, 1) == 2;
  }

  lemma PowTwo32()
    ensures Pow(2, 32) == 0x1_0000_0000
  {
    assert Pow(2, 8) == 256;
    PowSquare(2, 8);
    PowSquare(2, 16);
  }

  lemma {:induction false} PowAdd(b: nat, j: nat, k: nat)
    ensures Pow(b, j + k) == Pow(b, j) * Pow(b, k)
    decreases j
  {
    if j > 0 {
      PowAdd(b, j - 1, k);
      assert Pow(b, j + k) == b * Pow(b, (j - 1) + k);
      MulAssoc(b, Pow(b, j - 1), Pow(b, k));
    }
  }

  lemma {:induction false} MulAssoc(a: nat, b: nat, c: nat)
    ensures a * (b * c) == (a * b) * c
  {
  }

  lemma {:induction false} PowSquare(b: nat, k: nat)
    ensures Pow(b, 2 * k) == Pow(b, k) * Pow(b, k)
  {
    PowAdd(b, k, k);
  }

  lemma {:induction false} PowMonotone(b: nat, j: nat, k: nat)
    requires b >= 1 && j <= k
    ensures Pow(b, j) <= Pow(b, k)
    decreases k
  {
    if j < k {
      PowMonotone(b, j, k - 1);
      var p := Pow(b, k - 1);
      MulMonotone(1, b, p, p);
      assert Pow(b, k) == b * p;
    }
  }

  /** A string of k digits in base b denotes a value below b^k. */
  lemma {:induction false} DigitsValueBound(s: seq<byte>, base: nat)
    requires AllDigits(s, base)
    ensures DigitsValue(s, base) < Pow(base, |s|)
    decreases |s|
  {
    if s != [] {
      var init := s[..|s| - 1];
      assert AllDigits(init, base);
      DigitsValueBound(init, base);
      var v, p, d := DigitsValue(init, base), Pow(base, |init|), s[|s| - 1] as int - '0' as int;
      assert DigitsValue(s, base) == base * v + d;
      assert Pow(base, |s|) == base * p;
      MulMonotone(base, base, v, p - 1);
      assert base * (p - 1) == base * p - base;
    }
  }

  /** Parsing what FormatInt rendered gives the number back, with no error,
      whenever the number is in range for the bit size. */
  lemma {:induction false} ParseFormatInt(n: int, base: nat, bitSize: nat)
    requires 2 <= base <= 10
    requires bitSize == 32 || bitSize == 64
    requires -(Cutoff(bitSize) as int) <= n < Cutoff(bitSize)
    ensures ParseInt(FormatInt(n, base), base, bitSize) == Parsed(n, None)
  {
    var s := FormatInt(n, base);
    if n < 0 {
      assert Unsigned(s) == FormatNat(-n, base);
    } else {
      assert s[0] != '+' && s[0] != '-';
      assert Unsigned(s) == FormatNat(n, base);
    }
  }

  /** The field widths of an ar header are too narrow for a range error:
      at most 12 bytes for a 64-bit value and at most 6 bytes for a 32-bit one. */
  lemma {:induction false} NoRangeError(s: seq<byte>, base: nat, bitSize: nat)
    requires 2 <= base <= 10
    requires bitSize == 32 || bitSize == 64
    requires bitSize == 64 ==> |s| <= 12
    requires bitSize == 32 ==> |s| <= 6
    ensures ParseInt(s, base, bitSize).err != Some(ErrRange)
  {
    var d := Unsigned(s);
    if d != [] && AllDigits(d, base) {
      DigitsValueBound(d, base);
      PowMonotone(base, |d|, |s|);
      PowBaseBound(base, |s|);
      if bitSize == 64 {
        PowMonotone(10, |s|, 12);
        assert Pow(10, 12) == 1_000_000_000_000 by { PowAdd(10, 6, 6); PowTen6(); }
      } else {
        PowMonotone(10, |s|, 6);
        PowTen6();
      }
    }
  }

  lemma {:induction false} MulMonotone(a: nat, b: nat, c: nat, d: nat)
    requires a <= b && c <= d
    ensures a * c <= b * d
  {
    assert a * c <= a * d;
    assert a * d <= b * d;
  }

  lemma PowTen6()
    ensures Pow(10, 6) == 1_000_000
  {
    assert Pow(10, 1) == 10;
    PowAdd(10, 1, 1);
    PowAdd(10, 2, 1);
    PowSquare(10, 3);
  }

  lemma {:induction false} PowBaseBound(base: nat, k: nat)
    requires 1 <= base <= 10
    ensures Pow(base, k) <= Pow(10, k)
    decreases k
  {
    if k > 0 {
      PowBaseBound(base, k - 1);
      MulMonotone(base, 10, Pow(base, k - 1), Pow(10, k - 1));
    }
  }

  /** Only trailing blanks are trimmed: a field of blanks, or one with a leading
      blank, does not parse. */
  lemma {:induction false} BlankFieldsFail(width: nat, rest: seq<byte>, base: nat, bitSize: nat)
    requires 2 <= base <= 10
    requires bitSize == 32 || bitSize == 64
    ensures ParseInt(TrimRightBlanks(Spaces(width)), base, bitSize).err == Some(ErrSyntax)
    ensures ParseInt(TrimRightBlanks([' '] + rest), base, bitSize).err == Some(ErrSyntax)
  {
    TrimRightBlanksPadded([], width);
    assert [] + Spaces(width) == Spaces(width);
    var t := TrimRightBlanks([' '] + rest);
    if t != [] {
      assert t[0] == ' ';
      assert ' ' as int == 32 && '+' as int == 43 && '-' as int == 45 && '0' as int == 48;
      assert !IsDigit(Unsigned(t)[0], base) || Unsigned(t) == [];
    }
  }
}
