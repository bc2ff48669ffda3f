/**
 * Number reading and writing as the assembler does it: Python's `int()`
 * for bases 10, 16 and 0, `str()` of an integer, `bin()`, and the
 * assembler's own `hexToInt` and `intToBin`.
 */
module Numerals {
  import opened Results
  import opened Text

  /** The `ValueError` Python's `int()` raises on a malformed literal. */
  datatype ValueError = InvalidLiteral(literal: string, base: nat)

  function Pow2(n: nat): (p: nat)
    ensures p >= 1
  {
    if n == 0 then 1 else 2 * Pow2(n - 1)
  }

  function Min(a: nat, b: nat): nat {
    if a <= b then a else b
  }

  /** The value of a digit character in any base up to 36; 36 for a non-digit. */
  function DigitOf(c: char): nat {
    if '0' <= c <= '9' then c as nat - '0' as nat
    else if 'a' <= c <= 'z' then c as nat - 'a' as nat + 10
    else if 'A' <= c <= 'Z' then c as nat - 'A' as nat + 10
    else 36
  }

  predicate AllRadix(s: string, radix: nat) {
    forall i :: 0 <= i < |s| ==> DigitOf(s[i]) < radix
  }

  /** The value of a digit string, most significant digit first. */
  function RadixValue(s: string, radix: nat): nat
    requires AllRadix(s, radix)
  {
    if s == [] then 0 else RadixValue(s[..|s| - 1], radix) * radix + DigitOf(s[|s| - 1])
  }

  /** A non-empty run of digits of the given base. */
  function ReadDigits(s: string, radix: nat): Option<nat> {
    if s != [] && AllRadix(s, radix) then Some(RadixValue(s, radix)) else None
  }

  /** Separates one optional leading sign; the flag says whether it was `-`. */
  function SplitSign(s: string): (bool, string) {
    if s != [] && (s[0] == '+' || s[0] == '-') then (s[0] == '-', s[1..]) else (false, s)
  }

  function Signed(negative: bool, magnitude: Option<nat>): Option<int> {
    match magnitude
    case None => None
    case Some(v) => var r: int := if negative then 0 - v else v; Some(r)
  }

  /** `int(s)`: an optional sign and one or more decimal digits. */
  function ParseDecimal(s: string): Option<int> {
    var (negative, rest) := SplitSign(s);
    Signed(negative, ReadDigits(rest, 10))
  }

  predicate HasBasePrefix(rest: string, lower: char, upper: char) {
    |rest| >= 2 && rest[0] == '0' && (rest[1] == lower || rest[1] == upper)
  }

  /** `int(s, 16)`: an optional sign, an optional `0x`/`0X`, then hexadecimal digits. */
  function ParseBase16(s: string): Option<int> {
    var (negative, rest) := SplitSign(s);
    Signed(negative, ReadDigits(if HasBasePrefix(rest, 'x', 'X') then rest[2..] else rest, 16))
  }

  /**
   * `int(s, 0)`: the base follows from the prefix (`0x`, `0o`, `0b`);
   * without one the literal is decimal and may not start with `0` unless
   * it is all zeros.
   */
  function ParseBase0(s: string): Option<int> {
    var (negative, rest) := SplitSign(s);
    var magnitude :=
      if HasBasePrefix(rest, 'x', 'X') then ReadDigits(rest[2..], 16)
      else if HasBasePrefix(rest, 'o', 'O') then ReadDigits(rest[2..], 8)
      else if HasBasePrefix(rest, 'b', 'B') then ReadDigits(rest[2..], 2)
      else if rest != [] && rest[0] == '0' && exists i :: 0 <= i < |rest| && rest[i] != '0' then None
      else ReadDigits(rest, 10);
    Signed(negative, magnitude)
  }

  /** `"0x" in s` */
  predicate ContainsHexMarker(s: string) {
    exists i :: 0 <= i < |s| - 1 && s[i] == '0' && s[i + 1] == 'x'
  }

  /** `hexToInt`: base 0 when the operand contains `0x`, base 16 otherwise. */
  function HexToInt(s: string): Result<int, ValueError> {
    if ContainsHexMarker(s) then
      match ParseBase0(s)
      case Some(v) => Ok(v)
      case None => Err(InvalidLiteral(s, 0))
    else
      match ParseBase16(s)
      case Some(v) => Ok(v)
      case None => Err(InvalidLiteral(s, 16))
  }

  function DigitChar(d: nat): (c: char)
    requires d < 10
    ensures DigitOf(c) == d && '0' <= c <= '9'
  {
    ('0' as nat + d) as char
  }

  /** The decimal numeral of a natural number, as `str()` writes it. */
  function NatToDecimal(v: nat): (s: string)
    ensures s != [] && AllRadix(s, 10) && RadixValue(s, 10) == v
    ensures '0' <= s[0] <= '9'
  {
    if v < 10 then [DigitChar(v)]
    else
      var s := NatToDecimal(v / 10) + [DigitChar(v % 10)];
      assert s[..|s| - 1] == NatToDecimal(v / 10);
      s
  }

  /** `str(v)` for an integer. */
  function ToDecimal(v: int): string {
    if v < 0 then "-" + NatToDecimal(-v) else NatToDecimal(v)
  }

  /** Writing an integer in decimal and reading it back gives the integer. */
  lemma DecimalRoundTrip(v: int)
    ensures ParseDecimal(ToDecimal(v)) == Some(v)
  {
    if v < 0 {
      assert ToDecimal(v)[1..] == NatToDecimal(-v);
    }
  }

  predicate IsBits(s: string) {
    AllRadix(s, 2)
  }

  /** The value of a string of binary digits. */
  function BinValue(s: string): nat
    requires IsBits(s)
  {
    RadixValue(s, 2)
  }

  /** The number of binary digits of `v`; 0 counts as one digit. */
  function BitLength(v: nat): (k: nat)
    ensures k >= 1
  {
    if v < 2 then 1 else 1 + BitLength(v / 2)
  }

  /** The minimal binary numeral of `v`, as `bin()` writes it after `0b`. */
  function NatToBin(v: nat): (s: string)
    ensures IsBits(s) && |s| == BitLength(v) && BinValue(s) == v
    ensures s == "0" || s[0] == '1'
    ensures forall i :: 0 <= i < |s| ==> s[i] == '0' || s[i] == '1'
  {
    if v < 2 then (if v == 0 then "0" else "1")
    else
      var s := NatToBin(v / 2) + (if v % 2 == 0 then "0" else "1");
      assert s[..|s| - 1] == NatToBin(v / 2);
      s
  }

  /** Python's `bin(v)`. */
  function PyBin(v: int): string {
    if v < 0 then "-0b" + NatToBin(-v) else "0b" + NatToBin(v)
  }

  /** Python's `s[-n:]`; note that `s[-0:]` is the whole of `s`. */
  function Last(s: string, n: nat): string {
    if n == 0 || n >= |s| then s else s[|s| - n..]
  }

  /** `intToBin(num, n)`: `bin(int(num)).replace("0b", "")[-n:]`. */
  function IntToBin(num: string, n: nat): Result<string, ValueError> {
    match ParseDecimal(num)
    case Some(v) => Ok(Last(DeleteAll(PyBin(v), "0b"), n))
    case None => Err(InvalidLiteral(num, 10))
  }

  // ---- Properties of the conversions ----

  lemma ModUnique(a: int, m: int, q: int, r: int)
    requires m > 0 && 0 <= r < m && a == q * m + r
    ensures a % m == r
  {
    var d := q - a / m;
    assert d * m == a % m - r;
  }

  lemma ModDouble(x: nat, b: nat, p: nat)
    requires b < 2 && p >= 1
    ensures (x * 2 + b) % (2 * p) == (x % p) * 2 + b
  {
    var q, r := x / p, x % p;
    assert x * 2 + b == q * (2 * p) + (r * 2 + b);
    ModUnique(x * 2 + b, 2 * p, q, r * 2 + b);
  }

  /** The last `k` binary digits of a numeral read as its value modulo 2^k. */
  lemma {:induction false} SuffixValue(s: string, k: nat)
    requires IsBits(s) && k <= |s|
    ensures IsBits(s[|s| - k..]) && BinValue(s[|s| - k..]) == BinValue(s) % Pow2(k)
    decreases k
  {
    var u := s[|s| - k..];
    if k > 0 {
      var t := s[..|s| - 1];
      SuffixValue(t, k - 1);
      assert u[..|u| - 1] == t[|t| - (k - 1)..];
      assert u[|u| - 1] == s[|s| - 1];
      ModDouble(BinValue(t), DigitOf(s[|s| - 1]), Pow2(k - 1));
    }
  }

  /** A value fits in `n` binary digits exactly when it is below 2^n. */
  lemma {:induction false} BitLengthBound(v: nat, n: nat)
    requires n >= 1
    ensures v < Pow2(n) <==> BitLength(v) <= n
    decreases n
  {
    if n > 1 && v >= 2 {
      BitLengthBound(v / 2, n - 1);
    }
  }

  /** The sign of `v`, if negative, followed by the binary digits of |v|. */
  function SignedBin(v: int): string {
    if v < 0 then "-" + NatToBin(-v) else NatToBin(v)
  }

  /** The text `intToBin` writes for the value `v` in a field of width `n`. */
  function BinField(v: int, n: nat): string {
    Last(SignedBin(v), n)
  }

  /** `bin(v).replace("0b", "")` is the sign, if any, and the binary digits of |v|. */
  lemma BinText(v: int)
    ensures DeleteAll(PyBin(v), "0b") == SignedBin(v)
  {
    var d := NatToBin(if v < 0 then -v else v);
    DeleteAllAbsent(d, "0b", 'b');
    assert ("0b" + d)[..2] == "0b" && ("0b" + d)[2..] == d;
    if v < 0 {
      assert ("-0b" + d)[..2] != "0b";
      assert ("-0b" + d)[1..] == "0b" + d;
    }
  }

  /**
   * For a non-negative value the field holds binary digits only, is
   * min(n, bit length) long and reads as the value modulo 2^n: the
   * high-order digits are cut and nothing is padded.
   */
  lemma BinFieldOfNonNegative(v: int, n: nat)
    requires v >= 0 && n >= 1
    ensures IsBits(BinField(v, n))
    ensures |BinField(v, n)| == Min(n, BitLength(v))
    ensures BinValue(BinField(v, n)) == v % Pow2(n)
  {
    var d := NatToBin(v);
    assert SignedBin(v) == d;
    BitLengthBound(v, n);
    if n < |d| {
      assert BinField(v, n) == d[|d| - n..];
      SuffixValue(d, n);
    } else {
      assert BinField(v, n) == d;
      ModUnique(v, Pow2(n), 0, v);
    }
  }

  /** Example: 300 in an 8-bit field is `00101100`, which is 44. */
  lemma BinFieldTruncates()
    ensures BinField(300, 8) == "00101100"
  {
    assert NatToBin(4) == NatToBin(2) + "0" == "100";
    assert NatToBin(9) == NatToBin(4) + "1" == "1001";
    assert NatToBin(18) == NatToBin(9) + "0" == "10010";
    assert NatToBin(37) == NatToBin(18) + "1" == "100101";
    assert NatToBin(75) == NatToBin(37) + "1" == "1001011";
    assert NatToBin(150) == NatToBin(75) + "0" == "10010110";
    assert NatToBin(300) == NatToBin(150) + "0" == "100101100";
  }

  /** A value that fits is written as its minimal numeral, without leading zeros. */
  lemma BinFieldNoPadding(v: int, n: nat)
    requires 0 <= v < Pow2(n)
    ensures BinField(v, n) == NatToBin(v)
  {
    if n >= 1 {
      BitLengthBound(v, n);
    }
  }

  /** Example: 3 in a 4-bit field is `11`, not `0011`. */
  lemma BinFieldExampleNoPadding()
    ensures BinField(3, 4) == "11"
  {
    BinFieldNoPadding(3, 4);
  }

  /** Cutting to `n` characters loses a prefix when the rest is at least `n` long. */
  lemma LastDropsPrefix(c: string, d: string, n: nat)
    requires 1 <= n <= |d|
    ensures Last(c + d, n) == Last(d, n)
  {
    var t := c + d;
    assert t[|t| - n..] == d[|d| - n..];
  }

  /**
   * A negative value keeps its `-` when the sign and the digits of its
   * magnitude fit in the field; otherwise the sign is cut and the field
   * is that of the magnitude. Either way it is not two's complement.
   */
  lemma BinFieldOfNegative(v: int, n: nat)
    requires v < 0 && n >= 1
    ensures BitLength(-v) < n ==> BinField(v, n) == "-" + NatToBin(-v)
    ensures BitLength(-v) >= n ==> BinField(v, n) == BinField(-v, n)
  {
    var w: nat := -v;
    var d := NatToBin(w);
    assert SignedBin(v) == "-" + d;
    assert SignedBin(w) == d;
    if BitLength(w) >= n {
      LastDropsPrefix("-", d, n);
    }
  }

  /** Example: -1 in an 8-bit field is `-1`, where two's complement would give `11111111`. */
  lemma BinFieldExampleNegative()
    ensures BinField(-1, 8) == "-1"
  {
    BinFieldOfNegative(-1, 8);
  }

  /** A field of positive width is never empty and never longer than its width. */
  lemma BinFieldWidth(v: int, n: nat)
    requires n >= 1
    ensures 1 <= |BinField(v, n)| <= n
  {
  }

  /** With width 0, Python's `[-0:]` keeps the whole numeral. */
  lemma BinFieldZeroWidth(v: int)
    ensures BinField(v, 0) == SignedBin(v)
  {
  }

  /** The field is a pure bit string exactly when the value is non-negative or its sign is cut off. */
  lemma BinFieldIsBits(v: int, n: nat)
    requires n >= 1
    ensures IsBits(BinField(v, n)) <==> v >= 0 || BitLength(-v) >= n
  {
    if v >= 0 {
      BinFieldOfNonNegative(v, n);
    } else {
      BinFieldOfNegative(v, n);
      if BitLength(-v) >= n {
        BinFieldOfNonNegative(-v, n);
      } else {
        assert ("-" + NatToBin(-v))[0] == '-';
      }
    }
  }

  /** The field is written with `0`, `1` and `-` only, so it never holds a `_` separator. */
  lemma BinFieldChars(v: int, n: nat)
    ensures forall c :: c in BinField(v, n) ==> c == '0' || c == '1' || c == '-'
  {
  }

  /** `intToBin` fails exactly when `int()` rejects its operand. */
  lemma IntToBinReads(num: string, n: nat)
    ensures IntToBin(num, n).Ok? <==> ParseDecimal(num).Some?
    ensures IntToBin(num, n).Ok? ==> IntToBin(num, n).value == BinField(ParseDecimal(num).value, n)
    ensures IntToBin(num, n).Err? ==> IntToBin(num, n).error == InvalidLiteral(num, 10)
  {
    if ParseDecimal(num).Some? {
      BinText(ParseDecimal(num).value);
    }
  }

  /**
   * On any literal containing `x`, `int(s, 0)` and `int(s, 16)` agree:
   * an `x` can only be the one of a `0x`/`0X` prefix, which both read the
   * same way, and every other base-0 form has no `x`.
   */
  lemma {:induction false} Base0AgreesWithBase16(s: string)
    requires 'x' in s
    ensures ParseBase0(s) == ParseBase16(s)
  {
    var (negative, rest) := SplitSign(s);
    assert 'x' in rest;
    if !HasBasePrefix(rest, 'x', 'X') {
      assert DigitOf('x') == 33;
      assert ReadDigits(rest, 16) == None;
      if HasBasePrefix(rest, 'o', 'O') || HasBasePrefix(rest, 'b', 'B') {
        assert 'x' in rest[2..];
      }
    }
  }

  /** `hexToInt` reads every operand as `int(s, 16)` does, whichever branch it takes. */
  lemma HexToIntIsBase16(s: string)
    ensures HexToInt(s).Ok? <==> ParseBase16(s).Some?
    ensures HexToInt(s).Ok? ==> HexToInt(s).value == ParseBase16(s).value
  {
    if ContainsHexMarker(s) {
      var i :| 0 <= i < |s| - 1 && s[i] == '0' && s[i + 1] == 'x';
      assert 'x' in s;
      Base0AgreesWithBase16(s);
    }
  }

  /** Examples: a flag code without prefix is hexadecimal, so `10` is 16. */
  lemma HexToIntPlainExamples()
    ensures HexToInt("10") == Ok(16)
    ensures HexToInt("5") == Ok(5)
    ensures HexToInt("g") == Err(InvalidLiteral("g", 16))
  {
    assert "10"[..1] == "1";
    assert RadixValue("1", 16) == 1;
    assert ParseBase16("10") == Some(16);
    assert DigitOf('g') == 16;
    assert ParseBase16("g") == None;
  }

  /** Examples: with the `0x` prefix the value is the same. */
  lemma HexToIntPrefixedExamples()
    ensures HexToInt("0x10") == Ok(16)
    ensures HexToInt("0x0") == Ok(0)
  {
    HexToIntIsBase16("0x10");
    HexToIntIsBase16("0x0");
    assert "0x10"[2..] == "10" && "10"[..1] == "1";
    assert RadixValue("1", 16) == 1;
    assert ParseBase16("0x10") == Some(16);
    assert "0x0"[2..] == "0";
    assert ParseBase16("0x0") == Some(0);
  }
}
