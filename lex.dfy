/**
 * The two lexing helpers of dfa.cpp: `lex_number` reads the decimal bound of
 * a `{...}` repetition, `lex_hex` reads the two hex digits of a `/x` escape.
 * Each is specified by a pure function of the text and the cursor, and the
 * method that mirrors the C++ loop is proved to compute exactly that.
 */
module Lex {
  import opened Cursor
  import opened Outcome

  /** 2^32: `lex_number` accumulates in an `unsigned int`. */
  const U32: nat := 0x1_0000_0000

  const ExpectedDigit: string := "failed to read number expected digit"

  predicate IsDigit(c: byte)
  {
    '0' as byte <= c <= '9' as byte
  }

  function DigitValue(c: byte): (d: nat)
    requires IsDigit(c)
    ensures d < 10
  {
    c - '0' as int
  }

  predicate AllDigits(ds: seq<byte>)
  {
    forall i | 0 <= i < |ds| :: IsDigit(ds[i])
  }

  /** The number a run of decimal digits denotes, most significant first. */
  function Decimal(ds: seq<byte>): (r: nat)
    requires AllDigits(ds)
  {
    if ds == [] then 0 else Decimal(ds[..|ds| - 1]) * 10 + DigitValue(ds[|ds| - 1])
  }

  /** The index of the first non-digit at or after `pos`. */
  function DigitRunEnd(input: seq<byte>, pos: nat): (e: nat)
    ensures pos <= e
    ensures pos < |input| ==> e <= |input|
    ensures forall i | pos <= i < e :: IsDigit(At(input, i))
    ensures !IsDigit(At(input, e))
    decreases |input| - pos
  {
    if IsDigit(At(input, pos)) then DigitRunEnd(input, pos + 1) else pos
  }

  /**
   * What `lex_number` does at `pos`: fail unless the first byte is a digit;
   * otherwise the value of the maximal digit run, truncated to 32 bits, and
   * the cursor one past the first non-digit (which is consumed as well).
   */
  ghost function LexNumberSpec(input: seq<byte>, pos: nat): (r: Result<(nat, nat)>)
    ensures r.Err? <==> !IsDigit(At(input, pos))
    ensures r.Err? ==> r.message == ExpectedDigit
    ensures r.Ok? ==> r.value.0 < U32 && pos + 2 <= r.value.1
    ensures r.Ok? ==> !IsDigit(At(input, r.value.1 - 1))
    ensures r.Ok? ==> forall i | pos <= i < r.value.1 - 1 :: IsDigit(At(input, i))
  {
    if !IsDigit(At(input, pos)) then Err(ExpectedDigit)
    else
      var e := DigitRunEnd(input, pos);
      assert AllDigits(input[pos..e]) by {
        forall i | 0 <= i < e - pos ensures IsDigit(input[pos..e][i]) {
          assert At(input, pos + i) == input[pos + i];
        }
      }
      Ok((Decimal(input[pos..e]) % U32, e + 1))
  }

  /** Truncating after each step gives the same result as truncating once. */
  lemma ModStep(a: nat, d: nat)
    ensures ((a % U32) * 10 + d) % U32 == (a * 10 + d) % U32
  {
    var q := a / U32;
    assert a == q * U32 + a % U32;
    assert a * 10 + d == (q * 10) * U32 + ((a % U32) * 10 + d);
  }

  /** The digit run of `pos..i` extended by the digit at `i`. */
  lemma DecimalSnoc(input: seq<byte>, pos: nat, i: nat)
    requires pos <= i < |input|
    requires AllDigits(input[pos..i]) && IsDigit(input[i])
    ensures AllDigits(input[pos..i + 1])
    ensures Decimal(input[pos..i + 1]) == Decimal(input[pos..i]) * 10 + DigitValue(input[i])
  {
    assert input[pos..i + 1] == input[pos..i] + [input[i]];
    assert input[pos..i + 1][..i - pos] == input[pos..i];
  }

  /** `lex_number` (dfa.cpp:14-26). */
  method LexNumber(input: seq<byte>, pos: nat) returns (r: Result<(nat, nat)>)
    ensures r == LexNumberSpec(input, pos)
  {
    var number: nat := 0;
    var str := pos;
    var ch := At(input, str);
    str := str + 1;
    if !IsDigit(ch) {
      return Err(ExpectedDigit);
    }
    ghost var e := DigitRunEnd(input, pos);
    while IsDigit(ch)
      invariant pos < str <= e + 1 <= |input| + 1
      invariant ch == At(input, str - 1)
      invariant AllDigits(input[pos..str - 1])
      invariant number == Decimal(input[pos..str - 1]) % U32
      decreases |input| + 1 - str
    {
      DecimalSnoc(input, pos, str - 1);
      ModStep(Decimal(input[pos..str - 1]), DigitValue(ch));
      number := (number * 10 + DigitValue(ch)) % U32;
      ch := At(input, str);
      str := str + 1;
    }
    return Ok((number, str));
  }

  /** The decimal rendering of `n`, most significant digit first. */
  function DecimalText(n: nat): (ds: seq<byte>)
    ensures 1 <= |ds| && AllDigits(ds)
  {
    if n < 10 then ['0' as byte + n] else DecimalText(n / 10) + ['0' as byte + n % 10]
  }

  /** Reading back a rendering gives the number. */
  lemma {:induction false} DecimalOfText(n: nat)
    ensures Decimal(DecimalText(n)) == n
  {
    var ds := DecimalText(n);
    if n >= 10 {
      assert ds[..|ds| - 1] == DecimalText(n / 10);
      DecimalOfText(n / 10);
    }
  }

  /**
   * Round trip: `lex_number` on a decimal rendering of `n` followed by a
   * non-digit yields `n` modulo 2^32 and stops one past that non-digit.
   */
  lemma LexNumberRoundTrip(n: nat, rest: seq<byte>)
    requires !IsDigit(At(rest, 0))
    ensures LexNumberSpec(DecimalText(n) + rest, 0) == Ok((n % U32, |DecimalText(n)| + 1))
  {
    var ds := DecimalText(n);
    var input := ds + rest;
    var e := DigitRunEnd(input, 0);
    forall i | 0 <= i < |ds| ensures IsDigit(At(input, i)) {
      assert At(input, i) == ds[i];
    }
    assert At(input, |ds|) == At(rest, 0);
    assert e == |ds|;
    assert input[0..e] == ds;
    DecimalOfText(n);
  }

  /** The value `lex_hex` gives one byte: a hex digit of either case, else 0. */
  function HexDigitValue(c: byte): (v: nat)
    ensures v < 16
  {
    if '0' as byte <= c <= '9' as byte then c - '0' as int
    else if 'a' as byte <= c <= 'f' as byte then c - 'a' as int + 10
    else if 'A' as byte <= c <= 'F' as byte then c - 'A' as int + 10
    else 0
  }

  /** The value of the first `i` (at most two) bytes read by `lex_hex`. */
  function HexPrefix(input: seq<byte>, pos: nat, i: nat): (v: nat)
    requires i <= 2
    ensures i == 0 ==> v == 0
    ensures i == 1 ==> v == HexDigitValue(At(input, pos))
  {
    if i == 0 then 0 else 16 * HexPrefix(input, pos, i - 1) + HexDigitValue(At(input, pos + i - 1))
  }

  /** What `lex_hex` returns at `pos`: 16 * d1 + d2, always a byte. */
  function HexPair(input: seq<byte>, pos: nat): (b: byte)
    ensures b == 16 * HexDigitValue(At(input, pos)) + HexDigitValue(At(input, pos + 1))
  {
    HexPrefix(input, pos, 2)
  }

  /** Storing into the 8-bit `char ret` of `lex_hex`: the value modulo 256. */
  function WrapChar(x: nat): (b: byte)
    ensures x < 256 ==> b == x
  {
    x % 256
  }

  /** `lex_hex` (dfa.cpp:28-61): never fails, always consumes two bytes. */
  method LexHex(input: seq<byte>, pos: nat) returns (value: byte, next: nat)
    ensures value == HexPair(input, pos)
    ensures next == pos + 2
  {
    var ret: byte := 0;
    var str := pos;
    for i := 0 to 2
      invariant str == pos + i
      invariant ret == HexPrefix(input, pos, i)
    {
      ret := WrapChar(ret * 16);
      ret := WrapChar(ret + HexDigitValue(At(input, str)));
      str := str + 1;
    }
    return ret, str;
  }

  /** The hex digit for `d < 16`, lower or upper case. */
  function HexDigit(d: nat, upper: bool): (c: byte)
    requires d < 16
  {
    if d < 10 then '0' as byte + d
    else if upper then 'A' as byte + d - 10
    else 'a' as byte + d - 10
  }

  /** Round trip: every byte written as two hex digits reads back as itself. */
  lemma HexRoundTrip(b: byte, upperHigh: bool, upperLow: bool)
    ensures HexPair([HexDigit(b / 16, upperHigh), HexDigit(b % 16, upperLow)], 0) == b
  {
    var s := [HexDigit(b / 16, upperHigh), HexDigit(b % 16, upperLow)];
    assert HexDigitValue(At(s, 0)) == b / 16;
    assert HexDigitValue(At(s, 1)) == b % 16;
  }
}
