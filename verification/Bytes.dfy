/** Bytes, decimal text and the two wrapper types shared by the other modules. */
module Bytes {

  newtype uint8 = x: int | 0 <= x < 256

  datatype Option<+T> = None | Some(value: T)

  /** Largest `usize` of a 64-bit build; no slice is longer. */
  const USIZE_MAX: nat := 0xFFFF_FFFF_FFFF_FFFF

  const I64_MAX: int := 0x7FFF_FFFF_FFFF_FFFF
  const I64_MIN: int := -0x8000_0000_0000_0000

  const ZERO: uint8 := 0x30
  const PLUS: uint8 := 0x2B

  predicate IsDigit(b: uint8) {
    0x30 <= b <= 0x39
  }

  predicate IsAlpha(b: uint8) {
    0x41 <= b <= 0x5A || 0x61 <= b <= 0x7A
  }

  /** ASCII lower case. */
  function LowerByte(b: uint8): uint8 {
    if 0x41 <= b <= 0x5A then b + 0x20 else b
  }

  function Lower(s: seq<uint8>): seq<uint8> {
    seq(|s|, i requires 0 <= i < |s| => LowerByte(s[i]))
  }

  predicate IsHex(b: uint8) {
    IsDigit(b) || 0x41 <= b <= 0x46 || 0x61 <= b <= 0x66
  }

  function HexValue(b: uint8): (n: nat)
    requires IsHex(b)
    ensures n < 16
  {
    if IsDigit(b) then b as int - 0x30 else if b <= 0x46 then b as int - 0x41 + 10 else b as int - 0x61 + 10
  }

  predicate AllHex(s: seq<uint8>) {
    forall i :: 0 <= i < |s| ==> IsHex(s[i])
  }

  predicate AllDigits(s: seq<uint8>) {
    forall i :: 0 <= i < |s| ==> IsDigit(s[i])
  }

  /** Decimal digits of a natural number, as `to_string` prints it. */
  function Decimal(n: nat): seq<uint8> {
    if n < 10 then [(0x30 + n) as uint8] else Decimal(n / 10) + [(0x30 + n % 10) as uint8]
  }

  function DecimalValue(s: seq<uint8>): nat
    requires AllDigits(s)
  {
    if s == [] then 0 else 10 * DecimalValue(s[..|s| - 1]) + (s[|s| - 1] as int - 0x30)
  }

  /** No superfluous leading zero. */
  predicate Canonical(s: seq<uint8>) {
    s != [] && AllDigits(s) && (|s| > 1 ==> s[0] != ZERO)
  }

  /** Printing a number and reading it back is the identity, and the print is canonical. */
  lemma {:induction false} DecimalRoundTrip(n: nat)
    ensures Canonical(Decimal(n)) && DecimalValue(Decimal(n)) == n
    ensures n > 0 ==> Decimal(n)[0] != ZERO
  {
    if n >= 10 {
      DecimalRoundTrip(n / 10);
      var d := Decimal(n);
      assert d[..|d| - 1] == Decimal(n / 10);
    }
  }

  /** Reading canonical text and printing it back is the identity. */
  lemma {:induction false} DecimalCanonical(s: seq<uint8>)
    requires Canonical(s)
    ensures Decimal(DecimalValue(s)) == s
    ensures s[0] != ZERO ==> DecimalValue(s) > 0
  {
    if |s| > 1 {
      var front, last := s[..|s| - 1], s[|s| - 1];
      DecimalCanonical(front);
      assert s == front + [last];
      LastDigit(DecimalValue(front), last as int - 0x30);
    } else {
      assert s[..0] == [];
      assert s == [s[0]];
    }
  }

  lemma LastDigit(q: nat, r: nat)
    requires r < 10
    ensures (10 * q + r) / 10 == q && (10 * q + r) % 10 == r
  {
  }

  lemma DecimalInjective(m: nat, n: nat)
    requires Decimal(m) == Decimal(n)
    ensures m == n
  {
    DecimalRoundTrip(m);
    DecimalRoundTrip(n);
  }

  /** Two texts that agree up to the first occurrence of a separator absent from both heads are equal. */
  lemma SplitAtSeparator(a: seq<uint8>, b: seq<uint8>, sep: uint8, s: seq<uint8>, t: seq<uint8>)
    requires sep !in a && sep !in b
    requires a + [sep] + s == b + [sep] + t
    ensures a == b && s == t
  {
    var l, r := a + [sep] + s, b + [sep] + t;
    assert forall i :: 0 <= i < |a| ==> l[i] == a[i] && a[i] in a;
    assert forall i :: 0 <= i < |b| ==> r[i] == b[i] && b[i] in b;
    assert l[|a|] == sep && r[|b|] == sep;
    assert a == l[..|a|] && b == r[..|b|];
    assert s == l[|a| + 1..] && t == r[|b| + 1..];
  }
}
