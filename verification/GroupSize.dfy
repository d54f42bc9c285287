/** detail/message.cpp:26-59: a group size is sent in one byte, five bits of mantissa in units of
    10/32 and three bits of decimal exponent. The doubles are exact reals here. */
module GroupSize {

  /** (int)(x + 0.5), for x that is not negative. */
  function Rounded(x: real): (r: int)
    ensures x >= 0.0 ==> r >= 0
  {
    (x + 0.5).Floor
  }

  function Power10(e: nat): (p: real)
    ensures p >= 1.0
  {
    if e == 0 then 1.0 else 10.0 * Power10(e - 1)
  }

  /** How often x can be divided by ten and leave at least one. */
  function Exponent(x: real): nat
    decreases x.Floor
  {
    if x < 10.0 then 0 else 1 + Exponent(x / 10.0)
  }

  /** x with its decimal point moved behind the first digit. */
  function Mantissa(x: real): (m: real)
    requires x >= 0.0
    ensures 0.0 <= m < 10.0 && (x >= 1.0 ==> m >= 1.0) && (x < 1.0 ==> m == x)
    decreases x.Floor
  {
    if x < 10.0 then x else Mantissa(x / 10.0)
  }

  /** m in mantissa units, of which there are 32 to ten. */
  function Units(m: real): (k: nat)
    requires m >= 0.0
  {
    Rounded(m * 32.0 / 10.0)
  }

  /** (k << 3) | e, kept in eight bits. The fourth bit of e, if it has one, falls on the lowest of k. */
  function Combine(k: nat, e: nat): nat {
    (8 * (if e / 8 % 2 == 1 && k % 2 == 0 then k + 1 else k) + e % 8) % 0x100
  }

  /** The byte for group size g: its leading digits rounded to units, unless that takes six bits. */
  function Quantize(g: nat): nat {
    var m, e := Mantissa(g as real), Exponent(g as real);
    if Units(m) <= 31 then Combine(Units(m), e) else Combine(Units(m / 10.0), e + 1)
  }

  /** k mantissa units of the decimal power p. */
  function Value(k: nat, p: real): real {
    k as real * (10.0 / 32.0) * p
  }

  function Dequantize(q: nat): int {
    Rounded(Value(q / 8, Power10(q % 8)))
  }

  /** The bit of n that stands for p, a power of two. */
  predicate HasBit(n: nat, p: nat)
    requires p > 0
  {
    n / p % 2 == 1
  }

  lemma ThreeBits(x: nat, r: nat)
    requires x < 32 && r < 8
    ensures (8 * x + r) % 0x100 / 8 == x
    ensures (8 * x + r) % 0x100 % 8 == r
  {
  }

  /** The byte is (k << 3) | e: its three low bits are those of e, and the others are those of k with the lowest one
      set if the fourth bit of e is. */
  lemma CombineIsOr(k: nat, e: nat)
    requires k < 32 && e < 16
    ensures Combine(k, e) % 8 == e % 8
    ensures Combine(k, e) / 8 / 2 == k / 2
    ensures HasBit(Combine(k, e) / 8, 1) <==> HasBit(k, 1) || HasBit(e, 8)
  {
    var x := if HasBit(e, 8) && !HasBit(k, 1) then k + 1 else k;
    ThreeBits(x, e % 8);
    assert Combine(k, e) == (8 * x + e % 8) % 0x100;
  }

  /** quantize_group_size */
  method QuantizeGroupSize(groupSize: nat) returns (q: nat)
    requires groupSize < 0x1_0000_0000
    ensures q == Quantize(groupSize)
  {
    var m := groupSize as real;
    var e := 0;
    while m >= 10.0
      invariant m >= 0.0 && Mantissa(m) == Mantissa(groupSize as real)
      invariant Exponent(groupSize as real) == e + Exponent(m)
      decreases m.Floor
    {
      m := m / 10.0;
      e := e + 1;
    }
    var k := Units(m);
    if 8 * k > 0xFF {
      m := m / 10.0;
      e := e + 1;
      k := Units(m);
    }
    q := Combine(k, e);
  }

  /** dequantize_group_size */
  method DequantizeGroupSize(q: nat) returns (g: int)
    requires q < 0x100
    ensures g == Dequantize(q)
  {
    var value := (q / 8) as real * (10.0 / 32.0);
    for i := 0 to q % 8
      invariant value == Value(q / 8, Power10(i))
    {
      value := value * 10.0;
    }
    g := Rounded(value);
  }

  lemma Product(a: real, b: real)
    requires a >= 0.0 && b >= 0.0
    ensures a * b >= 0.0
  {
  }

  lemma TenTimes(m: real, p: real, x: real)
    requires m * p == x / 10.0
    ensures m * (10.0 * p) == x
  {
    assert m * (10.0 * p) == 10.0 * (m * p);
  }

  /** Scientific notation: mantissa times power of ten is the number. */
  lemma {:induction false} MantissaTimesPower(x: real)
    requires x >= 0.0
    ensures Mantissa(x) * Power10(Exponent(x)) == x
    decreases x.Floor
  {
    if x >= 10.0 {
      MantissaTimesPower(x / 10.0);
      TenTimes(Mantissa(x / 10.0), Power10(Exponent(x / 10.0)), x);
    }
  }

  lemma {:induction false} PowerGrows(d: nat, e: nat)
    requires d <= e
    ensures Power10(d) <= Power10(e)
  {
    if d < e {
      PowerGrows(d, e - 1);
    }
  }

  lemma MantissaBounds(x: real)
    requires x >= 1.0
    ensures Power10(Exponent(x)) <= x < 10.0 * Power10(Exponent(x))
  {
    MantissaTimesPower(x);
    var m, p := Mantissa(x), Power10(Exponent(x));
    Product(m - 1.0, p);
    Product(10.0 - m, p);
  }

  /** The exponent that is encoded, carry included. */
  function EncodedExponent(g: nat): nat {
    if Units(Mantissa(g as real)) <= 31 then Exponent(g as real) else Exponent(g as real) + 1
  }

  lemma Powers()
    ensures Power10(7) == 10000000.0 && Power10(8) == 100000000.0
    ensures Power10(9) == 1000000000.0 && Power10(10) == 10000000000.0
  {
    assert Power10(1) == 10.0 && Power10(2) == 100.0 && Power10(3) == 1000.0 && Power10(4) == 10000.0;
    assert Power10(5) == 100000.0 && Power10(6) == 1000000.0;
  }

  /** The exponent fits its three bits if and only if the size is below 98437500. */
  lemma ExponentFitsIff(g: nat)
    requires g < 0x1_0000_0000
    ensures EncodedExponent(g) <= 7 <==> g < 98437500
    ensures EncodedExponent(g) <= 9
  {
    Powers();
    var e := Exponent(g as real);
    MantissaTimesPower(g as real);
    if g > 0 {
      MantissaBounds(g as real);
    }
    if e >= 8 {
      PowerGrows(8, e);
      if e >= 10 {
        PowerGrows(10, e);
      }
    } else if e <= 6 {
      PowerGrows(e, 6);
    }
  }

  /** A decoded size that is within 16 per cent and a half of the size that was encoded. */
  predicate Close(decoded: int, g: nat) {
    -0.16 * g as real - 0.5 <= decoded as real - g as real <= 0.16 * g as real + 0.5
  }

  lemma RoundedIsClose(x: real, g: nat)
    requires -0.16 * g as real <= x - g as real <= 0.16 * g as real
    ensures Close(Rounded(x), g)
  {
  }

  /** Rounding the mantissa m of g = m * p to units is off by at most half a unit. */
  lemma Scaled(m: real, p: real, g: nat)
    requires 0.0 <= m && p >= 1.0 && m * p == g as real && (p <= g as real || m == 0.0)
    ensures Close(Rounded(Value(Units(m), p)), g)
  {
    if m == 0.0 {
      assert Units(m) == 0;
    } else {
      var d := Units(m) as real * (10.0 / 32.0) - m;
      assert -0.15625 <= d <= 0.15625;
      assert d * p == Value(Units(m), p) - m * p;
      Product(d + 0.15625, p);
      Product(0.15625 - d, p);
      assert (d + 0.15625) * p == d * p + 0.15625 * p && (0.15625 - d) * p == 0.15625 * p - d * p;
      RoundedIsClose(Value(Units(m), p), g);
    }
  }

  /** A mantissa that would take six bits is just below ten: a tenth of it rounds to three units. */
  lemma NearTen(m: real, p: real, g: nat)
    requires 9.84375 <= m < 10.0 && p >= 1.0 && m * p == g as real
    ensures Units(m / 10.0) == 3
    ensures Close(Rounded(Value(3, 10.0 * p)), g)
  {
    Product(m - 9.84375, p);
    Product(10.0 - m, p);
    assert 9.84375 * p <= g as real <= 10.0 * p;
    assert Value(3, 10.0 * p) == 9.375 * p;
    RoundedIsClose(9.375 * p, g);
  }

  /** A byte holds five bits and three. */
  lemma Parts(k: nat, e: nat)
    requires k <= 31 && e <= 7
    ensures Combine(k, e) / 8 == k && Combine(k, e) % 8 == e
  {
    FiveAndThree(k, e);
  }

  /** The byte before carrying. */
  lemma PlainError(g: nat)
    requires Units(Mantissa(g as real)) <= 31 && Exponent(g as real) <= 7
    ensures Close(Dequantize(Quantize(g)), g)
  {
    var x := g as real;
    MantissaTimesPower(x);
    if g > 0 {
      MantissaBounds(x);
    }
    Scaled(Mantissa(x), Power10(Exponent(x)), g);
    Parts(Units(Mantissa(x)), Exponent(x));
  }

  /** The byte after carrying. */
  lemma CarryError(g: nat)
    requires Units(Mantissa(g as real)) > 31 && Exponent(g as real) <= 6
    ensures Close(Dequantize(Quantize(g)), g)
  {
    var x := g as real;
    MantissaTimesPower(x);
    NearTen(Mantissa(x), Power10(Exponent(x)), g);
    Parts(3, Exponent(x) + 1);
  }

  /** An exponent of eight or nine loses its fourth bit. */
  lemma CutOff(k: nat, e: nat)
    requires k <= 31 && 8 <= e <= 9
    ensures Combine(k, e) / 8 <= 31 && Combine(k, e) % 8 <= 1
  {
    var odd := if k % 2 == 0 then k + 1 else k;
    assert odd <= 31;
    FiveAndThree(odd, e - 8);
  }

  lemma FiveAndThree(k: nat, e: nat)
    requires k <= 31 && e <= 7
    ensures (8 * k + e) % 0x100 == 8 * k + e
    ensures (8 * k + e) / 8 == k && (8 * k + e) % 8 == e
  {
  }

  lemma SmallCode(q: nat)
    requires q / 8 <= 31 && q % 8 <= 1
    ensures Dequantize(q) < 100
  {
    assert Power10(1) == 10.0 && Power10(0) == 1.0;
  }

  /** Past the limit the exponent is cut off, and what comes back is below a hundred. */
  lemma CutOffIsSmall(g: nat)
    requires g < 0x1_0000_0000 && g >= 98437500
    ensures Dequantize(Quantize(g)) < 100
  {
    ExponentFitsIff(g);
    var m := Mantissa(g as real);
    var k := if Units(m) <= 31 then Units(m) else Units(m / 10.0);
    CutOff(k, EncodedExponent(g));
    SmallCode(Quantize(g));
  }

  /** A group size comes back within 16 per cent and a half if and only if it is below 98437500. */
  lemma ErrorBoundIff(g: nat)
    requires g < 0x1_0000_0000
    ensures g < 98437500 <==> Close(Dequantize(Quantize(g)), g)
  {
    ExponentFitsIff(g);
    if g >= 98437500 {
      CutOffIsSmall(g);
    } else if Units(Mantissa(g as real)) <= 31 {
      PlainError(g);
    } else {
      CarryError(g);
    }
  }
}
