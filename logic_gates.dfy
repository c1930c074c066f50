/**
 * Gates and adders on bits (logic-gates.mjs). The gates are table
 * lookups on 0 and 1; the adders work on little-endian bit arrays, the
 * bit worth 1 first.
 */
module LogicGates {
  import opened ConvertBases

  // ---------------------------------------------------------------------
  // Gates
  // ---------------------------------------------------------------------

  /** `not`: the table [1, 0] indexed by n. */
  function Not(n: Bit): (r: Bit)
    ensures r == 1 <==> n == 0
  {
    var table: seq<Bit> := [1, 0];
    table[n]
  }

  /** `and`: row a, column b of the table [[0, 0], [0, 1]]. */
  function And(a: Bit, b: Bit): (r: Bit)
    ensures r == 1 <==> a == 1 && b == 1
  {
    var table: seq<seq<Bit>> := [[0, 0], [0, 1]];
    table[a][b]
  }

  /** `or`: row a, column b of the table [[0, 1], [1, 1]]. */
  function Or(a: Bit, b: Bit): (r: Bit)
    ensures r == 1 <==> a == 1 || b == 1
  {
    var table: seq<seq<Bit>> := [[0, 1], [1, 1]];
    table[a][b]
  }

  function Nand(a: Bit, b: Bit): Bit
  {
    Not(And(a, b))
  }

  function Nor(a: Bit, b: Bit): Bit
  {
    Not(Or(a, b))
  }

  /** `xor` built as `and(or(a, b), nand(a, b))`. */
  function Xor(a: Bit, b: Bit): Bit
  {
    And(Or(a, b), Nand(a, b))
  }

  /** `xnor` built as `or(and(a, b), nor(a, b))`. */
  function Xnor(a: Bit, b: Bit): Bit
  {
    Or(And(a, b), Nor(a, b))
  }

  /** The composite gates compute their truth tables: NAND and NOR are 0
      exactly where AND and OR are 1, XOR is 1 exactly for different
      inputs and XNOR exactly for equal ones. */
  lemma CompositeGates(a: Bit, b: Bit)
    ensures Nand(a, b) == 1 - And(a, b) && Nor(a, b) == 1 - Or(a, b)
    ensures Xor(a, b) == 1 <==> a != b
    ensures Xnor(a, b) == 1 <==> a == b
    ensures Xnor(a, b) == 1 - Xor(a, b)
  {
  }

  // ---------------------------------------------------------------------
  // Adders on single bits
  // ---------------------------------------------------------------------

  /** `halfAdder(a, b)`: the sum bit and the carry. */
  function HalfAdder(a: Bit, b: Bit): (r: (Bit, Bit))
    ensures a + b == r.0 + 2 * r.1
  {
    (Xor(a, b), And(a, b))
  }

  /** `fullAdder(a, b, c)`: two half adders and an OR of their carries. */
  function FullAdder(a: Bit, b: Bit, c: Bit): (r: (Bit, Bit))
    ensures a + b + c == r.0 + 2 * r.1
  {
    var (s1, c1) := HalfAdder(a, b);
    var (s2, c2) := HalfAdder(s1, c);
    (s2, Or(c1, c2))
  }

  // ---------------------------------------------------------------------
  // Bit arrays
  // ---------------------------------------------------------------------

  /** The number a little-endian bit array stands for. */
  function Value(bits: seq<Bit>): nat
  {
    if bits == [] then 0
    else Value(bits[..|bits| - 1]) + bits[|bits| - 1] * Pow(2, |bits| - 1)
  }

  /** `a[i] ?? 0`: bit i, or 0 past the end. */
  function At(a: seq<Bit>, i: nat): Bit
  {
    if i < |a| then a[i] else 0
  }

  /** The value of the first n bits of `a`, reading 0 past its end. */
  function Low(a: seq<Bit>, n: nat): nat
  {
    if n == 0 then 0 else Low(a, n - 1) + At(a, n - 1) * Pow(2, n - 1)
  }

  /** The array `rippleCarryAdder` holds after n rounds of its loop: the
      sums of the first n bit pairs and, last, the carry out of them. */
  function Ripple(a: seq<Bit>, b: seq<Bit>, n: nat): (sum: seq<Bit>)
    ensures |sum| == n + 1
  {
    if n == 0 then [0]
    else
      var p := Ripple(a, b, n - 1);
      var (s, c) := FullAdder(At(a, n - 1), At(b, n - 1), p[n - 1]);
      p[..n - 1] + [s, c]
  }

  /** What `rippleCarryAdder(a, b)` returns. */
  function RippleSum(a: seq<Bit>, b: seq<Bit>): seq<Bit>
  {
    Ripple(a, b, if |a| >= |b| then |a| else |b|)
  }

  /** `rippleCarryAdder(a, b)`: one full adder per position, each fed the
      carry the previous one left in `sum`. */
  method RippleCarryAdder(a: seq<Bit>, b: seq<Bit>) returns (sum: seq<Bit>)
    ensures sum == RippleSum(a, b)
    ensures |sum| == (if |a| >= |b| then |a| else |b|) + 1
    ensures Value(sum) == Value(a) + Value(b)
  {
    var length := if |a| >= |b| then |a| else |b|;
    sum := [0];
    for i := 0 to length
      invariant sum == Ripple(a, b, i)
    {
      var (s, c) := FullAdder(At(a, i), At(b, i), sum[i]);
      sum := sum[..i] + [s, c];
    }
    RippleCarryAdderValue(a, b);
  }

  /** `onesComplement`: every bit flipped. */
  function OnesComplement(bits: seq<Bit>): (r: seq<Bit>)
    ensures |r| == |bits|
    ensures forall i :: 0 <= i < |bits| ==> r[i] == 1 - bits[i]
  {
    seq(|bits|, i requires 0 <= i < |bits| => if bits[i] == 1 then 0 else 1)
  }

  /** `twosComplement`: one added to the ones' complement, cut back to
      the input's length. */
  function TwosComplement(bits: seq<Bit>): seq<Bit>
  {
    RippleSum(OnesComplement(bits), [1])[..|bits|]
  }

  // ---------------------------------------------------------------------
  // Properties
  // ---------------------------------------------------------------------

  /** After n rounds the array is worth the first n bits of each input. */
  lemma {:induction false} RippleValue(a: seq<Bit>, b: seq<Bit>, n: nat)
    ensures Value(Ripple(a, b, n)) == Low(a, n) + Low(b, n)
  {
    if n > 0 {
      var k := n - 1;
      var p := Ripple(a, b, k);
      var (s, c) := FullAdder(At(a, k), At(b, k), p[k]);
      assert Ripple(a, b, n) == p[..k] + [s, c];
      RippleValue(a, b, k);
      ValueSplit(p, s, c, k);
      RippleStep(Value(p[..k]), Low(a, k), Low(b, k), At(a, k), At(b, k), p[k], s, c, Pow(2, k), Pow(2, k + 1));
    }
  }

  /** The worth of the array before and after a round replaces its top bit
      `p[k]` with the sum bit `s` and the carry `c`. */
  lemma ValueSplit(p: seq<Bit>, s: Bit, c: Bit, k: nat)
    requires |p| == k + 1
    ensures Value(p) == Value(p[..k]) + p[k] * Pow(2, k)
    ensures Value(p[..k] + [s, c]) == Value(p[..k]) + s * Pow(2, k) + c * Pow(2, k + 1)
  {
    var q := p[..k] + [s, c];
    assert q[..|q| - 1] == p[..k] + [s];
    assert (p[..k] + [s])[..k] == p[..k];
  }

  /** One round of the adder keeps the array worth the bits added so far. */
  lemma RippleStep(low: int, la: int, lb: int, ak: int, bk: int, pk: int, s: int, c: int, w: int, w2: int)
    requires low + pk * w == la + lb
    requires ak + bk + pk == s + 2 * c
    requires w2 == 2 * w
    ensures low + s * w + c * w2 == (la + ak * w) + (lb + bk * w)
  {
    assert (ak + bk + pk) * w == (s + 2 * c) * w;
    assert (ak + bk + pk) * w == ak * w + bk * w + pk * w;
    assert (s + 2 * c) * w == s * w + c * w2;
  }


  /** Past its end an array reads as zeros, so its first n >= |a| bits are
      worth all of it. */
  lemma {:induction false} LowAll(a: seq<Bit>, n: nat)
    requires n >= |a|
    ensures Low(a, n) == Value(a)
  {
    if n > |a| {
      LowAll(a, n - 1);
    } else if n > 0 {
      LowPrefix(a, n);
      assert a[..n] == a;
    }
  }

  /** Within the array, the first n bits are worth its prefix of length n. */
  lemma {:induction false} LowPrefix(a: seq<Bit>, n: nat)
    requires n <= |a|
    ensures Low(a, n) == Value(a[..n])
  {
    if n > 0 {
      LowPrefix(a, n - 1);
      assert a[..n][..n - 1] == a[..n - 1];
    }
  }

  /** A little-endian array of n bits is worth less than 2^n. */
  lemma {:induction false} ValueBound(bits: seq<Bit>)
    ensures Value(bits) < Pow(2, |bits|)
  {
    if bits != [] {
      var k := |bits| - 1;
      ValueBound(bits[..k]);
      MulMonotone(bits[k], 1, Pow(2, k));
    }
  }

  /** The ones' complement of n bits is worth 2^n - 1 minus the input. */
  lemma {:induction false} OnesComplementValue(bits: seq<Bit>)
    ensures Value(OnesComplement(bits)) + Value(bits) == Pow(2, |bits|) - 1
  {
    if bits != [] {
      var k := |bits| - 1;
      var r := OnesComplement(bits);
      assert r[..k] == OnesComplement(bits[..k]);
      OnesComplementValue(bits[..k]);
      assert Pow(2, k + 1) == 2 * Pow(2, k);
      assert (r[k] + bits[k]) * Pow(2, k) == r[k] * Pow(2, k) + bits[k] * Pow(2, k);
    }
  }

  /** The first n bits of an (n+1)-bit array drop only its top bit. */
  lemma LowBits(x: seq<Bit>, n: nat)
    requires |x| == n + 1
    ensures Value(x[..n]) == Value(x) - x[n] * Pow(2, n)
  {
    assert x[..|x| - 1] == x[..n];
  }

  /** `rippleCarryAdder` gives one bit more than the longer input, worth
      the sum of the inputs. */
  lemma RippleCarryAdderValue(a: seq<Bit>, b: seq<Bit>)
    ensures |RippleSum(a, b)| == (if |a| >= |b| then |a| else |b|) + 1
    ensures Value(RippleSum(a, b)) == Value(a) + Value(b)
  {
    var length := if |a| >= |b| then |a| else |b|;
    RippleValue(a, b, length);
    LowAll(a, length);
    LowAll(b, length);
  }

  /** `twosComplement` keeps the length, and its value is (2^n - v) mod
      2^n for an input worth v: 0 for 0, 2^n - v otherwise, which is the
      negation of the input in n-bit arithmetic. */
  lemma TwosComplementValue(bits: seq<Bit>)
    ensures |TwosComplement(bits)| == |bits|
    ensures Value(bits) == 0 ==> Value(TwosComplement(bits)) == 0
    ensures Value(bits) > 0 ==> Value(TwosComplement(bits)) == Pow(2, |bits|) - Value(bits)
  {
    var n := |bits|;
    var ones := OnesComplement(bits);
    RippleCarryAdderValue(ones, [1]);
    OnesComplementValue(bits);
    assert Value([1]) == 1 by {
      assert [1][..0] == [];
    }
    var x := RippleSum(ones, [1]);
    if n == 0 {
      assert TwosComplement(bits) == [];
    } else {
      assert |x| == n + 1;
      LowBits(x, n);
      ValueBound(x[..n]);
      ValueBound(bits);
      TopBit(Value(x[..n]), x[n], Pow(2, n), Value(bits));
    }
  }

  /** The low n bits of 2^n - v, for 0 <= v < 2^n, with top bit `top`. */
  lemma TopBit(low: nat, top: Bit, m: nat, v: nat)
    requires low < m && v < m && low + top * m == m - v
    ensures v == 0 ==> low == 0
    ensures v > 0 ==> low == m - v
  {
    if top == 0 {
      assert top * m == 0;
    } else {
      assert top * m == m;
    }
  }

  /** Two's complement undoes itself. */
  lemma TwosComplementInvolution(bits: seq<Bit>)
    ensures Value(TwosComplement(TwosComplement(bits))) == Value(bits)
  {
    TwosComplementValue(bits);
    TwosComplementValue(TwosComplement(bits));
    ValueBound(bits);
  }
}
