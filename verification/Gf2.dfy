/**
 Polynomials over the two-element field as bit strings, most significant coefficient first:
 s[0] is the coefficient of x^(|s|-1). Addition is Xor, and appending false multiplies by x.
 This is the reference algebra the packet checksum is proved against.
 */
module Gf2 {

  type Bits = seq<bool>

  function Zeros(n: nat): (r: Bits)
    ensures |r| == n && forall i :: 0 <= i < n ==> !r[i]
  {
    seq(n, _ => false)
  }

  function Xor(a: Bits, b: Bits): (r: Bits)
    requires |a| == |b|
    ensures |r| == |a| && forall i :: 0 <= i < |a| ==> r[i] == (a[i] != b[i])
  {
    seq(|a|, i requires 0 <= i < |a| => a[i] != b[i])
  }

  /** g if the coefficient b is one, the zero polynomial of the same width otherwise. */
  function Scale(b: bool, g: Bits): (r: Bits)
    ensures |r| == |g| && forall i :: 0 <= i < |g| ==> r[i] == (b && g[i])
  {
    if b then g else Zeros(|g|)
  }

  /** Schoolbook product of q and g. */
  function Mul(q: Bits, g: Bits): (r: Bits)
    requires g != []
    ensures |r| == |q| + |g| - 1
  {
    if q == [] then Zeros(|g| - 1)
    else Xor(Scale(q[0], g) + Zeros(|q| - 1), [false] + Mul(q[1..], g))
  }

  /** A divisor with leading coefficient one. */
  predicate Monic(g: Bits) {
    g != [] && g[0]
  }

  /** One step of long division: cancel the leading coefficient of p. */
  function Reduce(p: Bits, g: Bits): (r: Bits)
    requires Monic(g) && |p| >= |g|
    ensures |r| == |p| - 1
    ensures forall i :: 0 <= i < |r| ==> r[i] == (p[i + 1] != (p[0] && i + 1 < |g| && g[i + 1]))
  {
    Xor(p, Scale(p[0], g) + Zeros(|p| - |g|))[1..]
  }

  /** Quotient and remainder of the long division of p by g. */
  function Quot(p: Bits, g: Bits): (q: Bits)
    requires Monic(g) && |p| >= |g| - 1
    ensures |q| == |p| - (|g| - 1)
    decreases |p|
  {
    if |p| == |g| - 1 then [] else [p[0]] + Quot(Reduce(p, g), g)
  }

  function Rem(p: Bits, g: Bits): (r: Bits)
    requires Monic(g) && |p| >= |g| - 1
    ensures |r| == |g| - 1
    decreases |p|
  {
    if |p| == |g| - 1 then p else Rem(Reduce(p, g), g)
  }

  /** Long division is division: p is quotient times g plus remainder. */
  lemma {:induction false} DivisionTheorem(p: Bits, g: Bits)
    requires Monic(g) && |p| >= |g| - 1
    ensures p == Xor(Mul(Quot(p, g), g), Zeros(|p| - |g| + 1) + Rem(p, g))
    decreases |p|
  {
    if |p| != |g| - 1 {
      var n := |p| - |g|;
      var p', r := Reduce(p, g), Rem(p, g);
      var q' := Quot(p', g);
      var m := Mul(q', g);
      DivisionTheorem(p', g);
      UndoReduce(p, g, m, Zeros(n) + r);
      assert Mul(Quot(p, g), g) == Xor(Scale(p[0], g) + Zeros(n), [false] + m) by { MulStep(p[0], q', g); }
      ZerosStep(n, r);
    }
  }

  lemma MulStep(b: bool, q: Bits, g: Bits)
    requires g != []
    ensures Mul([b] + q, g) == Xor(Scale(b, g) + Zeros(|q|), [false] + Mul(q, g))
  {
    assert ([b] + q)[1..] == q;
  }

  lemma ZerosStep(n: nat, r: Bits)
    ensures Zeros(n + 1) + r == [false] + (Zeros(n) + r)
  {
  }

  lemma UndoReduce(p: Bits, g: Bits, m: Bits, r: Bits)
    requires Monic(g) && |p| >= |g|
    requires |m| == |r| == |p| - 1 && Reduce(p, g) == Xor(m, r)
    ensures p == Xor(Xor(Scale(p[0], g) + Zeros(|p| - |g|), [false] + m), [false] + r)
  {
    var s := Xor(Xor(Scale(p[0], g) + Zeros(|p| - |g|), [false] + m), [false] + r);
    forall i | 0 <= i < |p| ensures p[i] == s[i] {
      if i > 0 { assert Reduce(p, g)[i - 1] == (m[i - 1] != r[i - 1]); }
    }
  }

  lemma {:induction false} RemXor(a: Bits, b: Bits, g: Bits)
    requires Monic(g) && |a| == |b| >= |g| - 1
    ensures Rem(Xor(a, b), g) == Xor(Rem(a, g), Rem(b, g))
    decreases |a|
  {
    if |a| != |g| - 1 {
      RemXor(Reduce(a, g), Reduce(b, g), g);
      assert Reduce(Xor(a, b), g) == Xor(Reduce(a, g), Reduce(b, g));
    }
  }

  lemma {:induction false} RemLeadingZeros(n: nat, p: Bits, g: Bits)
    requires Monic(g) && |p| >= |g| - 1
    ensures Rem(Zeros(n) + p, g) == Rem(p, g)
  {
    if n == 0 {
      assert Zeros(0) + p == p;
    } else {
      RemLeadingZeros(n - 1, p, g);
      assert Reduce(Zeros(n) + p, g) == Zeros(n - 1) + p;
    }
  }

  lemma {:induction false} RemMul(q: Bits, g: Bits)
    requires Monic(g)
    ensures Rem(Mul(q, g), g) == Zeros(|g| - 1)
  {
    if q != [] {
      RemMul(q[1..], g);
      assert Reduce(Mul(q, g), g) == Mul(q[1..], g);
    }
  }

  /** The remainder is the only polynomial of degree below deg(g) that differs from p by a multiple of g. */
  lemma {:induction false} RemainderUnique(p: Bits, q: Bits, r: Bits, g: Bits)
    requires Monic(g) && |r| == |g| - 1 && |p| == |q| + |g| - 1
    requires p == Xor(Mul(q, g), Zeros(|q|) + r)
    ensures r == Rem(p, g)
  {
    RemXor(Mul(q, g), Zeros(|q|) + r, g);
    RemMul(q, g);
    RemLeadingZeros(|q|, r, g);
    assert Xor(Zeros(|g| - 1), r) == r;
  }

  /** Division may be interrupted: what has been reduced so far can stand in for the prefix. */
  lemma {:induction false} RemPrefix(p: Bits, s: Bits, g: Bits)
    requires Monic(g) && |p| >= |g| - 1
    ensures Rem(p + s, g) == Rem(Rem(p, g) + s, g)
    decreases |p|
  {
    if |p| != |g| - 1 {
      assert Reduce(p + s, g) == Reduce(p, g) + s by { ReducePrefix(p, s, g); }
      RemPrefix(Reduce(p, g), s, g);
    }
  }

  lemma ReducePrefix(p: Bits, s: Bits, g: Bits)
    requires Monic(g) && |p| >= |g|
    ensures Reduce(p + s, g) == Reduce(p, g) + s
  {
  }

  lemma TimesX(r: Bits, g: Bits)
    requires Monic(g) && |r| == |g| - 1 > 0
    ensures Reduce(r + [false], g) == if r[0] then Xor(r[1..] + [false], g[1..]) else r[1..] + [false]
  {
  }

  /** Multiplication by x is injective modulo a g with a constant term. */
  lemma TimesXNonzero(r: Bits, g: Bits)
    requires Monic(g) && |g| >= 2 && g[|g| - 1]
    requires |r| == |g| - 1 && r != Zeros(|r|)
    ensures Reduce(r + [false], g) != Zeros(|r|)
  {
    var r' := Reduce(r + [false], g);
    if r[0] {
      assert r'[|g| - 2];
    } else {
      var j :| 0 <= j < |r| && r[j];
      assert r'[j - 1];
    }
  }

  lemma {:induction false} TimesPowerOfXNonzero(r: Bits, k: nat, g: Bits)
    requires Monic(g) && |g| >= 2 && g[|g| - 1]
    requires |r| == |g| - 1 && r != Zeros(|r|)
    ensures Rem(r + Zeros(k), g) != Zeros(|r|)
    decreases k
  {
    if k == 0 {
      assert r + Zeros(0) == r;
    } else {
      var r' := Reduce(r + [false], g);
      TimesXNonzero(r, g);
      TimesPowerOfXNonzero(r', k - 1, g);
      assert r + Zeros(k) == (r + [false]) + Zeros(k - 1);
      RemPrefix(r + [false], Zeros(k - 1), g);
      assert Rem(r + [false], g) == Rem(r', g) == r';
    }
  }

  lemma {:induction false} RemZeros(p: Bits, g: Bits)
    requires Monic(g) && |p| >= |g| - 1 && p == Zeros(|p|)
    ensures Rem(p, g) == Zeros(|g| - 1)
    decreases |p|
  {
    if |p| != |g| - 1 {
      assert Reduce(p, g) == Zeros(|p| - 1);
      RemZeros(Reduce(p, g), g);
    }
  }

  lemma XorZero(a: Bits, b: Bits)
    requires |a| == |b| && Xor(a, b) == Zeros(|a|)
    ensures a == b
  {
    forall i | 0 <= i < |a| ensures a[i] == b[i] {
      assert !Xor(a, b)[i];
    }
  }

  /** A polynomial whose terms all lie in a window is that window times a power of x. */
  lemma Isolate(e: Bits, from: nat, width: nat)
    requires from + width <= |e|
    requires forall i :: 0 <= i < |e| && e[i] ==> from <= i < from + width
    ensures e == Zeros(from) + (e[from..from + width] + Zeros(|e| - from - width))
  {
  }
}
