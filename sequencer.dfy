/** The pixel-index sequencer of the dissolve: the multiplicative generator
    k := (k * m) mod p of US patent 5,771,033 (claims 3 and 4), with the prime
    p = 2^16 + 1 and the multiplier m = 2^15 - 1.

    The main results are that a step keeps k in [1, p-1] (the ensures of Step,
    via the explicit inverse MInv), and that the orbit of every k has length exactly
    p - 1 = 2^16: the first p - 1 states are pairwise distinct (OrbitInjective)
    and every value of [1, p-1] occurs among them (OrbitSurjective). */
module Sequencer {

  /** The prime modulus p = 2^16 + 1. */
  const P: int := 65537
  /** The multiplier m = 2^15 - 1. */
  const M: int := 32767
  /** The inverse of M modulo P: M * MInv == 10922 * P + 1. */
  const MInv: int := 21845
  /** p - 1 = 2^16, the length of the full cycle. */
  const Period: int := 65536
  /** Half the cycle, 2^15: after that many steps k has become p - k. */
  const HalfPeriod: int := 32768

  /** The nonzero residues modulo P, where the state k always lives. */
  predicate InGroup(k: int)
  {
    1 <= k <= P - 1
  }

  // ---------------------------------------------------------------------
  // Modular arithmetic modulo P

  lemma ModUnique(n: int, q: int, r: int)
    requires n == q * P + r && 0 <= r < P
    ensures n % P == r
  {
    var q', r' := n / P, n % P;
    assert (q - q') * P == r' - r;
  }

  lemma ModAddMultiple(x: int, y: int)
    ensures (x * P + y) % P == y % P
  {
    var q, r := y / P, y % P;
    assert x * P + y == (x + q) * P + r;
    ModUnique(x * P + y, x + q, r);
  }

  lemma ModMulLeft(a: int, b: int)
    ensures (a % P) * b % P == a * b % P
  {
    var q, r := a / P, a % P;
    assert a * b == (q * b) * P + r * b;
    ModAddMultiple(q * b, r * b);
  }

  lemma ModMulRight(a: int, b: int)
    ensures a * (b % P) % P == a * b % P
  {
    ModMulLeft(b, a);
    assert a * (b % P) == (b % P) * a;
    assert a * b == b * a;
  }

  // ---------------------------------------------------------------------
  // One step of the generator and its inverse

  /** One step of the generator, k := (k * m) mod p. The result is never 0:
      it stays a nonzero residue, because M is invertible modulo P. */
  function Step(k: int): (r: int)
    requires InGroup(k)
    ensures InGroup(r)
  {
    var r := k * M % P;
    UnstepStep(k);
    r
  }

  /** Multiplication by the inverse of M, undoing one step. */
  function Unstep(k: int): int
  {
    k * MInv % P
  }

  lemma UnstepStep(k: int)
    requires InGroup(k)
    ensures Unstep(k * M % P) == k
  {
    calc {
      Unstep(k * M % P);
    ==
      (k * M % P) * MInv % P;
    ==  { ModMulLeft(k * M, MInv); }
      k * M * MInv % P;
    ==  { assert k * M * MInv == (k * 10922) * P + k; ModAddMultiple(k * 10922, k); }
      k % P;
    ==
      k;
    }
  }

  /** Two states that step to the same state are equal. */
  lemma StepInjective(a: int, b: int)
    requires InGroup(a) && InGroup(b) && Step(a) == Step(b)
    ensures a == b
  {
    UnstepStep(a);
    UnstepStep(b);
  }

  // ---------------------------------------------------------------------
  // Iterated steps

  /** The state after n steps from k. */
  function Iter(k: int, n: nat): (r: int)
    requires InGroup(k)
    ensures InGroup(r)
    decreases n
  {
    if n == 0 then k else Iter(Step(k), n - 1)
  }

  lemma {:induction false} IterAdd(k: int, a: nat, b: nat)
    requires InGroup(k)
    ensures Iter(k, a + b) == Iter(Iter(k, a), b)
    decreases a
  {
    if a > 0 {
      IterAdd(Step(k), a - 1, b);
    }
  }

  lemma IterSucc(k: int, n: nat)
    requires InGroup(k)
    ensures Iter(k, n + 1) == Step(Iter(k, n))
  {
    IterAdd(k, n, 1);
  }

  function Pow2(s: nat): (r: nat)
    ensures r >= 1
  {
    if s == 0 then 1 else 2 * Pow2(s - 1)
  }

  lemma Pow2Values()
    ensures Pow2(15) == HalfPeriod && Pow2(16) == Period
  {
    assert Pow2(1) == 2;
    assert Pow2(2) == 4;
    assert Pow2(3) == 8;
    assert Pow2(4) == 16;
    assert Pow2(5) == 32;
    assert Pow2(6) == 64;
    assert Pow2(7) == 128;
    assert Pow2(8) == 256;
    assert Pow2(9) == 512;
    assert Pow2(10) == 1024;
    assert Pow2(11) == 2048;
    assert Pow2(12) == 4096;
    assert Pow2(13) == 8192;
    assert Pow2(14) == 16384;
    assert Pow2(15) == 32768;
    assert Pow2(16) == 65536;
  }

  /** m^(2^i) modulo P, by i squarings. */
  function Squarings(i: nat): int
  {
    if i == 0 then M else Squarings(i - 1) * Squarings(i - 1) % P
  }

  /** m^(2^15) == -1 modulo P. */
  lemma SquaringsFifteen()
    ensures Squarings(15) == P - 1
  {
    assert Squarings(1) == 49155;
    assert Squarings(2) == 61446;
    assert Squarings(3) == 24346;
    assert Squarings(4) == 11088;
    assert Squarings(5) == 61869;
    assert Squarings(6) == 19139;
    assert Squarings(7) == 15028;
    assert Squarings(8) == 282;
    assert Squarings(9) == 13987;
    assert Squarings(10) == 8224;
    assert Squarings(11) == 65529;
    assert Squarings(12) == 64;
    assert Squarings(13) == 4096;
    assert Squarings(14) == 65281;
    assert Squarings(15) == 65536;
  }

  /** 2^i steps multiply k by m^(2^i) modulo P. */
  lemma {:induction false} IterPow2(k: int, i: nat)
    requires InGroup(k)
    ensures Iter(k, Pow2(i)) == k * Squarings(i) % P
    decreases i
  {
    if i == 0 {
      assert Iter(k, 1) == Step(k);
    } else {
      var n, g := Pow2(i - 1), Squarings(i - 1);
      calc {
        Iter(k, Pow2(i));
      ==  { assert Pow2(i) == n + n; }
        Iter(k, n + n);
      ==  { IterAdd(k, n, n); }
        Iter(Iter(k, n), n);
      ==  { IterPow2(Iter(k, n), i - 1); }
        Iter(k, n) * g % P;
      ==  { IterPow2(k, i - 1); }
        (k * g % P) * g % P;
      ==  { ModMulLeft(k * g, g); }
        k * g * g % P;
      ==  { assert k * g * g == k * (g * g); }
        k * (g * g) % P;
      ==  { ModMulRight(k, g * g); }
        k * Squarings(i) % P;
      }
    }
  }

  /** Half a cycle after k the state is p - k, which differs from k. */
  lemma HalfCycle(k: int)
    requires InGroup(k)
    ensures Iter(k, HalfPeriod) == P - k
  {
    IterPow2(k, 15);
    Pow2Values();
    SquaringsFifteen();
    assert k * (P - 1) == (k - 1) * P + (P - k);
    ModUnique(k * (P - 1), k - 1, P - k);
  }

  /** A full cycle of p - 1 steps returns to k. */
  lemma FullCycle(k: int)
    requires InGroup(k)
    ensures Iter(k, Period) == k
  {
    IterAdd(k, HalfPeriod, HalfPeriod);
    HalfCycle(k);
    HalfCycle(P - k);
  }

  // ---------------------------------------------------------------------
  // The orbit has length exactly p - 1

  lemma {:induction false} Pow2Add(a: nat, b: nat)
    ensures Pow2(a) * Pow2(b) == Pow2(a + b)
    decreases a
  {
    if a > 0 {
      Pow2Add(a - 1, b);
    }
  }

  lemma {:induction false} Pow2Sixteen(s: nat)
    requires s >= 16
    ensures Pow2(s) >= Period
    decreases s
  {
    if s > 16 {
      Pow2Sixteen(s - 1);
    } else {
      Pow2Values();
    }
  }

  /** Every positive e is 2^s times an odd number. */
  lemma {:induction false} SplitTwos(e: nat) returns (s: nat, o: nat)
    requires e > 0
    ensures e == Pow2(s) * o && o % 2 == 1
    decreases e
  {
    if e % 2 == 1 {
      s, o := 0, e;
    } else {
      var s', o' := SplitTwos(e / 2);
      s, o := s' + 1, o';
      calc {
        Pow2(s) * o;
      ==
        2 * Pow2(s') * o';
      ==
        2 * (Pow2(s') * o');
      ==
        e;
      }
    }
  }

  /** If e steps return to k, so do c * e steps. */
  lemma {:induction false} IterMultiple(k: int, e: nat, c: nat)
    requires InGroup(k) && Iter(k, e) == k
    ensures Iter(k, c * e) == k
    decreases c
  {
    if c > 0 {
      assert c * e == (c - 1) * e + e;
      IterAdd(k, (c - 1) * e, e);
      IterMultiple(k, e, c - 1);
    }
  }

  lemma MulAssociates(a: int, b: int, c: int)
    ensures a * (b * c) == (a * b) * c
  {
  }

  lemma MulAtLeast(a: nat, o: nat)
    requires o >= 1
    ensures a <= a * o
  {
  }

  /** Every e in (0, 2^16) has a multiple that is an odd multiple of 2^15. */
  lemma OddHalfPeriodMultiple(e: nat) returns (c: nat, o: nat)
    requires 0 < e < Period
    ensures c * e == HalfPeriod * o && o % 2 == 1
  {
    var s;
    s, o := SplitTwos(e);
    var x := Pow2(s);
    MulAtLeast(x, o);
    if s >= 16 {
      Pow2Sixteen(s);
      assert false;
    }
    c := Pow2(15 - s);
    assert c * x == HalfPeriod by {
      Pow2Add(15 - s, s);
      Pow2Values();
    }
    MulAssociates(c, x, o);
  }

  /** An odd multiple of 2^15 steps takes k to p - k. */
  lemma HalfCycleOdd(k: int, o: nat)
    requires InGroup(k) && o % 2 == 1
    ensures Iter(k, HalfPeriod * o) == P - k
  {
    var w := o / 2;
    assert HalfPeriod * o == Period * w + HalfPeriod;
    FullCycle(k);
    IterMultiple(k, Period, w);
    IterAdd(k, Period * w, HalfPeriod);
    HalfCycle(k);
  }

  /** No number of steps strictly between 0 and p - 1 returns to k. */
  lemma NoShortPeriod(k: int, e: nat)
    requires InGroup(k) && 0 < e < Period
    ensures Iter(k, e) != k
  {
    if Iter(k, e) == k {
      var c, o := OddHalfPeriodMultiple(e);
      IterMultiple(k, e, c);
      HalfCycleOdd(k, o);
      assert false;
    }
  }

  /** Equal states after a and b steps mean equal states after 0 and b - a. */
  lemma {:induction false} IterCancel(k: int, a: nat, b: nat)
    requires InGroup(k) && a <= b && Iter(k, a) == Iter(k, b)
    ensures Iter(k, b - a) == k
    decreases a
  {
    if a > 0 {
      IterSucc(k, a - 1);
      IterSucc(k, b - 1);
      StepInjective(Iter(k, a - 1), Iter(k, b - 1));
      IterCancel(k, a - 1, b - 1);
    }
  }

  /** The first p - 1 states of every orbit are pairwise distinct. */
  lemma OrbitInjective(k: int, a: nat, b: nat)
    requires InGroup(k) && a < b < Period
    ensures Iter(k, a) != Iter(k, b)
  {
    if Iter(k, a) == Iter(k, b) {
      IterCancel(k, a, b);
      NoShortPeriod(k, b - a);
    }
  }

  // ---------------------------------------------------------------------
  // Counting: p - 1 distinct values in [1, p-1] are all of [1, p-1]

  /** The states Iter(k, 0), ..., Iter(k, n - 1). */
  ghost function Orbit(k: int, n: nat): set<int>
    requires InGroup(k)
  {
    if n == 0 then {} else Orbit(k, n - 1) + {Iter(k, n - 1)}
  }

  lemma {:induction false} OrbitMember(k: int, n: nat, v: int)
    requires InGroup(k) && v in Orbit(k, n)
    ensures exists t :: 0 <= t < n && Iter(k, t) == v
    decreases n
  {
    if v != Iter(k, n - 1) {
      OrbitMember(k, n - 1, v);
    }
  }

  lemma {:induction false} OrbitInGroup(k: int, n: nat)
    requires InGroup(k)
    ensures forall v :: v in Orbit(k, n) ==> InGroup(v)
    decreases n
  {
    if n > 0 {
      OrbitInGroup(k, n - 1);
    }
  }

  /** The integers lo, ..., hi - 1. */
  ghost function Range(lo: int, hi: int): set<int>
    decreases hi - lo
  {
    if hi <= lo then {} else Range(lo, hi - 1) + {hi - 1}
  }

  lemma {:induction false} RangeSize(lo: int, hi: int)
    requires lo <= hi
    ensures |Range(lo, hi)| == hi - lo
    ensures forall v :: v in Range(lo, hi) <==> lo <= v < hi
    decreases hi - lo
  {
    if lo < hi {
      RangeSize(lo, hi - 1);
    }
  }

  lemma {:induction false} OrbitSize(k: int, n: nat)
    requires InGroup(k) && n <= Period
    ensures |Orbit(k, n)| == n
    decreases n
  {
    if n == 0 {
      assert Orbit(k, n) == {};
    } else {
      if Iter(k, n - 1) in Orbit(k, n - 1) {
        OrbitMember(k, n - 1, Iter(k, n - 1));
        var t :| 0 <= t < n - 1 && Iter(k, t) == Iter(k, n - 1);
        OrbitInjective(k, t, n - 1);
      }
      OrbitSize(k, n - 1);
    }
  }

  /** Every nonzero residue is reached from k in fewer than p - 1 steps. */
  lemma OrbitSurjective(k: int, v: int)
    requires InGroup(k) && InGroup(v)
    ensures exists t :: 0 <= t < Period && Iter(k, t) == v
  {
    OrbitCovers(k, v, Period);
  }

  lemma OrbitCovers(k: int, v: int, n: nat)
    requires InGroup(k) && InGroup(v) && n == Period
    ensures exists t :: 0 <= t < n && Iter(k, t) == v
  {
    var orbit, all := Orbit(k, n), Range(1, n + 1);
    OrbitSize(k, n);
    RangeSize(1, n + 1);
    OrbitInGroup(k, n);
    forall u | u in orbit
      ensures u in all
    {
      assert InGroup(u);
    }
    FillsItsSuperset(orbit, all);
    OrbitMember(k, n, v);
  }

  /** A subset as large as its finite superset is all of it. */
  lemma FillsItsSuperset(a: set<int>, b: set<int>)
    requires a <= b && |a| == |b|
    ensures b <= a
  {
    var rest := b - a;
    assert b == a + rest;
    assert a * rest == {};
    assert |rest| == 0;
  }

  /** The number of steps from k to p - 1: the one t in [0, p-1) with
      Iter(k, t) == p - 1. */
  ghost function StepsToLast(k: int): (t: nat)
    requires InGroup(k)
    ensures t < Period && Iter(k, t) == P - 1
  {
    OrbitSurjective(k, P - 1);
    var t :| 0 <= t < Period && Iter(k, t) == P - 1;
    t
  }

  /** A step that does not start at p - 1 brings k one step closer to it. */
  lemma StepsToLastStep(k: int)
    requires InGroup(k) && k != P - 1
    ensures StepsToLast(Step(k)) == StepsToLast(k) - 1
  {
    var t, u := StepsToLast(k), StepsToLast(Step(k));
    assert t > 0;
    assert Iter(k, u + 1) == P - 1;
    if u + 1 == Period {
      FullCycle(k);
      assert false;
    }
    if u + 1 < t {
      OrbitInjective(k, u + 1, t);
    } else if t < u + 1 {
      OrbitInjective(k, t, u + 1);
    }
  }
}
