/** Bit masks as natural numbers. */
module Bits {
  function Pow2(n: nat): (r: nat)
    ensures r > 0
  {
    if n == 0 then 1 else 2 * Pow2(n - 1)
  }

  function And(a: nat, b: nat): nat {
    if a == 0 || b == 0 then 0 else (if a % 2 == 1 && b % 2 == 1 then 1 else 0) + 2 * And(a / 2, b / 2)
  }

  function Xor(a: nat, b: nat): nat {
    if a == 0 then b else if b == 0 then a else (if a % 2 != b % 2 then 1 else 0) + 2 * Xor(a / 2, b / 2)
  }

  function Bit(m: nat, i: nat): nat
    decreases i
  {
    if i == 0 then m % 2 else Bit(m / 2, i - 1)
  }

  /** The number of trailing zeros. */
  function Lowest(m: nat): nat
    requires m > 0
  {
    if m % 2 == 1 then 0 else 1 + Lowest(m / 2)
  }

  predicate Sub(s: nat, m: nat) { And(s, m) == s }

  lemma SubHalf(s: nat, m: nat)
    ensures Sub(s, m) <==> s % 2 <= m % 2 && Sub(s / 2, m / 2)
  {
  }

  lemma {:induction false} AndSelf(m: nat)
    ensures And(m, m) == m
  {
    if m != 0 { AndSelf(m / 2); }
  }

  /** (s - 1) & m is the next smaller submask of m: a submask itself, and none in between. */
  lemma {:induction false} NextSub(s: nat, m: nat, u: nat)
    requires s > 0 && Sub(s, m)
    ensures var t := And(s - 1, m); t < s && Sub(t, m) && (Sub(u, m) && u < s ==> u <= t)
  {
    SubHalf(s, m);
    SubHalf(u, m);
    if s % 2 == 1 {
      assert (s - 1) / 2 == s / 2;
      assert And(s - 1, m) == 2 * And(s / 2, m / 2) == s - 1;
      SubHalf(s - 1, m);
    } else {
      NextSub(s / 2, m / 2, u / 2);
      var t := And(s / 2 - 1, m / 2);
      assert (s - 1) / 2 == s / 2 - 1 && (s - 1) % 2 == 1;
      assert And(s - 1, m) == m % 2 + 2 * t;
      SubHalf(m % 2 + 2 * t, m);
    }
  }

  /** The largest proper submask of m, where the enumeration starts. */
  lemma FirstSub(m: nat, u: nat)
    requires m > 0
    ensures var t := And(m - 1, m); t < m && Sub(t, m) && (Sub(u, m) && u < m ==> u <= t)
  {
    AndSelf(m);
    NextSub(m, m, u);
  }

  /** Xor with a submask takes its bits away. */
  lemma {:induction false} Complement(s: nat, m: nat)
    requires Sub(s, m)
    ensures s <= m && Xor(m, s) == m - s && Sub(m - s, m) && And(s, m - s) == 0
  {
    if m == 0 || s == 0 {
      AndSelf(m);
    } else {
      SubHalf(s, m);
      Complement(s / 2, m / 2);
      assert (m - s) / 2 == m / 2 - s / 2 && (m - s) % 2 == m % 2 - s % 2;
      SubHalf(m - s, m);
    }
  }

  /** Masks without a common bit: their sum is their union. */
  lemma {:induction false} DisjointSum(a: nat, b: nat, i: nat)
    requires And(a, b) == 0
    ensures Sub(a, a + b) && Bit(a + b, i) == Bit(a, i) + Bit(b, i)
    decreases a + b, i
  {
    if a == 0 {
      BitZero(i);
    } else if b == 0 {
      BitZero(i);
      AndSelf(a);
    } else {
      assert (a + b) / 2 == a / 2 + b / 2 && (a + b) % 2 == a % 2 + b % 2;
      DisjointSum(a / 2, b / 2, if i == 0 then 0 else i - 1);
      SubHalf(a, a + b);
    }
  }

  lemma {:induction false} BitZero(i: nat)
    ensures Bit(0, i) == 0
  {
    if i > 0 { BitZero(i - 1); }
  }

  lemma {:induction false} BitPow2(k: nat, i: nat)
    ensures Bit(Pow2(k), i) == if i == k then 1 else 0
  {
    if k == 0 {
      if i > 0 { BitZero(i - 1); }
    } else if i > 0 {
      BitPow2(k - 1, i - 1);
    }
  }

  /** All bits below n are set in the full mask, and no others. */
  lemma {:induction false} BitFull(n: nat, i: nat)
    ensures Bit(Pow2(n) - 1, i) == if i < n then 1 else 0
  {
    if n == 0 {
      BitZero(i);
    } else {
      assert (Pow2(n) - 1) / 2 == Pow2(n - 1) - 1 && (Pow2(n) - 1) % 2 == 1;
      if i > 0 { BitFull(n - 1, i - 1); }
    }
  }

  /** m & (m - 1) == 0 says that m has one bit only. */
  lemma {:induction false} OneBit(m: nat)
    requires m > 0
    ensures And(m, m - 1) == 0 <==> m == Pow2(Lowest(m))
  {
    if m % 2 == 1 {
      AndSelf(m / 2);
      assert (m - 1) / 2 == m / 2;
    } else {
      OneBit(m / 2);
      assert (m - 1) / 2 == m / 2 - 1;
    }
  }

  lemma {:induction false} LowestPow2(i: nat)
    ensures Lowest(Pow2(i)) == i
  {
    if i > 0 { LowestPow2(i - 1); }
  }

  lemma {:induction false} LowestBound(m: nat, n: nat)
    requires 0 < m < Pow2(n)
    ensures Lowest(m) < n && Bit(m, Lowest(m)) == 1
  {
    if m % 2 == 0 { LowestBound(m / 2, n - 1); }
  }

  lemma {:induction false} Pow2Up(i: nat, n: nat)
    requires i < n
    ensures Pow2(i) < Pow2(n)
  {
    if i > 0 { Pow2Up(i - 1, n - 1); }
  }

  lemma {:induction false} AndComm(a: nat, b: nat)
    ensures And(a, b) == And(b, a)
  {
    if a != 0 && b != 0 { AndComm(a / 2, b / 2); }
  }

  /** A mask with a proper submask has more than one bit. */
  lemma SeveralBits(s: nat, m: nat)
    requires 0 < s < m && Sub(s, m)
    ensures And(m, m - 1) != 0 && m != Pow2(Lowest(m))
  {
    FirstSub(m, s);
    AndComm(m, m - 1);
    OneBit(m);
  }

  lemma {:induction false} NoCommonBit(a: nat, b: nat)
    requires forall i :: Bit(a, i) + Bit(b, i) <= 1
    ensures And(a, b) == 0
  {
    if a != 0 && b != 0 {
      assert Bit(a, 0) + Bit(b, 0) <= 1;
      forall i: nat
        ensures Bit(a / 2, i) + Bit(b / 2, i) <= 1
      {
        assert Bit(a, i + 1) + Bit(b, i + 1) <= 1;
      }
      NoCommonBit(a / 2, b / 2);
    }
  }

  lemma {:induction false} SameBits(a: nat, b: nat)
    requires forall i :: Bit(a, i) == Bit(b, i)
    ensures a == b
  {
    if a + b > 0 {
      assert Bit(a, 0) == Bit(b, 0);
      forall i: nat
        ensures Bit(a / 2, i) == Bit(b / 2, i)
      {
        assert Bit(a, i + 1) == Bit(b, i + 1);
      }
      SameBits(a / 2, b / 2);
    }
  }

  /** Of two masks without a common bit one has the lowest bit of the sum. */
  lemma {:induction false} LowestSum(a: nat, b: nat)
    requires a > 0 && b > 0 && And(a, b) == 0
    ensures Lowest(a) != Lowest(b)
    ensures Lowest(a + b) == if Lowest(a) < Lowest(b) then Lowest(a) else Lowest(b)
    decreases a + b
  {
    if a % 2 == 0 && b % 2 == 0 {
      assert (a + b) / 2 == a / 2 + b / 2;
      LowestSum(a / 2, b / 2);
    }
  }
}
