/** Why optimality has to be relative to the row counts in the table: with each tree's own
    estimates, the chosen plan may lose. */
module JoinOrderLimits {
  import opened Bits
  import opened JoinOrder

  /** The cost of a join tree when every subtree has its own row estimate. */
  function OwnCost(base: seq<real>, selectivity: real, p: Plan): real {
    match p
    case Scan(i) => BaseAt(base, i)
    case Join(l, r) =>
      CostJoin(OwnCost(base, selectivity, l), OwnCost(base, selectivity, r),
               RowsOf(base, selectivity, l), RowsOf(base, selectivity, r))
  }

  /** What one, two and three tables cost: a scan its rows; a join the costs of its sides and
      their rows, and the rows of a join are a product of the rows of two tables and the
      selectivity. */
  lemma CostsWritten(base: seq<real>, selectivity: real, i: nat, j: nat, k: nat)
    requires i < j < k < |base|
    ensures var a, b, c := base[i], base[j], base[k]; var ij := Join(Scan(i), Scan(j));
            OwnCost(base, selectivity, Scan(i)) == a && RowsOf(base, selectivity, Scan(i)) == a
            && OwnCost(base, selectivity, ij) == 2.0 * a + 2.0 * b
            && RowsOf(base, selectivity, ij) == a * b * selectivity
            && OwnCost(base, selectivity, Join(ij, Scan(k))) == 2.0 * a + 2.0 * b + 2.0 * c + a * b * selectivity
            && RowsOf(base, selectivity, Join(ij, Scan(k))) == a * c * selectivity
  {
    hide Pow2, Lowest;
    ThreeMasks(i, j, k);
  }

  /** For the plans in the table the two notions agree. */
  lemma {:induction false} OwnCostOfEntry(dp: Table, base: seq<real>, selectivity: real, n: nat, m: nat)
    requires Solved(dp, base, selectivity, n) && 0 < m < |dp|
    ensures Filled(dp[m]) && OwnCost(base, selectivity, dp[m].plan.value) == dp[m].cost.value
    decreases m
  {
    assert Bellman(dp, base, selectivity, m);
    if m != Pow2(Lowest(m)) {
      var s :| MadeFrom(dp, base, selectivity, dp[m], m, s);
      OwnCostOfEntry(dp, base, selectivity, n, s);
      OwnCostOfEntry(dp, base, selectivity, n, m - s);
      Attained(dp, base, selectivity, n, s);
      Attained(dp, base, selectivity, n, m - s);
    }
  }

  /** Two join trees over the same tables always have the same row estimate. */
  ghost predicate EstimatesAgree(base: seq<real>, selectivity: real, n: nat) {
    forall p, q :: Wf(p, n) && Wf(q, n) && Mask(p) == Mask(q) ==>
              RowsOf(base, selectivity, p) == RowsOf(base, selectivity, q)
  }

  /** The same as a condition on the row counts: joining a table with any of the tables
      after it gives the same estimate. */
  ghost predicate RowsAgree(base: seq<real>, selectivity: real) {
    forall i, j, k :: 0 <= i < j < |base| && i < k < |base| ==>
      EstimateJoinRows(base[i], base[j], selectivity) == EstimateJoinRows(base[i], base[k], selectivity)
  }

  lemma EstimateSwap(a: real, b: real, selectivity: real)
    ensures EstimateJoinRows(a, b, selectivity) == EstimateJoinRows(b, a, selectivity)
  {
    assert a * b == b * a;
  }

  /** A join's estimate pairs the lowest of its tables with some later one. */
  lemma JoinPairs(base: seq<real>, selectivity: real, p: Plan) returns (j: nat)
    requires p.Join? && Wf(p, |base|)
    ensures Lowest(Mask(p)) < j < |base|
    ensures RowsOf(base, selectivity, p) == EstimateJoinRows(base[Lowest(Mask(p))], base[j], selectivity)
  {
    var a, b := Mask(p.left), Mask(p.right);
    MaskBound(p.left, |base|);
    MaskBound(p.right, |base|);
    LowestBound(a, |base|);
    LowestBound(b, |base|);
    LowestSum(a, b);
    EstimateSwap(base[Lowest(a)], base[Lowest(b)], selectivity);
    j := if Lowest(a) < Lowest(b) then Lowest(b) else Lowest(a);
  }

  lemma SameMaskRows(base: seq<real>, selectivity: real, p: Plan, q: Plan)
    requires RowsAgree(base, selectivity) && Wf(p, |base|) && Wf(q, |base|) && Mask(p) == Mask(q)
    ensures RowsOf(base, selectivity, p) == RowsOf(base, selectivity, q)
  {
    SameShape(p, q, |base|);
    if p.Join? {
      var j := JoinPairs(base, selectivity, p);
      var k := JoinPairs(base, selectivity, q);
    } else {
      LowestPow2(p.table);
      LowestPow2(q.table);
    }
  }

  lemma SameShape(p: Plan, q: Plan, n: nat)
    requires Wf(p, n) && Wf(q, n) && Mask(p) == Mask(q)
    ensures p.Join? <==> q.Join?
  {
    OneTable(p, n);
    OneTable(q, n);
  }

  lemma OneTable(p: Plan, n: nat)
    requires Wf(p, n)
    ensures p.Scan? <==> Mask(p) == Pow2(Lowest(Mask(p)))
  {
    match p
    case Scan(i) => LowestPow2(i);
    case Join(l, r) =>
      DisjointSum(Mask(l), Mask(r), 0);
      SeveralBits(Mask(l), Mask(p));
  }

  lemma ThreeMasks(i: nat, j: nat, k: nat)
    requires i < j < k
    ensures And(Pow2(j), Pow2(k)) == 0 && And(Pow2(i), Pow2(j) + Pow2(k)) == 0
    ensures And(Pow2(i), Pow2(j)) == 0 && And(Pow2(i) + Pow2(j), Pow2(k)) == 0
    ensures Lowest(Pow2(i)) == i && Lowest(Pow2(j)) == j && Lowest(Pow2(k)) == k
    ensures Lowest(Pow2(i) + Pow2(j)) == i && Lowest(Pow2(j) + Pow2(k)) == j
  {
    hide And, Pow2, Lowest;
    Apart(i, j);
    Apart(i, k);
    Apart(j, k);
    AndSum(Pow2(i), Pow2(j), Pow2(k));
    AndComm(Pow2(i), Pow2(k));
    AndComm(Pow2(j), Pow2(k));
    AndSum(Pow2(k), Pow2(i), Pow2(j));
    AndComm(Pow2(i) + Pow2(j), Pow2(k));
    LowestPow2(i);
    LowestPow2(j);
    LowestPow2(k);
    LowestSum(Pow2(i), Pow2(j));
    LowestSum(Pow2(j), Pow2(k));
  }

  /** Three tables, joined in two ways: the two estimates that have to agree. */
  lemma ThreeTables(base: seq<real>, selectivity: real, i: nat, j: nat, k: nat)
    requires EstimatesAgree(base, selectivity, |base|) && i < j < k < |base|
    ensures EstimateJoinRows(base[i], base[j], selectivity) == EstimateJoinRows(base[i], base[k], selectivity)
  {
    hide And, Pow2, Lowest, EstimateJoinRows;
    ThreeMasks(i, j, k);
    var jk, ij := Join(Scan(j), Scan(k)), Join(Scan(i), Scan(j));
    var p, q := Join(Scan(i), jk), Join(ij, Scan(k));
    assert Mask(jk) == Pow2(j) + Pow2(k) && Mask(ij) == Pow2(i) + Pow2(j);
    assert Wf(jk, |base|) && Wf(ij, |base|);
    assert Wf(p, |base|) && Wf(q, |base|) && Mask(p) == Mask(q);
    assert RowsOf(base, selectivity, p) == RowsOf(base, selectivity, q);
  }

  lemma {:induction false} Apart(i: nat, j: nat)
    requires i < j
    ensures And(Pow2(i), Pow2(j)) == 0
  {
    if i > 0 { Apart(i - 1, j - 1); }
  }

  /** A mask apart from two others that are apart is apart from their sum. */
  lemma {:induction false} AndSum(a: nat, b: nat, c: nat)
    requires And(a, b) == 0 && And(a, c) == 0 && And(b, c) == 0
    ensures And(a, b + c) == 0
    decreases a
  {
    if a != 0 && b != 0 && c != 0 {
      assert (b + c) / 2 == b / 2 + c / 2 && (b + c) % 2 == b % 2 + c % 2;
      AndSum(a / 2, b / 2, c / 2);
    }
  }

  /** Estimates do not depend on the split exactly if the row counts agree. */
  lemma AgreeExact(base: seq<real>, selectivity: real)
    ensures EstimatesAgree(base, selectivity, |base|) <==> RowsAgree(base, selectivity)
  {
    if RowsAgree(base, selectivity) {
      forall p, q | Wf(p, |base|) && Wf(q, |base|) && Mask(p) == Mask(q)
        ensures RowsOf(base, selectivity, p) == RowsOf(base, selectivity, q)
      {
        SameMaskRows(base, selectivity, p, q);
      }
    }
    if EstimatesAgree(base, selectivity, |base|) {
      forall i, j, k | 0 <= i < j < |base| && i < k < |base|
        ensures EstimateJoinRows(base[i], base[j], selectivity) == EstimateJoinRows(base[i], base[k], selectivity)
      {
        if j < k { ThreeTables(base, selectivity, i, j, k); }
        if k < j { ThreeTables(base, selectivity, i, k, j); }
      }
    }
  }

  lemma {:induction false} OwnCostOfTree(dp: Table, base: seq<real>, selectivity: real, n: nat, p: Plan)
    requires Solved(dp, base, selectivity, n) && RowsAgree(base, selectivity) && Wf(p, n)
    ensures Mask(p) < |dp| && RowsAt(dp, Mask(p)) == RowsOf(base, selectivity, p)
    ensures Cost(dp, base, p) == OwnCost(base, selectivity, p)
  {
    hide Bellman, RowsAgree;
    MaskBound(p, n);
    Attained(dp, base, selectivity, n, Mask(p));
    SameMaskRows(base, selectivity, dp[Mask(p)].plan.value, p);
    if p.Join? {
      OwnCostOfTree(dp, base, selectivity, n, p.left);
      OwnCostOfTree(dp, base, selectivity, n, p.right);
    }
  }

  /** If the row counts agree, the choice is the cheapest outright. */
  lemma OutrightIfEstimatesAgree(dp: Table, base: seq<real>, selectivity: real, n: nat, p: Plan)
    requires Solved(dp, base, selectivity, n) && n > 0 && RowsAgree(base, selectivity) && JoinsAll(p, n)
    ensures Filled(dp[Pow2(n) - 1])
    ensures OwnCost(base, selectivity, dp[Pow2(n) - 1].plan.value) <= OwnCost(base, selectivity, p)
  {
    hide JoinsAll, Bellman, RowsAgree;
    JoinsAllMeaning(p, n);
    LowerBound(dp, base, selectivity, n, p);
    OwnCostOfTree(dp, base, selectivity, n, p);
    OwnCostOfEntry(dp, base, selectivity, n, Pow2(n) - 1);
  }

  // ---------- up to three tables ----------

  function Count(p: Plan): nat {
    match p
    case Scan(_) => 1
    case Join(l, r) => Count(l) + Count(r)
  }

  lemma {:induction false} CountLeaves(p: Plan)
    ensures Count(p) == |Leaves(p)| && Count(p) > 0
  {
    if p.Join? {
      CountLeaves(p.left);
      CountLeaves(p.right);
    }
  }

  lemma SameLeaves(p: Plan, q: Plan, n: nat)
    requires Wf(p, n) && Wf(q, n) && Mask(p) == Mask(q)
    ensures Leaves(p) == Leaves(q) && Count(p) == Count(q)
  {
    hide Mask, Bit, Wf;
    forall i: nat
      ensures Leaves(p)[i] == Leaves(q)[i]
    {
      MaskBits(p, n, i);
      MaskBits(q, n, i);
    }
    CountLeaves(p);
    CountLeaves(q);
  }

  /** Two join trees over the same two tables have the same row estimate. */
  lemma PairRows(base: seq<real>, selectivity: real, p: Plan, q: Plan, n: nat)
    requires Wf(p, n) && Wf(q, n) && Mask(p) == Mask(q) && Count(p) <= 2
    ensures RowsOf(base, selectivity, p) == RowsOf(base, selectivity, q)
  {
    hide Mask, Wf, EstimateJoinRows, Lowest;
    SameLeaves(p, q, n);
    if p.Scan? {
      if q.Join? {
        CountLeaves(q.left);
        CountLeaves(q.right);
      }
      assert p.table in Leaves(p) && p.table in Leaves(q);
    } else {
      CountLeaves(p.left);
      CountLeaves(p.right);
      var a, b := PairOf(p);
      var c, d := PairOf(q);
      assert multiset{a, b} == multiset{c, d};
      assert a in multiset{c, d} && b in multiset{c, d} && c in multiset{a, b} && d in multiset{a, b};
      TwoScans(base, selectivity, a, b);
      TwoScans(base, selectivity, c, d);
    }
  }

  lemma PairOf(p: Plan) returns (a: nat, b: nat)
    requires Count(p) == 2
    ensures p == Join(Scan(a), Scan(b)) && Leaves(p) == multiset{a, b}
  {
    CountLeaves(p.left);
    CountLeaves(p.right);
    if p.left.Join? { CountLeaves(p.left.left); CountLeaves(p.left.right); }
    if p.right.Join? { CountLeaves(p.right.left); CountLeaves(p.right.right); }
    a, b := p.left.table, p.right.table;
  }

  lemma TwoScans(base: seq<real>, selectivity: real, a: nat, b: nat)
    ensures RowsOf(base, selectivity, Join(Scan(a), Scan(b)))
         == EstimateJoinRows(BaseAt(base, a), BaseAt(base, b), selectivity)
         == EstimateJoinRows(BaseAt(base, b), BaseAt(base, a), selectivity)
  {
    LowestPow2(a);
    LowestPow2(b);
    EstimateSwap(BaseAt(base, a), BaseAt(base, b), selectivity);
  }

  lemma PairEntry(dp: Table, base: seq<real>, selectivity: real, n: nat, p: Plan)
    requires Solved(dp, base, selectivity, n) && Wf(p, n) && Count(p) <= 2
    ensures RowsAt(dp, Mask(p)) == RowsOf(base, selectivity, p)
  {
    hide Bellman, RowsOf, Wf;
    MaskBound(p, n);
    Attained(dp, base, selectivity, n, Mask(p));
    PairRows(base, selectivity, p, dp[Mask(p)].plan.value, n);
  }

  lemma {:induction false} SmallCost(dp: Table, base: seq<real>, selectivity: real, n: nat, p: Plan)
    requires Solved(dp, base, selectivity, n) && Wf(p, n) && Count(p) <= 3
    ensures Cost(dp, base, p) == OwnCost(base, selectivity, p)
  {
    hide Bellman, RowsOf, Solved, RowsAt;
    if p.Join? {
      CountLeaves(p.left);
      CountLeaves(p.right);
      SmallCost(dp, base, selectivity, n, p.left);
      SmallCost(dp, base, selectivity, n, p.right);
      PairEntry(dp, base, selectivity, n, p.left);
      PairEntry(dp, base, selectivity, n, p.right);
    }
  }

  /** Up to three tables, whatever their row counts, the choice is the cheapest outright.
      With four this is false: see NotCheapestOutright. */
  lemma OutrightUpToThree(dp: Table, base: seq<real>, selectivity: real, n: nat, p: Plan)
    requires Solved(dp, base, selectivity, n) && 0 < n <= 3 && JoinsAll(p, n)
    ensures Filled(dp[Pow2(n) - 1])
    ensures OwnCost(base, selectivity, dp[Pow2(n) - 1].plan.value) <= OwnCost(base, selectivity, p)
  {
    hide Bellman, Solved, Wf, Mask;
    FewLeaves(p, n);
    JoinsAllMeaning(p, n);
    LowerBound(dp, base, selectivity, n, p);
    SmallCost(dp, base, selectivity, n, p);
    OwnCostOfEntry(dp, base, selectivity, n, Pow2(n) - 1);
  }

  lemma FewLeaves(p: Plan, n: nat)
    requires 0 < n <= 3 && JoinsAll(p, n)
    ensures Count(p) <= 3
  {
    hide Leaves;
    CountLeaves(p);
    var all: multiset<nat> := if n == 1 then multiset{0} else if n == 2 then multiset{0, 1} else multiset{0, 1, 2};
    assert Leaves(p) == all;
  }

  // ---------- four tables ----------

  const ROWS: seq<real> := [2.0, 1.0, 3.0, 100.0]

  ghost predicate Four(dp: Table) { Solved(dp, ROWS, 1.0, 4) }

  /** The entry of a mask is that of its scan, or of one of its splits. */
  lemma Choice(dp: Table, m: nat) returns (s: nat)
    requires Four(dp) && 0 < m < 16 && m != Pow2(Lowest(m))
    ensures |dp| == 16 && Split(s, m) && Filled(dp[s]) && Filled(dp[m - s]) && dp[m] == SplitEntry(dp, ROWS, 1.0, s, m)
  {
    assert Bellman(dp, ROWS, 1.0, m);
    s :| MadeFrom(dp, ROWS, 1.0, dp[m], m, s);
  }

  lemma Scans(dp: Table)
    requires Four(dp)
    ensures |dp| == 16 && Filled(dp[1]) && Filled(dp[2]) && Filled(dp[4]) && Filled(dp[8])
    ensures dp[1].cost.value == dp[1].rows == 2.0 && dp[2].cost.value == dp[2].rows == 1.0
    ensures dp[4].cost.value == dp[4].rows == 3.0 && dp[8].cost.value == dp[8].rows == 100.0
  {
    assert Bellman(dp, ROWS, 1.0, 1) && Bellman(dp, ROWS, 1.0, 2) && Bellman(dp, ROWS, 1.0, 4)
              && Bellman(dp, ROWS, 1.0, 8);
    assert Lowest(1) == 0 && Lowest(2) == 1 && Lowest(4) == 2 && Lowest(8) == 3;
  }

  lemma Pairs(dp: Table)
    requires Four(dp)
    ensures |dp| == 16 && Filled(dp[3]) && Filled(dp[5]) && Filled(dp[6])
    ensures dp[3].cost.value == 6.0 && dp[3].rows == 2.0 && dp[5].cost.value == 10.0 && dp[5].rows == 6.0
    ensures dp[6].cost.value == 8.0 && dp[6].rows == 3.0
  {
    Scans(dp);
    assert Lowest(1) == 0 && Lowest(2) == 1 && Lowest(4) == 2 && Lowest(3) == 0 && Lowest(5) == 0 && Lowest(6) == 1;
    var a := Choice(dp, 3);
    var b := Choice(dp, 5);
    assert b == 1 || b == 4;
    var c := Choice(dp, 6);
    assert c == 2 || c == 4;
  }

  /** Tables 0, 1, 2: the cheapest split leaves 6 rows; another costs 1 more and leaves 2. */
  lemma Three(dp: Table)
    requires Four(dp)
    ensures |dp| == 16 && Filled(dp[7]) && dp[7].cost.value == 14.0 && dp[7].rows == 6.0
  {
    Scans(dp);
    Pairs(dp);
    assert Lowest(1) == 0 && Lowest(2) == 1 && Lowest(4) == 2 && Lowest(3) == 0 && Lowest(5) == 0 && Lowest(6) == 1;
    var s := Choice(dp, 7);
    assert Split(3, 7);
    EntryBound(dp, ROWS, 1.0, 7, 3);
    assert SplitCost(dp, 3, 7) == 14.0;
  }

  lemma {:induction false} Positive(dp: Table, m: nat)
    requires Four(dp) && 0 < m < 16
    ensures |dp| == 16 && Filled(dp[m]) && dp[m].cost.value >= 0.0 && dp[m].rows >= 1.0
    decreases m
  {
    assert Bellman(dp, ROWS, 1.0, m);
    LowestBound(m, 4);
    if m != Pow2(Lowest(m)) {
      var s := Choice(dp, m);
      LowestBound(s, 4);
      LowestBound(m - s, 4);
      AtLeastOne(Lowest(s));
      AtLeastOne(Lowest(m - s));
      ProductAtLeastOne(BaseAt(ROWS, Lowest(s)), BaseAt(ROWS, Lowest(m - s)));
      Positive(dp, s);
      Positive(dp, m - s);
    }
  }

  lemma AtLeastOne(i: nat)
    requires i < 4
    ensures BaseAt(ROWS, i) >= 1.0
  {
  }

  lemma ProductAtLeastOne(a: real, b: real)
    requires a >= 1.0 && b >= 1.0
    ensures a * b * 1.0 >= a && a * b * 1.0 >= 1.0
  {
    assert a * (b - 1.0) >= 0.0;
  }

  /** Any plan that joins table 3 early is expensive. */
  lemma {:induction false} Early(dp: Table, m: nat)
    requires Four(dp) && 8 < m < 16
    ensures |dp| == 16 && Filled(dp[m]) && (m < 15 ==> dp[m].cost.value + dp[m].rows >= 300.0)
    ensures m == 15 ==> dp[m].cost.value >= 220.0
    decreases m
  {
    Scans(dp);
    Three(dp);
    Positive(dp, m);
    assert Pow2(0) == 1 && Pow2(1) == 2 && Pow2(2) == 4 && Pow2(3) == 8;
    LowestBound(m, 4);
    var s := Choice(dp, m);
    Complement(s, m);
    Positive(dp, s);
    Positive(dp, m - s);
    if s < 8 && m - s < 8 { NotBothSmall(s, m - s); }
    if s > 8 { Early(dp, s); }
    if m - s > 8 { Early(dp, m - s); }
    if s == 8 || m - s == 8 {
      var other := m - 8;
      assert Lowest(8) == 3;
      LowestBound(other, 4);
      AtLeastOne(Lowest(other));
      assert dp[m].rows == 100.0 * BaseAt(ROWS, Lowest(other));
    }
  }

  lemma NotBothSmall(a: nat, b: nat)
    requires And(a, b) == 0 && a < 8 && b < 8
    ensures a + b < 8
  {
    FullMask(a, 3);
    FullMask(b, 3);
    SumSub(a, b, 7);
    Complement(a + b, 7);
  }

  lemma {:induction false} FullMask(a: nat, n: nat)
    requires a < Pow2(n)
    ensures Sub(a, Pow2(n) - 1)
  {
    if n > 0 {
      assert (Pow2(n) - 1) / 2 == Pow2(n - 1) - 1 && (Pow2(n) - 1) % 2 == 1;
      FullMask(a / 2, n - 1);
      SubHalf(a, Pow2(n) - 1);
    }
  }

  const BETTER: Plan := Join(Join(Join(Scan(1), Scan(2)), Scan(0)), Scan(3))

  lemma BetterPlan()
    ensures JoinsAll(BETTER, 4) && OwnCost(ROWS, 1.0, BETTER) == 217.0
  {
    hide JoinsAll;
    assert Pow2(0) == 1 && Pow2(1) == 2 && Pow2(2) == 4 && Pow2(3) == 8 && Pow2(4) == 16;
    assert And(2, 4) == 0 && And(6, 1) == 0 && And(7, 8) == 0;
    JoinsAllMeaning(BETTER, 4);
    assert Lowest(2) == 1 && Lowest(4) == 2 && Lowest(6) == 1 && Lowest(1) == 0;
  }

  /** Among all trees with their own estimates the optimizer's choice is not the cheapest. */
  lemma NotCheapestOutright(dp: Table)
    requires Four(dp)
    ensures |dp| == 16 && Filled(dp[15]) && JoinsAll(BETTER, 4)
    ensures OwnCost(ROWS, 1.0, BETTER) < OwnCost(ROWS, 1.0, dp[15].plan.value)
  {
    hide OwnCost, JoinsAll;
    Early(dp, 15);
    OwnCostOfEntry(dp, ROWS, 1.0, 4, 15);
    BetterPlan();
  }
}
