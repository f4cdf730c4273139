/** Choosing a join order by dynamic programming over sets of tables. */
module JoinOrder {
  import opened Common
  import opened Bits

  /** A bushy join tree over numbered tables. */
  datatype Plan = Scan(table: nat) | Join(left: Plan, right: Plan)

  function Leaves(p: Plan): multiset<nat> {
    match p
    case Scan(i) => multiset{i}
    case Join(l, r) => Leaves(l) + Leaves(r)
  }

  /** Each of the tables 0, ..., n - 1 is scanned exactly once, and nothing else is. */
  ghost predicate JoinsAll(p: Plan, n: nat) {
    forall i: nat :: Leaves(p)[i] == if i < n then 1 else 0
  }

  function Mask(p: Plan): (m: nat)
    ensures m > 0
  {
    match p
    case Scan(i) => Pow2(i)
    case Join(l, r) => Mask(l) + Mask(r)
  }

  /** No table twice, and none from n on. */
  predicate Wf(p: Plan, n: nat) {
    match p
    case Scan(i) => i < n
    case Join(l, r) => Wf(l, n) && Wf(r, n) && And(Mask(l), Mask(r)) == 0
  }

  // ---------- the cost model ----------

  datatype PlanEntry = PlanEntry(cost: Option<real>, rows: real, plan: Option<Plan>)

  /** Infinite cost: no plan yet. */
  const NOTHING: PlanEntry := PlanEntry(None, 0.0, None)

  type Table = seq<PlanEntry>

  function EstimateJoinRows(l: real, r: real, selectivity: real): real { l * r * selectivity }

  function CostJoin(lc: real, rc: real, lr: real, rr: real): real { lc + rc + lr + rr }

  function RowsAt(dp: Table, m: nat): real { if m < |dp| then dp[m].rows else 0.0 }

  function BaseAt(base: seq<real>, i: nat): real { if i < |base| then base[i] else 0.0 }

  /** The cost of any join tree, with the row estimates that the table ends up with. */
  function Cost(dp: Table, base: seq<real>, p: Plan): real {
    match p
    case Scan(i) => BaseAt(base, i)
    case Join(l, r) => CostJoin(Cost(dp, base, l), Cost(dp, base, r), RowsAt(dp, Mask(l)), RowsAt(dp, Mask(r)))
  }

  /** The row estimate of a join looks at the lowest table of each side only. */
  function RowsOf(base: seq<real>, selectivity: real, p: Plan): real {
    match p
    case Scan(i) => BaseAt(base, i)
    case Join(l, r) =>
      EstimateJoinRows(BaseAt(base, Lowest(Mask(l))), BaseAt(base, Lowest(Mask(r))), selectivity)
  }

  // ---------- Bellman's equation ----------

  predicate Split(s: nat, m: nat) { 0 < s < m && Sub(s, m) }

  predicate Filled(e: PlanEntry) { e.cost.Some? && e.plan.Some? }

  function SplitCost(dp: Table, s: nat, m: nat): real
    requires s < m < |dp| && 0 < s && Filled(dp[s]) && Filled(dp[m - s])
  {
    CostJoin(dp[s].cost.value, dp[m - s].cost.value, dp[s].rows, dp[m - s].rows)
  }

  function SplitEntry(dp: Table, base: seq<real>, selectivity: real, s: nat, m: nat): PlanEntry
    requires 0 < s < m < |dp| && Filled(dp[s]) && Filled(dp[m - s])
  {
    PlanEntry(Some(SplitCost(dp, s, m)),
              EstimateJoinRows(BaseAt(base, Lowest(s)), BaseAt(base, Lowest(m - s)), selectivity),
              Some(Join(dp[s].plan.value, dp[m - s].plan.value)))
  }

  function ScanEntry(base: seq<real>, m: nat): PlanEntry
    requires m > 0
  {
    var r := BaseAt(base, Lowest(m));
    PlanEntry(Some(r), r, Some(Scan(Lowest(m))))
  }

  ghost predicate AllFilled(dp: Table, m: nat) {
    forall s :: 0 < s < m && s < |dp| ==> Filled(dp[s])
  }

  /** Entry e of mask m is made from split s. */
  ghost predicate MadeFrom(dp: Table, base: seq<real>, selectivity: real, e: PlanEntry, m: nat, s: nat) {
    m < |dp| && AllFilled(dp, m) && Split(s, m) && e == SplitEntry(dp, base, selectivity, s, m)
  }

  /** It costs no more than any split of m from lo on. */
  ghost predicate NoWorse(dp: Table, e: PlanEntry, m: nat, lo: nat) {
    m < |dp| && AllFilled(dp, m)
    && forall s :: Split(s, m) && lo <= s ==> e.cost.Some? && e.cost.value <= SplitCost(dp, s, m)
  }

  ghost predicate Bellman(dp: Table, base: seq<real>, selectivity: real, m: nat) {
    0 < m < |dp|
    && if m == Pow2(Lowest(m)) then dp[m] == ScanEntry(base, m)
       else NoWorse(dp, dp[m], m, 0) && exists s :: MadeFrom(dp, base, selectivity, dp[m], m, s)
  }

  ghost predicate Solved(dp: Table, base: seq<real>, selectivity: real, n: nat) {
    |base| == n && |dp| == Pow2(n) && forall m :: 0 < m < |dp| ==> Bellman(dp, base, selectivity, m)
  }

  lemma BellmanFilled(dp: Table, base: seq<real>, selectivity: real, m: nat)
    requires Bellman(dp, base, selectivity, m)
    ensures Filled(dp[m])
  {
  }

  lemma BellmanFrame(dp: Table, dp': Table, base: seq<real>, selectivity: real, m: nat)
    requires Bellman(dp, base, selectivity, m) && |dp'| == |dp| && dp[..m + 1] == dp'[..m + 1]
    ensures Bellman(dp', base, selectivity, m)
  {
    assert forall s :: 0 <= s <= m ==> dp[s] == dp[..m + 1][s] && dp'[s] == dp'[..m + 1][s];
    if m != Pow2(Lowest(m)) {
      var s :| MadeFrom(dp, base, selectivity, dp[m], m, s);
      assert AllFilled(dp', m);
      assert MadeFrom(dp', base, selectivity, dp'[m], m, s);
      forall s | Split(s, m)
        ensures dp'[m].cost.value <= SplitCost(dp', s, m)
      {
        assert SplitCost(dp, s, m) == SplitCost(dp', s, m);
      }
    }
  }

  // ---------- what a solved table means ----------

  lemma {:induction false} MaskBits(p: Plan, n: nat, i: nat)
    requires Wf(p, n)
    ensures Leaves(p)[i] == Bit(Mask(p), i)
  {
    hide Bit, Pow2, And;
    match p
    case Scan(k) => BitPow2(k, i);
    case Join(l, r) =>
      MaskBits(l, n, i);
      MaskBits(r, n, i);
      DisjointSum(Mask(l), Mask(r), i);
  }

  /** Well-formed trees with the full mask are exactly the trees that join all tables. */
  lemma JoinsAllMeaning(p: Plan, n: nat)
    ensures JoinsAll(p, n) <==> Wf(p, n) && Mask(p) == Pow2(n) - 1
  {
    hide Bit, Pow2, Wf, Mask;
    forall i { BitFull(n, i); }
    if Wf(p, n) && Mask(p) == Pow2(n) - 1 {
      forall i { MaskBits(p, n, i); }
    }
    if JoinsAll(p, n) {
      OnceIsWf(p, n);
      forall i: nat
        ensures Bit(Mask(p), i) == Bit(Pow2(n) - 1, i)
      {
        MaskBits(p, n, i);
      }
      SameBits(Mask(p), Pow2(n) - 1);
    }
  }

  lemma {:induction false} OnceIsWf(p: Plan, n: nat)
    requires forall i: nat :: Leaves(p)[i] <= if i < n then 1 else 0
    ensures Wf(p, n)
  {
    hide Mask, And;
    match p
    case Scan(k) => assert Leaves(p)[k] == 1;
    case Join(l, r) =>
      assert forall i: nat :: Leaves(p)[i] == Leaves(l)[i] + Leaves(r)[i];
      OnceIsWf(l, n);
      OnceIsWf(r, n);
      NothingTwice(l, r, n);
  }

  lemma NothingTwice(l: Plan, r: Plan, n: nat)
    requires Wf(l, n) && Wf(r, n) && forall i: nat :: Leaves(l)[i] + Leaves(r)[i] <= 1
    ensures And(Mask(l), Mask(r)) == 0
  {
    hide Bit, Mask, Wf, And;
    forall i: nat
      ensures Bit(Mask(l), i) + Bit(Mask(r), i) <= 1
    {
      MaskBits(l, n, i);
      MaskBits(r, n, i);
    }
    NoCommonBit(Mask(l), Mask(r));
  }

  lemma {:induction false} MaskBound(p: Plan, n: nat)
    requires Wf(p, n)
    ensures Sub(Mask(p), Pow2(n) - 1) && Mask(p) < Pow2(n)
  {
    match p
    case Scan(k) =>
      Pow2Up(k, n);
      PowSub(k, n);
    case Join(l, r) =>
      MaskBound(l, n);
      MaskBound(r, n);
      SumSub(Mask(l), Mask(r), Pow2(n) - 1);
      Complement(Mask(p), Pow2(n) - 1);
  }

  lemma {:induction false} PowSub(k: nat, n: nat)
    requires k < n
    ensures Sub(Pow2(k), Pow2(n) - 1)
  {
    assert (Pow2(n) - 1) / 2 == Pow2(n - 1) - 1 && (Pow2(n) - 1) % 2 == 1;
    if k > 0 { PowSub(k - 1, n - 1); }
    SubHalf(Pow2(k), Pow2(n) - 1);
  }

  lemma {:induction false} SumSub(a: nat, b: nat, m: nat)
    requires And(a, b) == 0 && Sub(a, m) && Sub(b, m)
    ensures Sub(a + b, m)
    decreases a + b
  {
    if a != 0 && b != 0 {
      SubHalf(a, m);
      SubHalf(b, m);
      SumSub(a / 2, b / 2, m / 2);
      assert (a + b) / 2 == a / 2 + b / 2 && (a + b) % 2 == a % 2 + b % 2;
      SubHalf(a + b, m);
    }
  }

  /** No join tree is cheaper than the table's entry for its set of tables. */
  lemma {:induction false} LowerBound(dp: Table, base: seq<real>, selectivity: real, n: nat, p: Plan)
    requires Solved(dp, base, selectivity, n) && Wf(p, n)
    ensures Mask(p) < |dp| && Filled(dp[Mask(p)]) && dp[Mask(p)].cost.value <= Cost(dp, base, p)
  {
    hide And, NoWorse, MadeFrom, AllFilled, Pow2;
    MaskBound(p, n);
    var m := Mask(p);
    assert Bellman(dp, base, selectivity, m);
    match p
    case Scan(k) => LowestPow2(k);
    case Join(l, r) =>
      LowerBound(dp, base, selectivity, n, l);
      LowerBound(dp, base, selectivity, n, r);
      DisjointSum(Mask(l), Mask(r), 0);
      EntryBound(dp, base, selectivity, m, Mask(l));
  }

  lemma EntryBound(dp: Table, base: seq<real>, selectivity: real, m: nat, s: nat)
    requires m < |dp| && (forall k :: 0 < k < |dp| ==> Bellman(dp, base, selectivity, k)) && Split(s, m)
    ensures Filled(dp[m]) && Filled(dp[s]) && Filled(dp[m - s]) && dp[m].cost.value <= SplitCost(dp, s, m)
  {
    assert Bellman(dp, base, selectivity, m);
    SeveralBits(s, m);
  }

  /** The plan in each entry joins exactly its tables, at the cost and with the rows that
      the entry says. */
  lemma {:induction false} Attained(dp: Table, base: seq<real>, selectivity: real, n: nat, m: nat)
    requires Solved(dp, base, selectivity, n) && 0 < m < |dp|
    ensures Filled(dp[m])
    ensures var p := dp[m].plan.value;
            Wf(p, n) && Mask(p) == m && Cost(dp, base, p) == dp[m].cost.value
                      && RowsOf(base, selectivity, p) == dp[m].rows
    decreases m
  {
    assert Bellman(dp, base, selectivity, m);
    if m == Pow2(Lowest(m)) {
      LowestBound(m, n);
    } else {
      var s :| MadeFrom(dp, base, selectivity, dp[m], m, s);
      Complement(s, m);
      Attained(dp, base, selectivity, n, s);
      Attained(dp, base, selectivity, n, m - s);
    }
  }

  /** The last entry is optimal among all bushy trees that join all tables once. */
  lemma Optimal(dp: Table, base: seq<real>, selectivity: real, n: nat, p: Plan)
    requires Solved(dp, base, selectivity, n) && n > 0
    ensures Filled(dp[Pow2(n) - 1]) && JoinsAll(dp[Pow2(n) - 1].plan.value, n)
    ensures JoinsAll(p, n) ==> Cost(dp, base, dp[Pow2(n) - 1].plan.value) <= Cost(dp, base, p)
  {
    Attained(dp, base, selectivity, n, Pow2(n) - 1);
    JoinsAllMeaning(dp[Pow2(n) - 1].plan.value, n);
    JoinsAllMeaning(p, n);
    if JoinsAll(p, n) { LowerBound(dp, base, selectivity, n, p); }
  }

  // ---------- the optimizer ----------

  /** What an entry holds before its turn: singletons have their scan, the others nothing. */
  function Initial(base: seq<real>, m: nat): PlanEntry {
    if m > 0 && m == Pow2(Lowest(m)) then ScanEntry(base, m) else NOTHING
  }

  /** The inner loop: try every way to split mask in two, from the largest submask down. */
  method BestSplit(dp: array<PlanEntry>, base: seq<real>, selectivity: real, mask: nat)
    requires 0 < mask < dp.Length && AllFilled(dp[..], mask) && And(mask, mask - 1) != 0 && dp[mask] == NOTHING
    requires forall m :: 0 < m <= mask ==> Lowest(m) < |base|
    modifies dp
    ensures dp[..] == old(dp[..])[mask := dp[mask]] && Bellman(dp[..], base, selectivity, mask)
  {
    hide And, Xor, Pow2;
    ghost var d := dp[..];
    OneBit(mask);
    AndComm(mask, mask - 1);
    forall u { FirstSub(mask, u); }
    var left := And(mask - 1, mask);
    ghost var first := left;
    while left != 0
      invariant 0 <= left < mask && Sub(left, mask) && dp[..] == d[mask := dp[mask]]
      invariant left < first ==> exists s :: MadeFrom(d, base, selectivity, dp[mask], mask, s)
      invariant left == first ==> dp[mask] == NOTHING
      invariant forall s :: Split(s, mask) && left < s ==>
                Filled(dp[mask]) && dp[mask].cost.value <= SplitCost(d, s, mask)
      decreases left
    {
      Complement(left, mask);
      var right := Xor(mask, left);
      var l, r := dp[left], dp[right];
      assert l == d[left] && r == d[right] && Split(left, mask);
      if l.plan.Some? && r.plan.Some? {
        var estRows := EstimateJoinRows(base[Lowest(left)], base[Lowest(right)], selectivity);
        var c := CostJoin(l.cost.value, r.cost.value, l.rows, r.rows);
        if dp[mask].cost.None? || c < dp[mask].cost.value {
          dp[mask] := PlanEntry(Some(c), estRows, Some(Join(l.plan.value, r.plan.value)));
          assert MadeFrom(d, base, selectivity, dp[mask], mask, left);
        }
      }
      forall u { NextSub(left, mask, u); }
      left := And(left - 1, mask);
    }
    SplitResult(d, dp[..], base, selectivity, mask);
  }

  lemma SplitResult(d: Table, d': Table, base: seq<real>, selectivity: real, m: nat)
    requires 0 < m < |d| == |d'| && d' == d[m := d'[m]] && AllFilled(d, m) && m != Pow2(Lowest(m))
    requires exists s :: MadeFrom(d, base, selectivity, d'[m], m, s)
    requires forall s :: Split(s, m) && 0 < s ==> d'[m].cost.Some? && d'[m].cost.value <= SplitCost(d, s, m)
    ensures Bellman(d', base, selectivity, m)
  {
    var s :| MadeFrom(d, base, selectivity, d'[m], m, s);
    assert AllFilled(d', m);
    assert MadeFrom(d', base, selectivity, d'[m], m, s);
    forall s | Split(s, m)
      ensures d'[m].cost.value <= SplitCost(d', s, m)
    {
      assert SplitCost(d, s, m) == SplitCost(d', s, m);
    }
  }

  /** The single-table plans.  Fails (the source throws) if a table has no row count or no
      scan. */
  method Singletons(tables: seq<string>, stats: map<string, real>, scans: set<string>, dp: array<PlanEntry>)
    returns (ok: bool, base: seq<real>)
    requires dp.Length == Pow2(|tables|) && forall m :: 0 <= m < dp.Length ==> dp[m] == NOTHING
    modifies dp
    ensures ok <==> forall i :: 0 <= i < |tables| ==> tables[i] in stats && tables[i] in scans
    ensures ok ==> |base| == |tables| && forall i :: 0 <= i < |base| ==> base[i] == stats[tables[i]]
    ensures ok ==> forall m :: 0 <= m < dp.Length ==> dp[m] == Initial(base, m)
  {
    hide Pow2, Lowest;
    base := [];
    for i := 0 to |tables|
      invariant |base| == i
      invariant forall j :: 0 <= j < i ==> tables[j] in stats && tables[j] in scans && base[j] == stats[tables[j]]
      invariant forall m :: 0 < m < dp.Length ==> dp[m] == if Lowest(m) < i then Initial(base, m) else NOTHING
      invariant dp[0] == NOTHING
    {
      if tables[i] !in stats || tables[i] !in scans { return false, []; }
      Pow2Up(i, |tables|);
      LowestPow2(i);
      var r := stats[tables[i]];
      base := base + [r];
      dp[Pow2(i)] := PlanEntry(Some(r), r, Some(Scan(i)));
    }
    forall m | 0 < m < dp.Length { LowestBound(m, |tables|); }
    return true, base;
  }

  /** The outer loop: larger sets of tables, by their masks. */
  method LargerSets(base: seq<real>, selectivity: real, dp: array<PlanEntry>)
    requires dp.Length == Pow2(|base|) && forall m :: 0 <= m < dp.Length ==> dp[m] == Initial(base, m)
    modifies dp
    ensures Solved(dp[..], base, selectivity, |base|) && dp[0] == NOTHING
  {
    hide And, Pow2, Lowest, Sub;
    forall m | 0 < m < dp.Length { LowestBound(m, |base|); }
    var mask := 1;
    while mask < dp.Length
      invariant 1 <= mask <= dp.Length && dp[..][0] == NOTHING
      invariant forall m :: 0 < m < mask ==> Bellman(dp[..], base, selectivity, m)
      invariant forall m :: mask <= m < dp.Length ==> dp[m] == Initial(base, m)
    {
      ghost var d := dp[..];
      OneBit(mask);
      if And(mask, mask - 1) != 0 {
        AlreadyFilled(d, base, selectivity, mask);
        BestSplit(dp, base, selectivity, mask);
      } else {
        assert Bellman(d, base, selectivity, mask);
      }
      KeepSolved(d, dp[..], base, selectivity, mask);
      mask := mask + 1;
    }
  }

  lemma AlreadyFilled(d: Table, base: seq<real>, selectivity: real, m: nat)
    requires forall k :: 0 < k < m ==> Bellman(d, base, selectivity, k)
    ensures AllFilled(d, m)
  {
    forall k | 0 < k < m && k < |d|
      ensures Filled(d[k])
    {
      BellmanFilled(d, base, selectivity, k);
    }
  }

  lemma KeepSolved(d: Table, d': Table, base: seq<real>, selectivity: real, m: nat)
    requires m < |d| == |d'| && d' == d[m := d'[m]]
    requires forall k :: 0 < k < m ==> Bellman(d, base, selectivity, k)
    ensures forall k :: 0 < k < m ==> Bellman(d', base, selectivity, k)
  {
    forall k | 0 < k < m
      ensures Bellman(d', base, selectivity, k)
    {
      BellmanFrame(d, d', base, selectivity, k);
    }
  }

  /** Fails (the source throws) exactly if a table has no row count or no scan.  Without
      tables there is no plan.  Otherwise the plan joins every table exactly once, and no
      bushy tree is cheaper under the row estimates that the table ends up with. */
  method OptimizeJoins(tables: seq<string>, stats: map<string, real>, scans: set<string>, selectivity: real)
    returns (ok: bool, plan: Option<Plan>, ghost dp: Table, ghost base: seq<real>)
    requires |tables| <= 30
    ensures ok <==> forall i :: 0 <= i < |tables| ==> tables[i] in stats && tables[i] in scans
    ensures ok ==> |base| == |tables| && forall i :: 0 <= i < |base| ==> base[i] == stats[tables[i]]
    ensures ok ==> Solved(dp, base, selectivity, |tables|)
    ensures ok ==> (plan.None? <==> |tables| == 0)
    ensures ok && |tables| > 0 ==> RowsAt(dp, Pow2(|tables|) - 1) == RowsOf(base, selectivity, plan.value)
    ensures ok && |tables| > 0 ==>
              JoinsAll(plan.value, |tables|)
              && forall p :: JoinsAll(p, |tables|) ==> Cost(dp, base, plan.value) <= Cost(dp, base, p)
  {
    hide JoinsAll, Bellman;
    var a := new PlanEntry[Pow2(|tables|)](_ => NOTHING);
    var rows;
    ok, rows := Singletons(tables, stats, scans, a);
    dp, base := a[..], rows;
    if !ok { return false, None, dp, base; }
    LargerSets(rows, selectivity, a);
    dp := a[..];
    plan := a[a.Length - 1].plan;
    if |tables| > 0 {
      Attained(dp, base, selectivity, |tables|, Pow2(|tables|) - 1);
      forall p { Optimal(dp, base, selectivity, |tables|, p); }
    }
  }
}
