/** What insert and remove keep, and what they do to the contents. */
module BTreeProofs {
  import opened Common
  import opened BTreeSpec

  ghost predicate WfOut(o: Outcome) {
    match o
    case One(u) => Wf(u)
    case Two(l, _, r) => Wf(l) && Wf(r)
  }

  ghost function OutLeaves(o: Outcome): seq<Tree> {
    match o
    case One(u) => Leaves(u)
    case Two(l, _, r) => Leaves(l) + Leaves(r)
  }

  ghost function OutReach(o: Outcome, p: int): nat {
    match o
    case One(u) => Reach(u, p)
    case Two(l, _, r) => Reach(l, p) + Reach(r, p)
  }

  ghost predicate OutOrdered(o: Outcome, lo: Option<int>, hi: Option<int>)
    requires WfOut(o)
  {
    match o
    case One(u) => Ordered(u, lo, hi)
    case Two(l, sep, r) =>
      Above(sep, lo) && Below(sep, hi) && Ordered(l, lo, Some(sep)) && Ordered(r, Some(sep), hi)
  }

  ghost predicate OutShape(o: Outcome, h: nat) {
    match o
    case One(u) => Shape(u, h)
    case Two(l, _, r) => Shape(l, h) && Shape(r, h)
  }

  // ---------- order ----------

  lemma LowerBoundIs(ks: seq<int>, k: int, i: nat)
    requires i <= |ks| && Strict(ks)
    requires i > 0 ==> ks[i - 1] < k
    requires i < |ks| ==> k <= ks[i]
    ensures LowerBound(ks, k) == i
  {
    var j := LowerBound(ks, k);
    assert j < |ks| ==> k <= ks[j];
  }

  /** Routing: k lies in the key range of the child chosen by upper_bound. */
  lemma ChildRange(ks: seq<int>, k: int, lo: Option<int>, hi: Option<int>)
    requires AtLeast(k, lo) && Below(k, hi)
    ensures var i := UpperBound(ks, k); AtLeast(k, LoOf(ks, lo, i)) && Below(k, HiOf(ks, hi, i))
  {
  }

  lemma LeafAddOrdered(ks: seq<int>, k: int, lo: Option<int>, hi: Option<int>)
    requires LeafOrdered(ks, lo, hi) && AtLeast(k, lo) && Below(k, hi)
    requires var pos := LowerBound(ks, k); !(pos < |ks| && ks[pos] == k)
    ensures LeafOrdered(InsertAt(ks, LowerBound(ks, k), k), lo, hi)
  {
    SplicedStrict(ks, LowerBound(ks, k), k);
  }

  lemma LeafCutOrdered(ks: seq<int>, s: nat, lo: Option<int>, hi: Option<int>)
    requires LeafOrdered(ks, lo, hi) && 0 < s < |ks|
    ensures Above(ks[s], lo) && Below(ks[s], hi)
    ensures LeafOrdered(ks[..s], lo, Some(ks[s])) && LeafOrdered(ks[s..], Some(ks[s]), hi)
  {
    assert ks[0] < ks[s];
  }

  lemma LeafInsertOrdered(t: Tree, k: int, v: RecordID, f: int, lo: Option<int>, hi: Option<int>)
    requires t.Leaf? && Wf(t) && Ordered(t, lo, hi) && AtLeast(k, lo) && Below(k, hi)
    ensures WfOut(InsertLeaf(t, k, v, f)) && OutOrdered(InsertLeaf(t, k, v, f), lo, hi)
  {
    var pos := LowerBound(t.keys, k);
    if !(pos < |t.keys| && t.keys[pos] == k) {
      LeafAddOrdered(t.keys, k, lo, hi);
      var ks := InsertAt(t.keys, pos, k);
      if |ks| > MAX_KEYS { LeafCutOrdered(ks, |ks| / 2, lo, hi); }
    }
  }

  /** The separator of a split child goes exactly where the child was. */
  lemma SpliceForm(t: Tree, idx: nat, l: Tree, sep: int, r: Tree)
    requires t.Inner? && |t.children| == |t.keys| + 1 && idx < |t.children|
    requires Strict(t.keys)
    requires Above(sep, LoOf(t.keys, None, idx)) && Below(sep, HiOf(t.keys, None, idx))
    ensures var u := SpliceNode(t, idx, l, sep, r);
            u.page == t.page
            && u.keys == t.keys[..idx] + [sep] + t.keys[idx..]
            && u.children == t.children[..idx] + [l, r] + t.children[idx + 1..]
            && Strict(u.keys)
  {
    LowerBoundIs(t.keys, sep, idx);
    SplicedStrict(t.keys, idx, sep);
    assert InsertAt(t.children[idx := l], idx + 1, r) == t.children[..idx] + [l, r] + t.children[idx + 1..];
  }

  lemma SpliceSeps(ks: seq<int>, idx: nat, sep: int, lo: Option<int>, hi: Option<int>)
    requires idx <= |ks| && SepsOrdered(ks, lo, hi)
    requires Above(sep, LoOf(ks, lo, idx)) && Below(sep, HiOf(ks, hi, idx))
    ensures SepsOrdered(ks[..idx] + [sep] + ks[idx..], lo, hi)
  {
    var ks' := ks[..idx] + [sep] + ks[idx..];
    SplicedStrict(ks, idx, sep);
    assert ks' == InsertAt(ks, idx, sep);
    if idx > 0 { assert Above(ks[idx - 1], lo); }
    if idx < |ks| { assert Below(ks[idx], hi); }
    forall i | 0 <= i < |ks'|
      ensures Above(ks'[i], lo) && Below(ks'[i], hi)
    {
      assert ks'[i] == if i < idx then ks[i] else if i == idx then sep else ks[i - 1];
    }
  }

  lemma SpliceKid(ks: seq<int>, cs: seq<Tree>, idx: nat, l: Tree, sep: int, r: Tree,
                  lo: Option<int>, hi: Option<int>, i: nat)
    requires |cs| == |ks| + 1 && idx < |cs| && Wf(l) && Wf(r) && i < |cs| + 1
    requires forall j :: 0 <= j < |cs| ==> Wf(cs[j])
    requires KidsOrdered(ks, cs, lo, hi)
    requires Ordered(l, LoOf(ks, lo, idx), Some(sep)) && Ordered(r, Some(sep), HiOf(ks, hi, idx))
    ensures var ks' := ks[..idx] + [sep] + ks[idx..]; var cs' := cs[..idx] + [l, r] + cs[idx + 1..];
            Wf(cs'[i]) && Ordered(cs'[i], LoOf(ks', lo, i), HiOf(ks', hi, i))
  {
    var ks' := ks[..idx] + [sep] + ks[idx..];
    var cs' := cs[..idx] + [l, r] + cs[idx + 1..];
    if i < idx {
      assert cs'[i] == cs[i] && LoOf(ks', lo, i) == LoOf(ks, lo, i) && HiOf(ks', hi, i) == HiOf(ks, hi, i);
    } else if i == idx {
      assert cs'[i] == l && LoOf(ks', lo, i) == LoOf(ks, lo, idx) && HiOf(ks', hi, i) == Some(sep);
    } else if i == idx + 1 {
      assert cs'[i] == r && LoOf(ks', lo, i) == Some(sep) && HiOf(ks', hi, i) == HiOf(ks, hi, idx);
    } else {
      assert cs'[i] == cs[i - 1] && LoOf(ks', lo, i) == LoOf(ks, lo, i - 1)
          && HiOf(ks', hi, i) == HiOf(ks, hi, i - 1);
    }
  }

  lemma SpliceOrdered(t: Tree, idx: nat, l: Tree, sep: int, r: Tree, lo: Option<int>, hi: Option<int>)
    requires t.Inner? && Wf(t) && Ordered(t, lo, hi) && idx < |t.children| && Wf(l) && Wf(r)
    requires OutOrdered(Two(l, sep, r), LoOf(t.keys, lo, idx), HiOf(t.keys, hi, idx))
    ensures var u := SpliceNode(t, idx, l, sep, r); Wf(u) && Ordered(u, lo, hi)
  {
    var u := SpliceNode(t, idx, l, sep, r);
    SpliceForm(t, idx, l, sep, r);
    SpliceSeps(t.keys, idx, sep, lo, hi);
    forall i | 0 <= i < |u.children|
      ensures Wf(u.children[i])
      ensures Ordered(u.children[i], LoOf(u.keys, lo, i), HiOf(u.keys, hi, i))
    {
      SpliceKid(t.keys, t.children, idx, l, sep, r, lo, hi, i);
    }
  }

  lemma SplicedStrict(ks: seq<int>, idx: nat, sep: int)
    requires idx <= |ks| && Strict(ks)
    requires idx > 0 ==> ks[idx - 1] < sep
    requires idx < |ks| ==> sep < ks[idx]
    ensures Strict(InsertAt(ks, idx, sep))
  {
    var ks' := InsertAt(ks, idx, sep);
    forall i, j | 0 <= i < j < |ks'|
      ensures ks'[i] < ks'[j]
    {
      if j < idx { }
      else if i >= idx + 1 { assert ks'[i] == ks[i - 1] && ks'[j] == ks[j - 1]; }
      else {
        assert ks'[i] == if i < idx then ks[i] else sep;
        assert ks'[j] == if j == idx then sep else ks[j - 1];
        if i < idx { assert ks[i] <= ks[idx - 1]; }
        if j > idx { assert ks[idx] <= ks[j - 1]; }
      }
    }
  }

  lemma CutKids(ks: seq<int>, cs: seq<Tree>, s: nat, lo: Option<int>, hi: Option<int>)
    requires |cs| == |ks| + 1 && s < |ks| && forall i :: 0 <= i < |cs| ==> Wf(cs[i])
    requires KidsOrdered(ks, cs, lo, hi)
    ensures KidsOrdered(ks[..s], cs[..s + 1], lo, Some(ks[s]))
    ensures KidsOrdered(ks[s + 1..], cs[s + 1..], Some(ks[s]), hi)
  {
    var kl, cl := ks[..s], cs[..s + 1];
    forall i | 0 <= i < |cl|
      ensures Ordered(cl[i], LoOf(kl, lo, i), HiOf(kl, Some(ks[s]), i))
    {
      assert cl[i] == cs[i] && LoOf(kl, lo, i) == LoOf(ks, lo, i) && HiOf(kl, Some(ks[s]), i) == HiOf(ks, hi, i);
    }
    CutKidsRight(ks, cs, s, lo, hi);
  }

  lemma CutKidsRight(ks: seq<int>, cs: seq<Tree>, s: nat, lo: Option<int>, hi: Option<int>)
    requires |cs| == |ks| + 1 && s < |ks| && forall i :: 0 <= i < |cs| ==> Wf(cs[i])
    requires KidsOrdered(ks, cs, lo, hi)
    ensures KidsOrdered(ks[s + 1..], cs[s + 1..], Some(ks[s]), hi)
  {
    var kr, cr := ks[s + 1..], cs[s + 1..];
    forall i | 0 <= i < |cr|
      ensures Ordered(cr[i], LoOf(kr, Some(ks[s]), i), HiOf(kr, hi, i))
    {
      var j := s + 1 + i;
      assert cr[i] == cs[j] && LoOf(kr, Some(ks[s]), i) == LoOf(ks, lo, j) && HiOf(kr, hi, i) == HiOf(ks, hi, j);
    }
  }

  lemma CutSeps(ks: seq<int>, s: nat, lo: Option<int>, hi: Option<int>)
    requires s < |ks| && SepsOrdered(ks, lo, hi)
    ensures SepsOrdered(ks[..s], lo, Some(ks[s])) && SepsOrdered(ks[s + 1..], Some(ks[s]), hi)
  {
  }

  /** Cutting an ordered node at one of its separators. */
  lemma CutOrdered(t: Tree, f: int, lo: Option<int>, hi: Option<int>)
    requires t.Inner? && Wf(t) && Ordered(t, lo, hi)
    ensures WfOut(CutNode(t, f)) && OutOrdered(CutNode(t, f), lo, hi)
  {
    if |t.keys| > MAX_KEYS {
      CutKids(t.keys, t.children, |t.keys| / 2, lo, hi);
      CutSeps(t.keys, |t.keys| / 2, lo, hi);
    }
  }

  lemma ReplaceOrdered(t: Tree, idx: nat, c: Tree, lo: Option<int>, hi: Option<int>)
    requires t.Inner? && Wf(t) && Ordered(t, lo, hi) && idx < |t.children| && Wf(c)
    requires Ordered(c, LoOf(t.keys, lo, idx), HiOf(t.keys, hi, idx))
    ensures var u := Inner(t.page, t.keys, t.children[idx := c]); Wf(u) && Ordered(u, lo, hi)
  {
    var u := Inner(t.page, t.keys, t.children[idx := c]);
    forall i | 0 <= i < |u.children|
      ensures Wf(u.children[i]) && Ordered(u.children[i], LoOf(u.keys, lo, i), HiOf(u.keys, hi, i))
    {
      assert u.children[i] == if i == idx then c else t.children[i];
    }
  }

  lemma {:induction false} InsertOrdered(t: Tree, k: int, v: RecordID, f: int, lo: Option<int>, hi: Option<int>)
    requires Wf(t) && Ordered(t, lo, hi) && AtLeast(k, lo) && Below(k, hi)
    ensures WfOut(InsertT(t, k, v, f).0) && OutOrdered(InsertT(t, k, v, f).0, lo, hi)
    decreases t
  {
    match t
    case Leaf(_, _, _, _) => LeafInsertOrdered(t, k, v, f, lo, hi);
    case Inner(p, ks, cs) =>
      var idx := UpperBound(ks, k);
      ChildRange(ks, k, lo, hi);
      InsertOrdered(cs[idx], k, v, f, LoOf(ks, lo, idx), HiOf(ks, hi, idx));
      var (res, f') := InsertT(cs[idx], k, v, f);
      match res {
        case One(c) => ReplaceOrdered(t, idx, c, lo, hi);
        case Two(l, sep, r) =>
          SpliceOrdered(t, idx, l, sep, r, lo, hi);
          CutOrdered(SpliceNode(t, idx, l, sep, r), f', lo, hi);
      }
  }

  // ---------- depth and size ----------

  ghost predicate KidsShape(cs: seq<Tree>, h: nat) {
    forall i :: 0 <= i < |cs| ==> Shape(cs[i], h)
  }

  lemma SpliceShape(t: Tree, idx: nat, l: Tree, sep: int, r: Tree, f: int, h: nat)
    requires t.Inner? && Wf(t) && Shape(t, h) && h > 0 && idx < |t.children|
    requires Shape(l, h - 1) && Shape(r, h - 1)
    ensures OutShape(CutNode(SpliceNode(t, idx, l, sep, r), f), h)
  {
    var u := SpliceNode(t, idx, l, sep, r);
    assert KidsShape(t.children, h - 1) && KidsShape(t.children[idx := l], h - 1);
    assert KidsShape(u.children, h - 1);
    var s := |u.keys| / 2;
    assert KidsShape(u.children[..s + 1], h - 1) && KidsShape(u.children[s + 1..], h - 1);
  }

  lemma {:induction false} InsertShape(t: Tree, k: int, v: RecordID, f: int, h: nat)
    requires Wf(t) && Shape(t, h)
    ensures OutShape(InsertT(t, k, v, f).0, h)
    decreases t
  {
    match t
    case Leaf(_, _, _, _) =>
    case Inner(p, ks, cs) =>
      var idx := UpperBound(ks, k);
      InsertShape(cs[idx], k, v, f, h - 1);
      var (res, f') := InsertT(cs[idx], k, v, f);
      if res.Two? { SpliceShape(t, idx, res.left, res.sep, res.right, f', h); }
  }

  // ---------- leaves and pages ----------

  lemma LeavesSplice(cs: seq<Tree>, idx: nat, mid: seq<Tree>)
    requires idx < |cs|
    ensures LeavesAll(cs[..idx] + mid + cs[idx + 1..])
         == LeavesAll(cs[..idx]) + LeavesAll(mid) + LeavesAll(cs[idx + 1..])
  {
    LeavesAllAppend(cs[..idx] + mid, cs[idx + 1..]);
    LeavesAllAppend(cs[..idx], mid);
  }

  lemma LeavesPair(l: Tree, r: Tree)
    ensures LeavesAll([l, r]) == Leaves(l) + Leaves(r)
    ensures LeavesAll([l]) == Leaves(l)
  {
    assert [l, r][1..] == [r] && [r][1..] == [] && [l][1..] == [];
    assert LeavesAll([r]) == Leaves(r) + LeavesAll([]);
    assert LeavesAll([l]) == Leaves(l) + LeavesAll([]);
    assert LeavesAll([l, r]) == Leaves(l) + LeavesAll([r]);
  }

  lemma ReachPair(l: Tree, r: Tree, p: int)
    ensures ReachAll([l, r], p) == Reach(l, p) + Reach(r, p)
    ensures ReachAll([l], p) == Reach(l, p)
  {
    assert [l, r][1..] == [r] && [r][1..] == [] && [l][1..] == [];
    assert ReachAll([r], p) == Reach(r, p) + ReachAll([], p);
    assert ReachAll([l], p) == Reach(l, p) + ReachAll([], p);
    assert ReachAll([l, r], p) == Reach(l, p) + ReachAll([r], p);
  }

  lemma Regroup(a: seq<Tree>, pre: seq<Tree>, mid: seq<Tree>, post: seq<Tree>, b: seq<Tree>)
    ensures a + (pre + mid + post) + b == (a + pre) + mid + (post + b)
  {
  }

  lemma {:induction false} RouteLeaves(t: Tree, k: int)
    requires Wf(t)
    ensures Leaves(t) == Route(t, k).0 + [Route(t, k).1] + Route(t, k).2
    decreases t
  {
    if t.Inner? {
      var idx := UpperBound(t.keys, k);
      RouteLeaves(t.children[idx], k);
      LeavesAround(t.children, idx);
      var r := Route(t.children[idx], k);
      Regroup(LeavesAll(t.children[..idx]), r.0, [r.1], r.2, LeavesAll(t.children[idx + 1..]));
    }
  }

  lemma ReplaceLeaves(t: Tree, idx: nat, c: Tree)
    requires t.Inner? && idx < |t.children|
    ensures Leaves(Inner(t.page, t.keys, t.children[idx := c]))
         == LeavesAll(t.children[..idx]) + Leaves(c) + LeavesAll(t.children[idx + 1..])
  {
    var cs := t.children;
    assert cs[idx := c] == cs[..idx] + [c] + cs[idx + 1..];
    LeavesSplice(cs, idx, [c]);
    LeavesPair(c, c);
  }

  lemma SpliceLeaves(t: Tree, idx: nat, l: Tree, sep: int, r: Tree)
    requires t.Inner? && |t.children| == |t.keys| + 1 && idx < |t.children| && Strict(t.keys)
    requires Above(sep, LoOf(t.keys, None, idx)) && Below(sep, HiOf(t.keys, None, idx))
    ensures Leaves(SpliceNode(t, idx, l, sep, r))
         == LeavesAll(t.children[..idx]) + (Leaves(l) + Leaves(r)) + LeavesAll(t.children[idx + 1..])
  {
    SpliceForm(t, idx, l, sep, r);
    LeavesSplice(t.children, idx, [l, r]);
    LeavesPair(l, r);
  }

  lemma CutLeaves(t: Tree, f: int)
    requires t.Inner? && |t.children| == |t.keys| + 1
    ensures OutLeaves(CutNode(t, f)) == Leaves(t)
  {
    if |t.keys| > MAX_KEYS {
      var a, b := t.children[..|t.keys| / 2 + 1], t.children[|t.keys| / 2 + 1..];
      assert t.children == a + b;
      LeavesAllAppend(a, b);
    }
  }

  /** Inserting changes the list of leaves only where the key is routed to. */
  lemma {:induction false} InsertLeaves(t: Tree, k: int, v: RecordID, f: int, lo: Option<int>, hi: Option<int>)
    requires Wf(t) && Ordered(t, lo, hi) && AtLeast(k, lo) && Below(k, hi)
    ensures Wf(Route(t, k).1)
    ensures OutLeaves(InsertT(t, k, v, f).0)
         == Route(t, k).0 + OutLeaves(InsertLeaf(Route(t, k).1, k, v, f)) + Route(t, k).2
    decreases t
  {
    if t.Inner? {
      hide InsertT, InsertLeaf, OutLeaves, Route, Ordered, Wf, LeavesAll, LoOf, HiOf, UpperBound, AtLeast, Below;
      ChildOrdered(t, k, lo, hi);
      var idx := UpperBound(t.keys, k);
      InsertLeaves(t.children[idx], k, v, f, LoOf(t.keys, lo, idx), HiOf(t.keys, hi, idx));
      InsertLeavesInner(t, k, v, f, lo, hi);
    }
  }

  lemma InsertLeavesInner(t: Tree, k: int, v: RecordID, f: int, lo: Option<int>, hi: Option<int>)
    requires t.Inner? && Wf(t) && Ordered(t, lo, hi) && AtLeast(k, lo) && Below(k, hi)
    requires UpperBound(t.keys, k) < |t.children|
    requires var c := t.children[UpperBound(t.keys, k)];
             Wf(c) && Wf(Route(c, k).1)
             && OutLeaves(InsertT(c, k, v, f).0)
             == Route(c, k).0 + OutLeaves(InsertLeaf(Route(c, k).1, k, v, f)) + Route(c, k).2
    ensures Wf(Route(t, k).1)
    ensures OutLeaves(InsertT(t, k, v, f).0)
         == Route(t, k).0 + OutLeaves(InsertLeaf(Route(t, k).1, k, v, f)) + Route(t, k).2
  {
    hide InsertT, InsertLeaf, OutLeaves, Route, Ordered, LeavesAll, UpperBound;
    var idx := UpperBound(t.keys, k);
    var r := Route(t.children[idx], k);
    RouteInner(t, k);
    InsertLeavesStep(t, k, v, f, lo, hi);
    Regroup(LeavesAll(t.children[..idx]), r.0, OutLeaves(InsertLeaf(r.1, k, v, f)), r.2,
            LeavesAll(t.children[idx + 1..]));
  }

  lemma ChildOrdered(t: Tree, k: int, lo: Option<int>, hi: Option<int>)
    requires t.Inner? && Wf(t) && Ordered(t, lo, hi) && AtLeast(k, lo) && Below(k, hi)
    ensures var idx := UpperBound(t.keys, k); var l, h := LoOf(t.keys, lo, idx), HiOf(t.keys, hi, idx);
            idx < |t.children| && Wf(t.children[idx]) && Ordered(t.children[idx], l, h) && AtLeast(k, l) && Below(k, h)
    ensures Strict(t.keys)
  {
    ChildRange(t.keys, k, lo, hi);
  }

  lemma RouteInner(t: Tree, k: int)
    requires t.Inner? && Wf(t)
    ensures var idx := UpperBound(t.keys, k); var r := Route(t.children[idx], k);
            Route(t, k) == (LeavesAll(t.children[..idx]) + r.0, r.1, r.2 + LeavesAll(t.children[idx + 1..]))
  {
  }

  lemma InsertInner(t: Tree, k: int, v: RecordID, f: int)
    requires t.Inner? && Wf(t)
    ensures var idx := UpperBound(t.keys, k); var o := InsertT(t.children[idx], k, v, f);
            InsertT(t, k, v, f).0 == match o.0
              case One(c) => One(Inner(t.page, t.keys, t.children[idx := c]))
              case Two(l, sep, r) => CutNode(SpliceNode(t, idx, l, sep, r), o.1)
  {
  }

  lemma InsertLeavesStep(t: Tree, k: int, v: RecordID, f: int, lo: Option<int>, hi: Option<int>)
    requires t.Inner? && Wf(t) && Ordered(t, lo, hi) && AtLeast(k, lo) && Below(k, hi)
    ensures var idx := UpperBound(t.keys, k);
            OutLeaves(InsertT(t, k, v, f).0)
            == LeavesAll(t.children[..idx]) + OutLeaves(InsertT(t.children[idx], k, v, f).0)
               + LeavesAll(t.children[idx + 1..])
  {
    hide InsertT, Ordered, SpliceNode, CutNode, LeavesAll;
    var ks, idx := t.keys, UpperBound(t.keys, k);
    ChildOrdered(t, k, lo, hi);
    ChildRange(ks, k, lo, hi);
    InsertOrdered(t.children[idx], k, v, f, LoOf(ks, lo, idx), HiOf(ks, hi, idx));
    InsertInner(t, k, v, f);
    var (res, f') := InsertT(t.children[idx], k, v, f);
    match res
    case One(c) => ReplaceLeaves(t, idx, c);
    case Two(l, sep, r) =>
      SpliceLeaves(t, idx, l, sep, r);
      SpliceForm(t, idx, l, sep, r);
      CutLeaves(SpliceNode(t, idx, l, sep, r), f');
  }

  lemma ReachSplice(cs: seq<Tree>, idx: nat, mid: seq<Tree>, p: int)
    requires idx < |cs|
    ensures ReachAll(cs[..idx] + mid + cs[idx + 1..], p) + Reach(cs[idx], p) == ReachAll(cs, p) + ReachAll(mid, p)
  {
    ReachAllAppend(cs[..idx] + mid, cs[idx + 1..], p);
    ReachAllAppend(cs[..idx], mid, p);
    ReachAround(cs, idx, p);
  }

  lemma ReplaceReach(t: Tree, idx: nat, c: Tree, p: int)
    requires t.Inner? && idx < |t.children|
    ensures Reach(Inner(t.page, t.keys, t.children[idx := c]), p) + Reach(t.children[idx], p)
         == Reach(t, p) + Reach(c, p)
  {
    var cs := t.children;
    assert cs[idx := c] == cs[..idx] + [c] + cs[idx + 1..];
    ReachSplice(cs, idx, [c], p);
    ReachPair(c, c, p);
  }

  lemma SpliceReach(t: Tree, idx: nat, l: Tree, sep: int, r: Tree, p: int)
    requires t.Inner? && |t.children| == |t.keys| + 1 && idx < |t.children| && Strict(t.keys)
    requires Above(sep, LoOf(t.keys, None, idx)) && Below(sep, HiOf(t.keys, None, idx))
    ensures Reach(SpliceNode(t, idx, l, sep, r), p) + Reach(t.children[idx], p)
         == Reach(t, p) + Reach(l, p) + Reach(r, p)
  {
    SpliceForm(t, idx, l, sep, r);
    ReachSplice(t.children, idx, [l, r], p);
    ReachPair(l, r, p);
  }

  lemma CutReach(t: Tree, f: int, p: int)
    requires t.Inner? && |t.children| == |t.keys| + 1
    ensures OutReach(CutNode(t, f), p) == Reach(t, p) + if CutNode(t, f).Two? && p == f then 1 else 0
  {
    if |t.keys| > MAX_KEYS {
      var a, b := t.children[..|t.keys| / 2 + 1], t.children[|t.keys| / 2 + 1..];
      assert t.children == a + b;
      ReachAllAppend(a, b, p);
    }
  }

  /** Insertion reaches every page as often as before, and each newly allocated page once. */
  lemma {:induction false} InsertReach(t: Tree, k: int, v: RecordID, f: int, lo: Option<int>, hi: Option<int>, p: int)
    requires Wf(t) && Ordered(t, lo, hi) && AtLeast(k, lo) && Below(k, hi)
    ensures f <= InsertT(t, k, v, f).1
    ensures OutReach(InsertT(t, k, v, f).0, p) == Reach(t, p) + if f <= p < InsertT(t, k, v, f).1 then 1 else 0
    decreases t
  {
    match t
    case Leaf(_, _, _, _) =>
    case Inner(_, ks, cs) =>
      var idx := UpperBound(ks, k);
      ChildRange(ks, k, lo, hi);
      InsertReach(cs[idx], k, v, f, LoOf(ks, lo, idx), HiOf(ks, hi, idx), p);
      InsertOrdered(cs[idx], k, v, f, LoOf(ks, lo, idx), HiOf(ks, hi, idx));
      var (res, f') := InsertT(cs[idx], k, v, f);
      match res {
        case One(c) => ReplaceReach(t, idx, c, p);
        case Two(l, sep, r) =>
          SpliceReach(t, idx, l, sep, r, p);
          CutReach(SpliceNode(t, idx, l, sep, r), f', p);
      }
  }
}
