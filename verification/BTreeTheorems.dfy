/** The B+ tree agrees with a plain map, whatever is inserted and removed. */
module BTreeTheorems {
  import opened Common
  import opened BTreeSpec
  import opened BTreeProofs

  // ---------- entries in key order ----------

  ghost predicate LtAll(es: seq<Entry>, k: int) { forall i :: 0 <= i < |es| ==> es[i].0 < k }

  ghost predicate GtAll(es: seq<Entry>, k: int) { forall i :: 0 <= i < |es| ==> k < es[i].0 }

  /** Entries in strictly ascending key order, all keys in [lo, hi). */
  ghost predicate SortedIn(es: seq<Entry>, lo: Option<int>, hi: Option<int>) {
    (forall i, j :: 0 <= i < j < |es| ==> es[i].0 < es[j].0)
    && forall i :: 0 <= i < |es| ==> AtLeast(es[i].0, lo) && Below(es[i].0, hi)
  }

  lemma SortedAppend(a: seq<Entry>, b: seq<Entry>, lo: Option<int>, m: int, hi: Option<int>)
    requires SortedIn(a, lo, Some(m)) && SortedIn(b, Some(m), hi)
    requires AtLeast(m, lo) && Below(m, hi)
    ensures SortedIn(a + b, lo, hi)
  {
  }

  lemma FlatOne(t: Tree)
    requires t.Leaf? && Wf(t)
    ensures LeafList([t]) && Flat([t]) == Zip(t.keys, t.values)
  {
    assert [t][1..] == [];
    assert Flat([t]) == Zip(t.keys, t.values) + Flat([]);
  }

  /** The entries below an ordered node are in order and inside its range. */
  lemma {:induction false} LeavesSorted(t: Tree, lo: Option<int>, hi: Option<int>)
    requires Wf(t) && Ordered(t, lo, hi)
    ensures LeafList(Leaves(t)) && SortedIn(Flat(Leaves(t)), lo, hi)
    decreases t, 1
  {
    LeavesWf(t);
    match t
    case Leaf(_, _, _, _) => FlatOne(t);
    case Inner(_, ks, cs) =>
      KidsSorted(ks, cs, lo, hi, 0, |cs|);
      assert cs[0..|cs|] == cs;
  }

  lemma {:induction false} KidsSorted(ks: seq<int>, cs: seq<Tree>, lo: Option<int>, hi: Option<int>, i: nat, j: nat)
    requires |cs| == |ks| + 1 && i < j <= |cs|
    requires forall n :: 0 <= n < |cs| ==> Wf(cs[n])
    requires SepsOrdered(ks, lo, hi) && KidsOrdered(ks, cs, lo, hi)
    ensures LeafList(LeavesAll(cs[i..j]))
    ensures SortedIn(Flat(LeavesAll(cs[i..j])), LoOf(ks, lo, i), HiOf(ks, hi, j - 1))
    decreases cs, 0, j
  {
    LeavesSorted(cs[j - 1], LoOf(ks, lo, j - 1), HiOf(ks, hi, j - 1));
    if i == j - 1 {
      assert cs[i..j] == [cs[i]];
      LeavesPair(cs[i], cs[i]);
    } else {
      KidsSorted(ks, cs, lo, hi, i, j - 1);
      KidsJoin(ks, cs, lo, hi, i, j);
    }
  }

  lemma KidsJoin(ks: seq<int>, cs: seq<Tree>, lo: Option<int>, hi: Option<int>, i: nat, j: nat)
    requires |cs| == |ks| + 1 && i < j - 1 && j <= |cs| && SepsOrdered(ks, lo, hi)
    requires LeafList(LeavesAll(cs[i..j - 1])) && LeafList(Leaves(cs[j - 1]))
    requires SortedIn(Flat(LeavesAll(cs[i..j - 1])), LoOf(ks, lo, i), HiOf(ks, hi, j - 2))
    requires SortedIn(Flat(Leaves(cs[j - 1])), LoOf(ks, lo, j - 1), HiOf(ks, hi, j - 1))
    ensures LeafList(LeavesAll(cs[i..j]))
    ensures SortedIn(Flat(LeavesAll(cs[i..j])), LoOf(ks, lo, i), HiOf(ks, hi, j - 1))
  {
    FlatLast(cs, i, j);
    SepBetween(ks, lo, hi, i, j);
    SortedAppend(Flat(LeavesAll(cs[i..j - 1])), Flat(Leaves(cs[j - 1])),
                 LoOf(ks, lo, i), ks[j - 2], HiOf(ks, hi, j - 1));
  }

  lemma FlatLast(cs: seq<Tree>, i: nat, j: nat)
    requires i < j - 1 && j <= |cs|
    requires LeafList(LeavesAll(cs[i..j - 1])) && LeafList(Leaves(cs[j - 1]))
    ensures LeafList(LeavesAll(cs[i..j]))
    ensures Flat(LeavesAll(cs[i..j])) == Flat(LeavesAll(cs[i..j - 1])) + Flat(Leaves(cs[j - 1]))
  {
    assert cs[i..j] == cs[i..j - 1] + [cs[j - 1]];
    LeavesAllAppend(cs[i..j - 1], [cs[j - 1]]);
    LeavesPair(cs[j - 1], cs[j - 1]);
    FlatAppend(LeavesAll(cs[i..j - 1]), Leaves(cs[j - 1]));
  }

  lemma SepBetween(ks: seq<int>, lo: Option<int>, hi: Option<int>, i: nat, j: nat)
    requires i < j - 1 && j <= |ks| + 1 && SepsOrdered(ks, lo, hi)
    ensures AtLeast(ks[j - 2], LoOf(ks, lo, i)) && Below(ks[j - 2], HiOf(ks, hi, j - 1))
  {
    if i > 0 { assert ks[i - 1] < ks[j - 2]; }
  }

  lemma LeftSiblings(ks: seq<int>, cs: seq<Tree>, k: int, lo: Option<int>, hi: Option<int>)
    requires |cs| == |ks| + 1 && forall n :: 0 <= n < |cs| ==> Wf(cs[n])
    requires SepsOrdered(ks, lo, hi) && KidsOrdered(ks, cs, lo, hi)
    ensures var a := LeavesAll(cs[..UpperBound(ks, k)]); LeafList(a) && LtAll(Flat(a), k)
  {
    var idx := UpperBound(ks, k);
    if idx > 0 {
      KidsSorted(ks, cs, lo, hi, 0, idx);
      assert cs[0..idx] == cs[..idx];
      assert HiOf(ks, hi, idx - 1) == Some(ks[idx - 1]);
    }
  }

  lemma RightSiblings(ks: seq<int>, cs: seq<Tree>, k: int, lo: Option<int>, hi: Option<int>)
    requires |cs| == |ks| + 1 && forall n :: 0 <= n < |cs| ==> Wf(cs[n])
    requires SepsOrdered(ks, lo, hi) && KidsOrdered(ks, cs, lo, hi)
    ensures var b := LeavesAll(cs[UpperBound(ks, k) + 1..]); LeafList(b) && GtAll(Flat(b), k)
  {
    var idx := UpperBound(ks, k);
    if idx < |ks| {
      KidsSorted(ks, cs, lo, hi, idx + 1, |cs|);
      assert cs[idx + 1..|cs|] == cs[idx + 1..];
      assert LoOf(ks, lo, idx + 1) == Some(ks[idx]);
    }
  }

  lemma SidesAppend(a: seq<Tree>, b: seq<Tree>, k: int)
    requires LeafList(a) && LeafList(b)
    ensures LeafList(a + b)
    ensures LtAll(Flat(a), k) && LtAll(Flat(b), k) ==> LtAll(Flat(a + b), k)
    ensures GtAll(Flat(a), k) && GtAll(Flat(b), k) ==> GtAll(Flat(a + b), k)
  {
    FlatAppend(a, b);
  }

  /** Everything left of the routed leaf is below the key, everything right of it above. */
  lemma {:induction false} RouteOrder(t: Tree, k: int, lo: Option<int>, hi: Option<int>)
    requires Wf(t) && Ordered(t, lo, hi) && AtLeast(k, lo) && Below(k, hi)
    ensures LeafList(Route(t, k).0) && LeafList(Route(t, k).2)
    ensures Wf(Route(t, k).1) && Strict(Route(t, k).1.keys)
    ensures LtAll(Flat(Route(t, k).0), k) && GtAll(Flat(Route(t, k).2), k)
    decreases t
  {
    match t
    case Leaf(_, _, _, _) =>
    case Inner(_, ks, cs) =>
      var idx := UpperBound(ks, k);
      ChildRange(ks, k, lo, hi);
      RouteOrder(cs[idx], k, LoOf(ks, lo, idx), HiOf(ks, hi, idx));
      LeftSiblings(ks, cs, k, lo, hi);
      RightSiblings(ks, cs, k, lo, hi);
      SidesAppend(LeavesAll(cs[..idx]), Route(cs[idx], k).0, k);
      SidesAppend(Route(cs[idx], k).2, LeavesAll(cs[idx + 1..]), k);
  }

  // ---------- contents ----------

  ghost function Contents(t: Tree): map<int, RecordID>
    requires Wf(t)
  {
    LeavesWf(t);
    MapOf(Flat(Leaves(t)))
  }

  lemma ValThree(a: seq<Entry>, b: seq<Entry>, c: seq<Entry>, k: int)
    ensures Val(a + b + c, k)
         == if Val(c, k).Some? then Val(c, k) else if Val(b, k).Some? then Val(b, k) else Val(a, k)
  {
    ValAppend(a + b, c, k);
    ValAppend(a, b, k);
  }

  lemma FlatThree(pre: seq<Tree>, mid: seq<Tree>, post: seq<Tree>)
    requires LeafList(pre) && LeafList(mid) && LeafList(post)
    ensures LeafList(pre + mid + post)
    ensures Flat(pre + mid + post) == Flat(pre) + Flat(mid) + Flat(post)
  {
    FlatAppend(pre, mid);
    FlatAppend(pre + mid, post);
  }

  lemma FlatTwo(l: Tree, r: Tree)
    requires l.Leaf? && Wf(l) && r.Leaf? && Wf(r)
    ensures LeafList([l] + [r]) && Flat([l] + [r]) == Zip(l.keys, l.values) + Zip(r.keys, r.values)
  {
    FlatOne(l);
    FlatOne(r);
    FlatAppend([l], [r]);
  }

  lemma LeafUpdateEntries(t: Tree, k: int, v: RecordID, f: int)
    requires t.Leaf? && Wf(t)
    requires LowerBound(t.keys, k) < |t.keys| && t.keys[LowerBound(t.keys, k)] == k
    ensures var pos := LowerBound(t.keys, k); var es := Zip(t.keys, t.values);
            LeafList(OutLeaves(InsertLeaf(t, k, v, f)))
            && Flat(OutLeaves(InsertLeaf(t, k, v, f))) == es[..pos] + [(k, v)] + es[pos + 1..]
  {
    var pos := LowerBound(t.keys, k);
    FlatOne(InsertLeaf(t, k, v, f).tree);
    var a, b := Zip(t.keys, t.values[pos := v]), Zip(t.keys, t.values);
    assert a == b[..pos] + [(k, v)] + b[pos + 1..];
  }

  lemma LeafAddEntries(t: Tree, k: int, v: RecordID, f: int)
    requires t.Leaf? && Wf(t)
    requires !(LowerBound(t.keys, k) < |t.keys| && t.keys[LowerBound(t.keys, k)] == k)
    ensures var pos := LowerBound(t.keys, k); var es := Zip(t.keys, t.values);
            LeafList(OutLeaves(InsertLeaf(t, k, v, f)))
            && Flat(OutLeaves(InsertLeaf(t, k, v, f))) == es[..pos] + [(k, v)] + es[pos..]
  {
    var pos := LowerBound(t.keys, k);
    var o := InsertLeaf(t, k, v, f);
    var ks, vs := InsertAt(t.keys, pos, k), InsertAt(t.values, pos, v);
    ZipInsert(t.keys, t.values, pos, k, v);
    if o.One? {
      FlatOne(o.tree);
    } else {
      FlatTwo(o.left, o.right);
      ZipCut(ks, vs, |ks| / 2);
    }
  }

  lemma ZipCut(ks: seq<int>, vs: seq<RecordID>, s: nat)
    requires |ks| == |vs| && s <= |ks|
    ensures Zip(ks[..s], vs[..s]) + Zip(ks[s..], vs[s..]) == Zip(ks, vs)
  {
  }

  lemma ZipInsert(ks: seq<int>, vs: seq<RecordID>, pos: nat, k: int, v: RecordID)
    requires |ks| == |vs| && pos <= |ks|
    ensures Zip(InsertAt(ks, pos, k), InsertAt(vs, pos, v)) == Zip(ks, vs)[..pos] + [(k, v)] + Zip(ks, vs)[pos..]
  {
  }

  lemma ZipAbove(ks: seq<int>, vs: seq<RecordID>, pos: nat, k: int)
    requires |ks| == |vs| && pos <= |ks| && Strict(ks)
    requires pos < |ks| ==> k < ks[pos]
    ensures GtAll(Zip(ks, vs)[pos..], k)
  {
    forall i | 0 <= i < |ks| - pos
      ensures k < Zip(ks, vs)[pos..][i].0
    {
      assert ks[pos] <= ks[pos + i];
    }
  }

  /** a + [e] + b, where b does not mention the key of e. */
  lemma ValMid(a: seq<Entry>, e: Entry, b: seq<Entry>, j: int)
    requires GtAll(b, e.0)
    ensures Val(a + [e] + b, j) == if j == e.0 then Some(e.1) else Val(a + b, j)
  {
    ValThree(a, [e], b, j);
    ValAppend(a, b, j);
    ValNone(b, e.0);
    assert [e][..0] == [];
  }

  /** The entries of a sorted leaf around the place where k belongs. */
  lemma LeafAround(t: Tree, k: int)
    requires t.Leaf? && Wf(t) && Strict(t.keys)
    ensures var pos := LowerBound(t.keys, k); var es := Zip(t.keys, t.values);
            Val(es[..pos], k) == None
            && if pos < |t.keys| && t.keys[pos] == k
               then es == es[..pos] + [(k, t.values[pos])] + es[pos + 1..] && GtAll(es[pos + 1..], k)
               else es == es[..pos] + es[pos..] && GtAll(es[pos..], k)
  {
    var pos, es := LowerBound(t.keys, k), Zip(t.keys, t.values);
    LeafBelow(t, k);
    if pos < |t.keys| && t.keys[pos] == k {
      ZipAbove(t.keys, t.values, pos + 1, k);
      Around(es, pos);
    } else {
      ZipAbove(t.keys, t.values, pos, k);
      Cut(es, pos);
    }
  }

  lemma Cut(es: seq<Entry>, pos: nat)
    requires pos <= |es|
    ensures es == es[..pos] + es[pos..]
  {
  }

  lemma Around(es: seq<Entry>, pos: nat)
    requires pos < |es|
    ensures es == es[..pos] + [es[pos]] + es[pos + 1..]
  {
  }

  lemma LeafBelow(t: Tree, k: int)
    requires t.Leaf? && Wf(t)
    ensures Val(Zip(t.keys, t.values)[..LowerBound(t.keys, k)], k) == None
  {
    var below := Zip(t.keys, t.values)[..LowerBound(t.keys, k)];
    forall i | 0 <= i < |below|
      ensures below[i].0 != k
    {
      assert t.keys[i] < k;
    }
    ValNone(below, k);
  }

  lemma LeafInsertVal(t: Tree, k: int, v: RecordID, f: int, j: int)
    requires t.Leaf? && Wf(t) && Strict(t.keys)
    ensures LeafList(OutLeaves(InsertLeaf(t, k, v, f)))
    ensures Val(Flat(OutLeaves(InsertLeaf(t, k, v, f))), j)
         == if j == k then Some(v) else Val(Zip(t.keys, t.values), j)
  {
    var pos, es := LowerBound(t.keys, k), Zip(t.keys, t.values);
    LeafAround(t, k);
    if pos < |t.keys| && t.keys[pos] == k {
      LeafUpdateEntries(t, k, v, f);
      ValMid(es[..pos], (k, v), es[pos + 1..], j);
      ValMid(es[..pos], (k, t.values[pos]), es[pos + 1..], j);
    } else {
      LeafAddEntries(t, k, v, f);
      ValMid(es[..pos], (k, v), es[pos..], j);
    }
  }

  lemma ValSides(a: seq<Entry>, b: seq<Entry>, k: int)
    requires Val(a, k) == None && GtAll(b, k)
    ensures Val(a + b, k) == None
  {
    ValAppend(a, b, k);
    ValNone(b, k);
  }

  lemma LeafRemoveEntries(t: Tree, k: int)
    requires t.Leaf? && Wf(t)
    requires LowerBound(t.keys, k) < |t.keys| && t.keys[LowerBound(t.keys, k)] == k
    ensures Wf(RemoveLeaf(t, k))
    ensures var pos := LowerBound(t.keys, k); var es := Zip(t.keys, t.values);
            Zip(RemoveLeaf(t, k).keys, RemoveLeaf(t, k).values) == es[..pos] + es[pos + 1..]
  {
    var pos, es := LowerBound(t.keys, k), Zip(t.keys, t.values);
    var a, b := Zip(RemoveLeaf(t, k).keys, RemoveLeaf(t, k).values), es[..pos] + es[pos + 1..];
    assert |a| == |b| && forall i :: 0 <= i < |a| ==> a[i] == b[i];
  }

  lemma LeafRemoveVal(t: Tree, k: int, j: int)
    requires t.Leaf? && Wf(t) && Strict(t.keys)
    ensures Wf(RemoveLeaf(t, k))
    ensures Val(Zip(RemoveLeaf(t, k).keys, RemoveLeaf(t, k).values), j)
         == if j == k then None else Val(Zip(t.keys, t.values), j)
  {
    var pos, es := LowerBound(t.keys, k), Zip(t.keys, t.values);
    LeafAround(t, k);
    if pos < |t.keys| && t.keys[pos] == k {
      LeafRemoveEntries(t, k);
      var a, b := es[..pos], es[pos + 1..];
      ValMid(a, (k, t.values[pos]), b, j);
      ValSides(a, b, k);
    } else {
      ValSides(es[..pos], es[pos..], k);
    }
  }

  /** What the whole tree says about key j, in terms of the leaf that k is routed to. */
  lemma ContentsAt(t: Tree, k: int, j: int)
    requires Wf(t) && Ordered(t, None, None)
    ensures var (pre, leaf, post) := Route(t, k);
            LeafList(pre) && LeafList(post) && Wf(leaf) && Strict(leaf.keys)
            && Get(Contents(t), j) == Val(Flat(pre) + Zip(leaf.keys, leaf.values) + Flat(post), j)
            && Val(Flat(pre), k) == None && Val(Flat(post), k) == None
  {
    var (pre, leaf, post) := Route(t, k);
    RouteOrder(t, k, None, None);
    RouteLeaves(t, k);
    LeavesWf(t);
    FlatOne(leaf);
    FlatThree(pre, [leaf], post);
    MapOfVal(Flat(Leaves(t)), j);
    ValNone(Flat(pre), k);
    ValNone(Flat(post), k);
  }

  lemma InsertContentsAt(t: Tree, k: int, v: RecordID, f: int, j: int)
    requires Wf(t) && Ordered(t, None, None)
    ensures LeafList(OutLeaves(InsertT(t, k, v, f).0))
    ensures Get(MapOf(Flat(OutLeaves(InsertT(t, k, v, f).0))), j) == Get(Contents(t)[k := v], j)
  {
    var (pre, leaf, post) := Route(t, k);
    ContentsAt(t, k, j);
    InsertLeaves(t, k, v, f, None, None);
    LeafInsertVal(leaf, k, v, f, j);
    var mid := OutLeaves(InsertLeaf(leaf, k, v, f));
    FlatThree(pre, mid, post);
    MapOfVal(Flat(pre + mid + post), j);
    ValThree(Flat(pre), Flat(mid), Flat(post), j);
    ValThree(Flat(pre), Zip(leaf.keys, leaf.values), Flat(post), j);
  }

  lemma SameMap(a: map<int, RecordID>, b: map<int, RecordID>)
    requires forall j :: Get(a, j) == Get(b, j)
    ensures a == b
  {
    forall j
      ensures j in a <==> j in b
    {
      assert Get(a, j) == Get(b, j);
    }
    forall j | j in a
      ensures a[j] == b[j]
    {
      assert Get(a, j) == Get(b, j);
    }
  }

  lemma InsertContents(t: Tree, k: int, v: RecordID, f: int)
    requires Wf(t) && Ordered(t, None, None)
    ensures LeafList(OutLeaves(InsertT(t, k, v, f).0))
    ensures MapOf(Flat(OutLeaves(InsertT(t, k, v, f).0))) == Contents(t)[k := v]
  {
    InsertContentsAt(t, k, v, f, k);
    var m := MapOf(Flat(OutLeaves(InsertT(t, k, v, f).0)));
    forall j
      ensures Get(m, j) == Get(Contents(t)[k := v], j)
    {
      InsertContentsAt(t, k, v, f, j);
    }
    SameMap(m, Contents(t)[k := v]);
  }

  // ---------- remove ----------

  lemma {:induction false} RemoveOrdered(t: Tree, k: int, lo: Option<int>, hi: Option<int>)
    requires Wf(t) && Ordered(t, lo, hi)
    ensures Wf(RemoveTree(t, k)) && Ordered(RemoveTree(t, k), lo, hi)
    decreases t
  {
    match t
    case Leaf(_, ks, vs, _) =>
      var u := RemoveLeaf(t, k);
      assert LeafOrdered(u.keys, lo, hi);
    case Inner(_, ks, cs) =>
      var idx := UpperBound(ks, k);
      RemoveOrdered(cs[idx], k, LoOf(ks, lo, idx), HiOf(ks, hi, idx));
      ReplaceOrdered(t, idx, RemoveTree(cs[idx], k), lo, hi);
  }

  lemma {:induction false} RemoveShape(t: Tree, k: int, h: nat)
    requires Wf(t) && Shape(t, h)
    ensures Shape(RemoveTree(t, k), h)
    decreases t
  {
    if t.Inner? { RemoveShape(t.children[UpperBound(t.keys, k)], k, h - 1); }
  }

  lemma {:induction false} RemoveReach(t: Tree, k: int, p: int)
    requires Wf(t)
    ensures Reach(RemoveTree(t, k), p) == Reach(t, p)
    decreases t
  {
    if t.Inner? {
      var idx := UpperBound(t.keys, k);
      RemoveReach(t.children[idx], k, p);
      ReplaceReach(t, idx, RemoveTree(t.children[idx], k), p);
    }
  }

  lemma {:induction false} RemoveLeaves(t: Tree, k: int)
    requires Wf(t)
    ensures Wf(Route(t, k).1)
    ensures Leaves(RemoveTree(t, k)) == Route(t, k).0 + [RemoveLeaf(Route(t, k).1, k)] + Route(t, k).2
    decreases t
  {
    match t
    case Leaf(_, _, _, _) =>
    case Inner(_, ks, cs) =>
      var idx := UpperBound(ks, k);
      RemoveLeaves(cs[idx], k);
      var (pre, leaf, post) := Route(cs[idx], k);
      Regroup(LeavesAll(cs[..idx]), pre, [RemoveLeaf(leaf, k)], post, LeavesAll(cs[idx + 1..]));
      ReplaceLeaves(t, idx, RemoveTree(cs[idx], k));
  }

  lemma RemoveContentsAt(t: Tree, k: int, j: int)
    requires Wf(t) && Ordered(t, None, None)
    ensures Wf(RemoveTree(t, k)) && Get(Contents(RemoveTree(t, k)), j) == Get(Contents(t) - {k}, j)
  {
    hide Wf, Ordered, RemoveTree, Route, Zip, Val;
    var (pre, leaf, post) := Route(t, k);
    ContentsAt(t, k, j);
    RemoveLeaves(t, k);
    RemoveOrdered(t, k, None, None);
    LeafRemoveVal(leaf, k, j);
    var u := RemoveLeaf(leaf, k);
    LeavesWf(RemoveTree(t, k));
    FlatOne(u);
    FlatThree(pre, [u], post);
    MapOfVal(Flat(pre + [u] + post), j);
    ValThree(Flat(pre), Zip(u.keys, u.values), Flat(post), j);
    ValThree(Flat(pre), Zip(leaf.keys, leaf.values), Flat(post), j);
  }

  lemma RemoveContents(t: Tree, k: int)
    requires Wf(t) && Ordered(t, None, None)
    ensures Wf(RemoveTree(t, k)) && Contents(RemoveTree(t, k)) == Contents(t) - {k}
  {
    RemoveContentsAt(t, k, k);
    forall j
      ensures Get(Contents(RemoveTree(t, k)), j) == Get(Contents(t) - {k}, j)
    {
      RemoveContentsAt(t, k, j);
    }
    SameMap(Contents(RemoveTree(t, k)), Contents(t) - {k});
  }

  // ---------- the leaf chain ----------

  lemma {:induction false} ChainAppend(a: seq<Tree>, b: seq<Tree>, after: int)
    ensures Chained(a + b, after) <==> Chained(a, HeadPage(b, after)) && Chained(b, after)
    decreases |a|
  {
    if a == [] {
      assert a + b == b;
    } else {
      assert (a + b)[1..] == a[1..] + b;
      ChainAppend(a[1..], b, after);
    }
  }

  /** One leaf of a chain may be replaced by a chained run that starts at the same page. */
  lemma ChainSplice(pre: seq<Tree>, leaf: Tree, mid: seq<Tree>, post: seq<Tree>, after: int)
    requires leaf.Leaf? && Chained(pre + [leaf] + post, after)
    requires mid != [] && Chained(mid, leaf.next) && mid[0].page == leaf.page
    ensures Chained(pre + mid + post, after)
  {
    var h := HeadPage(post, after);
    ChainAppend(pre + [leaf], post, after);
    ChainAppend(pre, [leaf], h);
    assert [leaf][1..] == [];
    ChainAppend(pre, mid, h);
    ChainAppend(pre + mid, post, after);
  }

  lemma LeafOutChain(t: Tree, k: int, v: RecordID, f: int)
    requires t.Leaf? && Wf(t)
    ensures var mid := OutLeaves(InsertLeaf(t, k, v, f));
            mid != [] && Chained(mid, t.next) && mid[0].page == t.page
  {
    var o := InsertLeaf(t, k, v, f);
    if o.One? {
      assert [o.tree][1..] == [];
    } else {
      assert ([o.left] + [o.right])[1..] == [o.right] && [o.right][1..] == [];
    }
  }

  lemma InsertChain(t: Tree, k: int, v: RecordID, f: int)
    requires Wf(t) && Ordered(t, None, None) && Chained(Leaves(t), -1)
    ensures Chained(OutLeaves(InsertT(t, k, v, f).0), -1)
  {
    var (pre, leaf, post) := Route(t, k);
    RouteLeaves(t, k);
    InsertLeaves(t, k, v, f, None, None);
    LeafOutChain(leaf, k, v, f);
    ChainSplice(pre, leaf, OutLeaves(InsertLeaf(leaf, k, v, f)), post, -1);
  }

  lemma RemoveChain(t: Tree, k: int)
    requires Wf(t) && Chained(Leaves(t), -1)
    ensures Chained(Leaves(RemoveTree(t, k)), -1)
  {
    var (pre, leaf, post) := Route(t, k);
    RouteLeaves(t, k);
    RemoveLeaves(t, k);
    assert [RemoveLeaf(leaf, k)][1..] == [];
    ChainSplice(pre, leaf, [RemoveLeaf(leaf, k)], post, -1);
  }

  // ---------- the whole invariant ----------

  ghost function Height(t: Tree): nat
    requires Wf(t)
  {
    if t.Leaf? then 0 else 1 + Height(t.children[0])
  }

  /** The invariant of the index: keys strictly sorted and separated, all leaves equally
      deep, no stored node too large, no page reached twice, leaves chained in order. */
  ghost predicate Inv(t: Tree, unused: int) {
    Wf(t) && Ordered(t, None, None) && Shape(t, Height(t)) && PagesOk(t, unused)
    && Chained(Leaves(t), -1) && unused >= 2
  }

  lemma {:induction false} ShapeHeight(t: Tree, h: nat)
    requires Wf(t) && Shape(t, h)
    ensures Height(t) == h
    decreases t
  {
    if t.Inner? { ShapeHeight(t.children[0], h - 1); }
  }

  lemma RootReach(l: Tree, sep: int, r: Tree, f: int, p: int)
    ensures Reach(Inner(f, [sep], [l, r]), p) == Reach(l, p) + Reach(r, p) + if p == f then 1 else 0
  {
    ReachPair(l, r, p);
  }

  lemma InsertPagesOk(t: Tree, k: int, v: RecordID, f: int)
    requires Inv(t, f)
    ensures PagesOk(InsertTree(t, k, v, f).0, InsertTree(t, k, v, f).1) && f <= InsertTree(t, k, v, f).1
  {
    InsertReach(t, k, v, f, None, None, f);
    var (u, f') := InsertTree(t, k, v, f);
    forall p
      ensures Reach(u, p) <= if 1 <= p < f' then 1 else 0
    {
      InsertReach(t, k, v, f, None, None, p);
      assert Reach(t, p) <= if 1 <= p < f then 1 else 0;
      var (o, f1) := InsertT(t, k, v, f);
      if o.Two? { RootReach(o.left, o.sep, o.right, f1, p); }
    }
  }

  lemma RootOrdered(l: Tree, sep: int, r: Tree, f: int)
    requires Wf(l) && Wf(r) && OutOrdered(Two(l, sep, r), None, None)
    ensures var u := Inner(f, [sep], [l, r]); Wf(u) && Ordered(u, None, None)
  {
    var u := Inner(f, [sep], [l, r]);
    assert SepsOrdered(u.keys, None, None);
    forall i | 0 <= i < 2
      ensures Ordered(u.children[i], LoOf(u.keys, None, i), HiOf(u.keys, None, i))
    {
      if i == 0 { assert u.children[i] == l; } else { assert u.children[i] == r; }
    }
  }

  lemma InsertShapeRoot(t: Tree, k: int, v: RecordID, f: int)
    requires Wf(t) && Ordered(t, None, None) && Shape(t, Height(t))
    ensures var u := InsertTree(t, k, v, f).0; Wf(u) && Ordered(u, None, None) && Shape(u, Height(u))
  {
    InsertOrdered(t, k, v, f, None, None);
    InsertShape(t, k, v, f, Height(t));
    var (o, f1) := InsertT(t, k, v, f);
    var u := InsertTree(t, k, v, f).0;
    if o.One? {
      ShapeHeight(u, Height(t));
    } else {
      RootOrdered(o.left, o.sep, o.right, f1);
      assert Shape(u, Height(t) + 1);
      ShapeHeight(u, Height(t) + 1);
    }
  }

  lemma InsertRootLeaves(t: Tree, k: int, v: RecordID, f: int)
    requires Wf(t)
    ensures Leaves(InsertTree(t, k, v, f).0) == OutLeaves(InsertT(t, k, v, f).0)
  {
    var (o, f1) := InsertT(t, k, v, f);
    if o.Two? { LeavesPair(o.left, o.right); }
  }

  /** insert keeps the invariant and puts exactly one entry into the map. */
  lemma InsertKeeps(t: Tree, k: int, v: RecordID, f: int)
    requires Inv(t, f)
    ensures Inv(InsertTree(t, k, v, f).0, InsertTree(t, k, v, f).1) && f <= InsertTree(t, k, v, f).1
    ensures Contents(InsertTree(t, k, v, f).0) == Contents(t)[k := v]
  {
    InsertShapeRoot(t, k, v, f);
    InsertRootLeaves(t, k, v, f);
    InsertPagesOk(t, k, v, f);
    InsertChain(t, k, v, f);
    InsertContents(t, k, v, f);
  }

  /** remove keeps the invariant and takes exactly one key out of the map. */
  lemma RemoveKeeps(t: Tree, k: int, f: int)
    requires Inv(t, f)
    ensures Inv(RemoveTree(t, k), f) && Contents(RemoveTree(t, k)) == Contents(t) - {k}
  {
    RemoveOrdered(t, k, None, None);
    RemoveShape(t, k, Height(t));
    ShapeHeight(RemoveTree(t, k), Height(t));
    RemoveChain(t, k);
    RemoveContents(t, k);
    forall p
      ensures Reach(RemoveTree(t, k), p) <= if 1 <= p < f then 1 else 0
    {
      RemoveReach(t, k, p);
      assert Reach(t, p) <= if 1 <= p < f then 1 else 0;
    }
  }

  // ---------- lookups ----------

  /** `find`: route to a leaf, then look through its keys from the left. */
  function Lookup(t: Tree, k: int): Option<RecordID>
    requires Wf(t)
  {
    var leaf := Route(t, k).1;
    RouteWf(t, k);
    FirstMatch(leaf.keys, leaf.values, k)
  }

  function FirstMatch(ks: seq<int>, vs: seq<RecordID>, k: int): (r: Option<RecordID>)
    requires |ks| == |vs|
    ensures r.None? <==> k !in ks
    ensures r.Some? ==> exists i :: 0 <= i < |ks| && ks[i] == k && vs[i] == r.value
  {
    if ks == [] then None
    else if ks[0] == k then Some(vs[0])
    else
      var r := FirstMatch(ks[1..], vs[1..], k);
      assert r.Some? ==> exists i :: 0 <= i < |ks| && ks[i] == k && vs[i] == r.value by {
        if r.Some? {
          var i :| 0 <= i < |ks[1..]| && ks[1..][i] == k && vs[1..][i] == r.value;
          assert ks[i + 1] == k && vs[i + 1] == r.value;
        }
      }
      r
  }

  lemma {:induction false} RouteWf(t: Tree, k: int)
    requires Wf(t)
    ensures Wf(Route(t, k).1)
    decreases t
  {
    if t.Inner? { RouteWf(t.children[UpperBound(t.keys, k)], k); }
  }

  lemma {:induction false} ValAt(es: seq<Entry>, i: nat, lo: Option<int>, hi: Option<int>)
    requires i < |es| && SortedIn(es, lo, hi)
    ensures Val(es, es[i].0) == Some(es[i].1)
    decreases |es|
  {
    var n := |es| - 1;
    if i < n {
      assert SortedIn(es[..n], lo, hi);
      ValAt(es[..n], i, lo, hi);
    }
  }

  lemma FirstMatchVal(ks: seq<int>, vs: seq<RecordID>, k: int)
    requires |ks| == |vs| && Strict(ks)
    ensures FirstMatch(ks, vs, k) == Val(Zip(ks, vs), k)
  {
    var es, r := Zip(ks, vs), FirstMatch(ks, vs, k);
    ValNone(es, k);
    if r.Some? {
      var i :| 0 <= i < |ks| && ks[i] == k && vs[i] == r.value;
      assert SortedIn(es, None, None);
      ValAt(es, i, None, None);
    } else {
      assert forall i :: 0 <= i < |ks| ==> ks[i] in ks;
    }
  }

  /** find agrees with the map. */
  lemma LookupCorrect(t: Tree, k: int)
    requires Wf(t) && Ordered(t, None, None)
    ensures Lookup(t, k) == Get(Contents(t), k)
  {
    var (pre, leaf, post) := Route(t, k);
    ContentsAt(t, k, k);
    ValThree(Flat(pre), Zip(leaf.keys, leaf.values), Flat(post), k);
    FirstMatchVal(leaf.keys, leaf.values, k);
  }

  // ---------- range scans ----------

  /** The entries with low <= key <= high, in the order given. */
  function Within(es: seq<Entry>, low: int, high: int): seq<Entry> {
    if es == [] then []
    else (if low <= es[0].0 <= high then [es[0]] else []) + Within(es[1..], low, high)
  }

  function ValuesOf(es: seq<Entry>): (vs: seq<RecordID>)
    ensures |vs| == |es|
  {
    seq(|es|, i requires 0 <= i < |es| => es[i].1)
  }

  ghost function Scan(t: Tree, low: int, high: int): seq<RecordID>
    requires Wf(t)
  {
    LeavesWf(t);
    ValuesOf(Within(Flat(Leaves(t)), low, high))
  }

  lemma {:induction false} WithinAppend(a: seq<Entry>, b: seq<Entry>, low: int, high: int)
    ensures Within(a + b, low, high) == Within(a, low, high) + Within(b, low, high)
    decreases |a|
  {
    if a == [] {
      assert a + b == b;
    } else {
      assert (a + b)[1..] == a[1..] + b;
      WithinAppend(a[1..], b, low, high);
    }
  }

  lemma {:induction false} WithinNone(a: seq<Entry>, low: int, high: int)
    requires LtAll(a, low) || GtAll(a, high)
    ensures Within(a, low, high) == []
    decreases |a|
  {
    if a != [] { WithinNone(a[1..], low, high); }
  }

  lemma {:induction false} WithinMember(es: seq<Entry>, low: int, high: int, e: Entry)
    ensures e in Within(es, low, high) <==> e in es && low <= e.0 <= high
    decreases |es|
  {
    if es != [] {
      WithinMember(es[1..], low, high, e);
      assert es == [es[0]] + es[1..];
    }
  }

  lemma {:induction false} WithinSorted(es: seq<Entry>, low: int, high: int, lo: Option<int>)
    requires SortedIn(es, lo, None)
    ensures SortedIn(Within(es, low, high), lo, None)
    decreases |es|
  {
    if es != [] {
      assert SortedIn(es[1..], Some(es[0].0 + 1), None);
      WithinSorted(es[1..], low, high, Some(es[0].0 + 1));
    }
  }

  /** A range scan returns the values of exactly the keys of the map in [low, high],
      in ascending key order and once each. */
  lemma ScanMeaning(t: Tree, low: int, high: int)
    requires Wf(t) && Ordered(t, None, None)
    ensures exists ks: seq<int> :: Strict(ks) && |ks| == |Scan(t, low, high)|
              && (forall k :: k in ks <==> k in Contents(t) && low <= k <= high)
              && (forall i :: 0 <= i < |ks| ==> Get(Contents(t), ks[i]) == Some(Scan(t, low, high)[i]))
  {
    LeavesSorted(t, None, None);
    var es := Flat(Leaves(t));
    var w := Within(es, low, high);
    WithinSorted(es, low, high, None);
    var ks := seq(|w|, i requires 0 <= i < |w| => w[i].0);
    assert Strict(ks);
    forall i | 0 <= i < |ks|
      ensures Get(Contents(t), ks[i]) == Some(Scan(t, low, high)[i]) && low <= ks[i] <= high
    {
      WithinMember(es, low, high, w[i]);
      EntryInMap(es, w[i]);
    }
    forall k | k in Contents(t) && low <= k <= high
      ensures k in ks
    {
      MapOfVal(es, k);
      ValNone(es, k);
      var j :| 0 <= j < |es| && es[j].0 == k;
      WithinMember(es, low, high, es[j]);
      var i :| 0 <= i < |w| && w[i] == es[j];
      assert ks[i] == k;
    }
  }

  lemma EntryInMap(es: seq<Entry>, e: Entry)
    requires SortedIn(es, None, None) && e in es
    ensures Get(MapOf(es), e.0) == Some(e.1)
  {
    var j :| 0 <= j < |es| && es[j] == e;
    ValAt(es, j, None, None);
    MapOfVal(es, e.0);
  }

  // ---------- whole runs ----------

  datatype Op = Put(key: int, value: RecordID) | Del(key: int)

  /** The empty index: page 0 is the header, page 1 an empty leaf. */
  const EmptyTree: Tree := Leaf(1, [], [], -1)

  ghost function RunTree(ops: seq<Op>): (Tree, int) {
    if ops == [] then (EmptyTree, 2)
    else
      var (t, f) := RunTree(ops[..|ops| - 1]);
      if !Wf(t) then (t, f)
      else match ops[|ops| - 1]
        case Put(k, v) => InsertTree(t, k, v, f)
        case Del(k) => (RemoveTree(t, k), f)
  }

  function RunMap(ops: seq<Op>): map<int, RecordID> {
    if ops == [] then map[]
    else match ops[|ops| - 1]
      case Put(k, v) => RunMap(ops[..|ops| - 1])[k := v]
      case Del(k) => RunMap(ops[..|ops| - 1]) - {k}
  }

  lemma EmptyInv()
    ensures Inv(EmptyTree, 2) && Contents(EmptyTree) == map[]
  {
    FlatOne(EmptyTree);
  }

  /** After any sequence of inserts and removes the invariant holds, and find and
      rangeScan agree with a plain map under the same sequence. */
  lemma {:induction false} RunCorrect(ops: seq<Op>)
    ensures var (t, f) := RunTree(ops);
            Inv(t, f) && Contents(t) == RunMap(ops)
            && forall k :: Lookup(t, k) == Get(RunMap(ops), k)
    decreases |ops|
  {
    if ops == [] {
      EmptyInv();
    } else {
      RunCorrect(ops[..|ops| - 1]);
      var (t, f) := RunTree(ops[..|ops| - 1]);
      match ops[|ops| - 1] {
        case Put(k, v) => InsertKeeps(t, k, v, f);
        case Del(k) => RemoveKeeps(t, k, f);
      }
    }
    var (t, f) := RunTree(ops);
    forall k
      ensures Lookup(t, k) == Get(RunMap(ops), k)
    {
      LookupCorrect(t, k);
    }
  }
}
