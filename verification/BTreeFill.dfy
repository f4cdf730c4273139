/** Without removals the nodes stay at least half full, which bounds the height. */
module BTreeFill {
  import opened Common
  import opened BTreeSpec
  import opened BTreeTheorems

  const HALF_KEYS: nat := MAX_KEYS / 2

  ghost predicate Filled(t: Tree)
    decreases t, 1
  {
    |t.keys| >= HALF_KEYS && KidsFilled(t)
  }

  /** Every node below t is at least half full; t itself, as a root, need not be. */
  ghost predicate KidsFilled(t: Tree)
    decreases t, 0
  {
    t.Inner? ==> AllFilled(t.children)
  }

  ghost predicate AllFilled(cs: seq<Tree>)
    decreases cs, 0
  {
    forall i :: 0 <= i < |cs| ==> Filled(cs[i])
  }

  ghost predicate OutFilled(o: Outcome, n: nat) {
    match o
    case One(u) => KidsFilled(u) && |u.keys| >= n
    case Two(l, _, r) => Filled(l) && Filled(r)
  }

  lemma SpliceFilled(t: Tree, idx: nat, l: Tree, sep: int, r: Tree, f: int)
    requires t.Inner? && |t.children| == |t.keys| + 1 && idx < |t.children|
    requires AllFilled(t.children) && Filled(l) && Filled(r)
    ensures OutFilled(CutNode(SpliceNode(t, idx, l, sep, r), f), |t.keys|)
  {
    var u := SpliceNode(t, idx, l, sep, r);
    assert AllFilled(t.children[idx := l]);
    assert AllFilled(u.children);
    var s := |u.keys| / 2;
    assert AllFilled(u.children[..s + 1]) && AllFilled(u.children[s + 1..]);
  }

  lemma ReplaceFilled(t: Tree, idx: nat, c: Tree)
    requires t.Inner? && KidsFilled(t) && idx < |t.children| && Filled(c)
    ensures KidsFilled(Inner(t.page, t.keys, t.children[idx := c]))
  {
    assert AllFilled(t.children[idx := c]);
  }

  /** Both halves of a split are at least half full, and no node loses keys. */
  lemma {:induction false} InsertFilled(t: Tree, k: int, v: RecordID, f: int)
    requires Wf(t) && KidsFilled(t)
    ensures OutFilled(InsertT(t, k, v, f).0, |t.keys|)
    decreases t
  {
    match t
    case Leaf(_, _, _, _) =>
    case Inner(_, ks, cs) =>
      var idx := UpperBound(ks, k);
      assert Filled(cs[idx]);
      InsertFilled(cs[idx], k, v, f);
      var (res, f') := InsertT(cs[idx], k, v, f);
      match res {
        case One(c) => ReplaceFilled(t, idx, c);
        case Two(l, sep, r) => SpliceFilled(t, idx, l, sep, r, f');
      }
  }

  function Power(b: nat, e: nat): nat {
    if e == 0 then 1 else b * Power(b, e - 1)
  }

  ghost function Count(t: Tree): nat
    requires Wf(t)
  {
    LeavesWf(t);
    |Flat(Leaves(t))|
  }

  lemma {:induction false} FlatAllCount(cs: seq<Tree>, m: nat)
    requires forall i :: 0 <= i < |cs| ==> Wf(cs[i]) && Count(cs[i]) >= m
    ensures LeafList(LeavesAll(cs)) && |Flat(LeavesAll(cs))| >= |cs| * m
    decreases |cs|
  {
    LeavesAllWf(cs);
    if cs != [] {
      LeavesWf(cs[0]);
      FlatAllCount(cs[1..], m);
      FlatAppend(Leaves(cs[0]), LeavesAll(cs[1..]));
      assert |cs| * m == (|cs| - 1) * m + m;
    }
  }

  /** A filled subtree with h levels above its leaves holds at least
      HALF_KEYS * (HALF_KEYS + 1)^h entries. */
  lemma {:induction false} FilledCount(t: Tree, h: nat)
    requires Wf(t) && Shape(t, h) && Filled(t)
    ensures Count(t) >= Power(HALF_KEYS + 1, h) * HALF_KEYS
    decreases t, 1
  {
    match t
    case Leaf(_, _, _, _) => FlatOne(t);
    case Inner(_, _, cs) =>
      KidsCount(t, h);
      Grow(|cs|, h);
  }

  /** The children alone of a node with h levels below it. */
  lemma {:induction false} KidsCount(t: Tree, h: nat)
    requires t.Inner? && Wf(t) && h > 0 && Shape(t, h) && KidsFilled(t)
    ensures Count(t) >= |t.children| * (Power(HALF_KEYS + 1, h - 1) * HALF_KEYS)
    decreases t, 0
  {
    var m := Power(HALF_KEYS + 1, h - 1) * HALF_KEYS;
    forall i | 0 <= i < |t.children|
      ensures Wf(t.children[i]) && Count(t.children[i]) >= m
    {
      FilledCount(t.children[i], h - 1);
    }
    FlatAllCount(t.children, m);
  }

  lemma Grow(n: nat, h: nat)
    requires n >= HALF_KEYS + 1 && h > 0
    ensures n * (Power(HALF_KEYS + 1, h - 1) * HALF_KEYS) >= Power(HALF_KEYS + 1, h) * HALF_KEYS
  {
    var m := Power(HALF_KEYS + 1, h - 1) * HALF_KEYS;
    Times(n, HALF_KEYS + 1, m);
    assert Power(HALF_KEYS + 1, h) == (HALF_KEYS + 1) * Power(HALF_KEYS + 1, h - 1);
  }

  /** Any run of inserts alone leaves every node but the root at least half full. */
  lemma {:induction false} InsertOnlyFilled(ops: seq<Op>)
    requires forall i :: 0 <= i < |ops| ==> ops[i].Put?
    ensures KidsFilled(RunTree(ops).0)
    decreases |ops|
  {
    if ops != [] {
      var was := ops[..|ops| - 1];
      InsertOnlyFilled(was);
      RunCorrect(was);
      var (t, f) := RunTree(was);
      var op := ops[|ops| - 1];
      InsertFilled(t, op.key, op.value, f);
      var (o, f1) := InsertT(t, op.key, op.value, f);
      if o.Two? { assert AllFilled([o.left, o.right]); }
    }
  }

  /** At least 2 * (HALF_KEYS + 1)^(h-1) * HALF_KEYS entries under h >= 1 inner levels. */
  ghost predicate HeightBounded(t: Tree)
    requires Wf(t)
  {
    Height(t) >= 1 ==> Count(t) >= 2 * (Power(HALF_KEYS + 1, Height(t) - 1) * HALF_KEYS)
  }

  lemma FilledHeight(t: Tree)
    requires Wf(t) && Shape(t, Height(t)) && KidsFilled(t)
    ensures HeightBounded(t)
  {
    if Height(t) >= 1 {
      KidsCount(t, Height(t));
      Times(|t.children|, 2, Power(HALF_KEYS + 1, Height(t) - 1) * HALF_KEYS);
    }
  }

  /** A lookup reads h + 1 pages; after inserts alone that number grows with the
      logarithm of the number of entries. */
  lemma HeightBound(ops: seq<Op>)
    requires forall i :: 0 <= i < |ops| ==> ops[i].Put?
    ensures Wf(RunTree(ops).0) && HeightBounded(RunTree(ops).0)
  {
    hide Lookup, Contents, Ordered, Reach, Chained, RunMap;
    InsertOnlyFilled(ops);
    RunCorrect(ops);
    FilledHeight(RunTree(ops).0);
  }

  lemma Times(n: nat, b: nat, m: nat)
    requires n >= b
    ensures n * m >= b * m
  {
  }
}
