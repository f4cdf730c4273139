/** The B+ tree as a value: what `insert`, `remove`, `find` and `rangeScan` mean,
    and the invariants that every sequence of them keeps.

    A `Tree` carries the page number of each node, so that sharing of pages and the
    `next` chain of the leaves can be stated about it.  The class in BPlusTree.dfy
    stores such a tree in pages and is proved to follow these functions. */
module BTreeSpec {
  import opened Common

  const MAX_KEYS: nat := 128

  datatype Tree =
    | Leaf(page: int, keys: seq<int>, values: seq<RecordID>, next: int)
    | Inner(page: int, keys: seq<int>, children: seq<Tree>)

  /** Result of inserting below a node: the node survives, or it split in two. */
  datatype Outcome =
    | One(tree: Tree)
    | Two(left: Tree, sep: int, right: Tree)

  type Entry = (int, RecordID)

  // ---------- searching a node ----------

  /** Index of the first key that is not less than k. */
  function LowerBound(s: seq<int>, k: int): (i: nat)
    ensures i <= |s|
    ensures forall j :: 0 <= j < i ==> s[j] < k
    ensures i < |s| ==> k <= s[i]
  {
    if s == [] || k <= s[0] then 0 else 1 + LowerBound(s[1..], k)
  }

  /** Index of the first key that is greater than k. */
  function UpperBound(s: seq<int>, k: int): (i: nat)
    ensures i <= |s|
    ensures forall j :: 0 <= j < i ==> s[j] <= k
    ensures i < |s| ==> k < s[i]
  {
    if s == [] || k < s[0] then 0 else 1 + UpperBound(s[1..], k)
  }

  function InsertAt<T>(s: seq<T>, i: nat, x: T): (r: seq<T>)
    requires i <= |s|
    ensures |r| == |s| + 1
  {
    s[..i] + [x] + s[i..]
  }

  // ---------- shape ----------

  ghost predicate Strict(s: seq<int>) {
    forall i, j :: 0 <= i < j < |s| ==> s[i] < s[j]
  }

  /** Counts agree in every node: as many values as keys, one more child than keys. */
  ghost predicate Wf(t: Tree) {
    match t
    case Leaf(_, ks, vs, _) => |ks| == |vs|
    case Inner(_, ks, cs) => |cs| == |ks| + 1 && forall i :: 0 <= i < |cs| ==> Wf(cs[i])
  }

  /** All leaves are at depth h and no stored node has more than MAX_KEYS keys. */
  ghost predicate Shape(t: Tree, h: nat) {
    match t
    case Leaf(_, ks, _, _) => h == 0 && |ks| <= MAX_KEYS
    case Inner(_, ks, cs) =>
      h > 0 && 1 <= |ks| <= MAX_KEYS && forall i :: 0 <= i < |cs| ==> Shape(cs[i], h - 1)
  }

  ghost predicate AtLeast(k: int, lo: Option<int>) { lo.Some? ==> lo.value <= k }
  ghost predicate Above(k: int, lo: Option<int>) { lo.Some? ==> lo.value < k }
  ghost predicate Below(k: int, hi: Option<int>) { hi.Some? ==> k < hi.value }

  ghost function LoOf(ks: seq<int>, lo: Option<int>, i: nat): Option<int>
    requires i <= |ks|
  { if i == 0 then lo else Some(ks[i - 1]) }

  ghost function HiOf(ks: seq<int>, hi: Option<int>, i: nat): Option<int>
    requires i <= |ks|
  { if i == |ks| then hi else Some(ks[i]) }

  ghost predicate LeafOrdered(ks: seq<int>, lo: Option<int>, hi: Option<int>) {
    Strict(ks) && forall i :: 0 <= i < |ks| ==> AtLeast(ks[i], lo) && Below(ks[i], hi)
  }

  ghost predicate SepsOrdered(ks: seq<int>, lo: Option<int>, hi: Option<int>) {
    Strict(ks) && forall i :: 0 <= i < |ks| ==> Above(ks[i], lo) && Below(ks[i], hi)
  }

  /** Strictly sorted keys; keys left of a separator are below it, keys right of it are
      at least it; everything lies in [lo, hi). */
  ghost predicate Ordered(t: Tree, lo: Option<int>, hi: Option<int>)
    requires Wf(t)
    decreases t
  {
    match t
    case Leaf(_, ks, _, _) => LeafOrdered(ks, lo, hi)
    case Inner(_, ks, cs) => SepsOrdered(ks, lo, hi) && KidsOrdered(ks, cs, lo, hi)
  }

  ghost predicate KidsOrdered(ks: seq<int>, cs: seq<Tree>, lo: Option<int>, hi: Option<int>)
    requires |cs| == |ks| + 1 && forall i :: 0 <= i < |cs| ==> Wf(cs[i])
    decreases cs
  {
    forall i :: 0 <= i < |cs| ==> Ordered(cs[i], LoOf(ks, lo, i), HiOf(ks, hi, i))
  }

  // ---------- leaves, pages, entries ----------

  function Leaves(t: Tree): (ls: seq<Tree>)
    ensures forall i :: 0 <= i < |ls| ==> ls[i].Leaf?
    decreases t, 1
  {
    match t
    case Leaf(_, _, _, _) => [t]
    case Inner(_, _, cs) => LeavesAll(cs)
  }

  function LeavesAll(cs: seq<Tree>): (ls: seq<Tree>)
    ensures forall i :: 0 <= i < |ls| ==> ls[i].Leaf?
    decreases cs, 0
  {
    if cs == [] then [] else Leaves(cs[0]) + LeavesAll(cs[1..])
  }

  /** How often page p is reached in a tree. */
  ghost function Reach(t: Tree, p: int): nat
    decreases t, 1
  {
    (if t.page == p then 1 else 0) + if t.Inner? then ReachAll(t.children, p) else 0
  }

  ghost function ReachAll(cs: seq<Tree>, p: int): nat
    decreases cs, 0
  {
    if cs == [] then 0 else Reach(cs[0], p) + ReachAll(cs[1..], p)
  }

  /** No page is reached twice, and all pages lie in [1, unused). */
  ghost predicate PagesOk(t: Tree, unused: int) {
    forall p :: Reach(t, p) <= if 1 <= p < unused then 1 else 0
  }

  function Zip(ks: seq<int>, vs: seq<RecordID>): (es: seq<Entry>)
    requires |ks| == |vs|
    ensures |es| == |ks|
    ensures forall i :: 0 <= i < |es| ==> es[i] == (ks[i], vs[i])
  {
    seq(|ks|, i requires 0 <= i < |ks| => (ks[i], vs[i]))
  }

  ghost predicate LeafList(ls: seq<Tree>) {
    forall i :: 0 <= i < |ls| ==> ls[i].Leaf? && |ls[i].keys| == |ls[i].values|
  }

  /** The key/value pairs of a list of leaves, left to right. */
  ghost function Flat(ls: seq<Tree>): seq<Entry>
    requires LeafList(ls)
  {
    if ls == [] then [] else Zip(ls[0].keys, ls[0].values) + Flat(ls[1..])
  }

  function MapOf(es: seq<Entry>): map<int, RecordID> {
    if es == [] then map[]
    else MapOf(es[..|es| - 1])[es[|es| - 1].0 := es[|es| - 1].1]
  }

  ghost function HeadPage(ls: seq<Tree>, after: int): int {
    if ls == [] then after else ls[0].page
  }

  /** Each leaf points at its right neighbour, the last one at `after`. */
  ghost predicate Chained(ls: seq<Tree>, after: int) {
    ls != [] ==> ls[0].Leaf? && ls[0].next == HeadPage(ls[1..], after) && Chained(ls[1..], after)
  }

  // ---------- operations ----------

  function InsertLeaf(t: Tree, k: int, v: RecordID, unused: int): Outcome
    requires t.Leaf? && |t.keys| == |t.values|
  {
    var pos := LowerBound(t.keys, k);
    if pos < |t.keys| && t.keys[pos] == k then One(t.(values := t.values[pos := v]))
    else
      var ks := InsertAt(t.keys, pos, k);
      var vs := InsertAt(t.values, pos, v);
      if |ks| <= MAX_KEYS then One(Leaf(t.page, ks, vs, t.next))
      else
        var s := |ks| / 2;
        Two(Leaf(t.page, ks[..s], vs[..s], unused), ks[s], Leaf(unused, ks[s..], vs[s..], t.next))
  }

  /** An inner node whose child idx split into l | sep | r.  May hold MAX_KEYS + 1 keys. */
  function SpliceNode(t: Tree, idx: nat, l: Tree, sep: int, r: Tree): (u: Tree)
    requires t.Inner? && |t.children| == |t.keys| + 1 && idx < |t.children|
    ensures u.Inner? && |u.keys| == |t.keys| + 1 && |u.children| == |u.keys| + 1
  {
    var pos := LowerBound(t.keys, sep);
    Inner(t.page, InsertAt(t.keys, pos, sep), InsertAt(t.children[idx := l], pos + 1, r))
  }

  /** Split an inner node that has become too large; the middle key moves up. */
  function CutNode(t: Tree, unused: int): Outcome
    requires t.Inner? && |t.children| == |t.keys| + 1
  {
    if |t.keys| <= MAX_KEYS then One(t)
    else
      var s := |t.keys| / 2;
      Two(Inner(t.page, t.keys[..s], t.children[..s + 1]), t.keys[s],
          Inner(unused, t.keys[s + 1..], t.children[s + 1..]))
  }

  /** Insert below t.  Pages are taken from `unused` upwards; also returns the next unused page. */
  function InsertT(t: Tree, k: int, v: RecordID, unused: int): (r: (Outcome, int))
    requires Wf(t)
    decreases t
  {
    match t
    case Leaf(_, _, _, _) =>
      var o := InsertLeaf(t, k, v, unused);
      (o, if o.Two? then unused + 1 else unused)
    case Inner(p, ks, cs) =>
      var idx := UpperBound(ks, k);
      var (res, f) := InsertT(cs[idx], k, v, unused);
      (match res
       case One(c) => (One(Inner(p, ks, cs[idx := c])), f)
       case Two(l, sep, r) =>
         var o := CutNode(SpliceNode(t, idx, l, sep, r), f);
         (o, if o.Two? then f + 1 else f))
  }

  /** `insert`: grow a new root when the old one splits. */
  function InsertTree(t: Tree, k: int, v: RecordID, unused: int): (Tree, int)
    requires Wf(t)
  {
    var (o, f) := InsertT(t, k, v, unused);
    match o
    case One(u) => (u, f)
    case Two(l, sep, r) => (Inner(f, [sep], [l, r]), f + 1)
  }

  function RemoveLeaf(t: Tree, k: int): Tree
    requires t.Leaf? && |t.keys| == |t.values|
  {
    var pos := LowerBound(t.keys, k);
    if pos >= |t.keys| || t.keys[pos] != k then t
    else Leaf(t.page, t.keys[..pos] + t.keys[pos + 1..], t.values[..pos] + t.values[pos + 1..], t.next)
  }

  /** `remove`: only the leaf reached by the key changes, nothing is merged. */
  function RemoveTree(t: Tree, k: int): Tree
    requires Wf(t)
    decreases t
  {
    match t
    case Leaf(_, _, _, _) => RemoveLeaf(t, k)
    case Inner(p, ks, cs) =>
      var idx := UpperBound(ks, k);
      Inner(p, ks, cs[idx := RemoveTree(cs[idx], k)])
  }

  /** The leaf that a search for k reaches, with the leaves before and after it. */
  function Route(t: Tree, k: int): (r: (seq<Tree>, Tree, seq<Tree>))
    requires Wf(t)
    ensures r.1.Leaf?
    decreases t
  {
    match t
    case Leaf(_, _, _, _) => ([], t, [])
    case Inner(_, ks, cs) =>
      var idx := UpperBound(ks, k);
      var (pre, leaf, post) := Route(cs[idx], k);
      (LeavesAll(cs[..idx]) + pre, leaf, post + LeavesAll(cs[idx + 1..]))
  }

  // ---------- lists of leaves ----------

  lemma LeavesWf(t: Tree)
    requires Wf(t)
    ensures LeafList(Leaves(t))
    decreases t, 1
  {
    if t.Inner? { LeavesAllWf(t.children); }
  }

  lemma LeavesAllWf(cs: seq<Tree>)
    requires forall i :: 0 <= i < |cs| ==> Wf(cs[i])
    ensures LeafList(LeavesAll(cs))
    decreases cs, 0
  {
    if cs != [] { LeavesWf(cs[0]); LeavesAllWf(cs[1..]); }
  }

  lemma {:induction false} LeavesAllAppend(a: seq<Tree>, b: seq<Tree>)
    ensures LeavesAll(a + b) == LeavesAll(a) + LeavesAll(b)
    decreases |a|
  {
    if a == [] {
      assert a + b == b;
    } else {
      assert (a + b)[1..] == a[1..] + b;
      LeavesAllAppend(a[1..], b);
    }
  }

  lemma {:induction false} ReachAllAppend(a: seq<Tree>, b: seq<Tree>, p: int)
    ensures ReachAll(a + b, p) == ReachAll(a, p) + ReachAll(b, p)
    decreases |a|
  {
    if a == [] {
      assert a + b == b;
    } else {
      assert (a + b)[1..] == a[1..] + b;
      ReachAllAppend(a[1..], b, p);
    }
  }

  /** Splitting the children around one of them splits the leaves the same way. */
  lemma LeavesAround(cs: seq<Tree>, i: nat)
    requires i < |cs|
    ensures LeavesAll(cs) == LeavesAll(cs[..i]) + Leaves(cs[i]) + LeavesAll(cs[i + 1..])
  {
    var rest := cs[i..];
    assert cs == cs[..i] + rest;
    LeavesAllAppend(cs[..i], rest);
    assert rest[1..] == cs[i + 1..];
    assert LeavesAll(rest) == Leaves(rest[0]) + LeavesAll(rest[1..]);
  }

  lemma ReachAround(cs: seq<Tree>, i: nat, p: int)
    requires i < |cs|
    ensures ReachAll(cs, p) == ReachAll(cs[..i], p) + Reach(cs[i], p) + ReachAll(cs[i + 1..], p)
  {
    var rest := cs[i..];
    assert cs == cs[..i] + rest;
    ReachAllAppend(cs[..i], rest, p);
    assert rest[1..] == cs[i + 1..];
    assert ReachAll(rest, p) == Reach(rest[0], p) + ReachAll(rest[1..], p);
  }

  lemma {:induction false} FlatAppend(a: seq<Tree>, b: seq<Tree>)
    requires LeafList(a) && LeafList(b)
    ensures LeafList(a + b)
    ensures Flat(a + b) == Flat(a) + Flat(b)
    decreases |a|
  {
    if a == [] {
      assert a + b == b;
    } else {
      assert (a + b)[1..] == a[1..] + b;
      FlatAppend(a[1..], b);
    }
  }

  /** The value an entry list gives to k; later entries win. */
  function Val(es: seq<Entry>, k: int): Option<RecordID> {
    if es == [] then None
    else if es[|es| - 1].0 == k then Some(es[|es| - 1].1)
    else Val(es[..|es| - 1], k)
  }

  ghost function Get(m: map<int, RecordID>, k: int): Option<RecordID> {
    if k in m then Some(m[k]) else None
  }

  lemma {:induction false} MapOfVal(es: seq<Entry>, k: int)
    ensures Get(MapOf(es), k) == Val(es, k)
    decreases |es|
  {
    if es != [] { MapOfVal(es[..|es| - 1], k); }
  }

  lemma {:induction false} ValAppend(a: seq<Entry>, b: seq<Entry>, k: int)
    ensures Val(a + b, k) == if Val(b, k).Some? then Val(b, k) else Val(a, k)
    decreases |b|
  {
    if b == [] {
      assert a + b == a;
    } else {
      var n := |b| - 1;
      assert (a + b)[..|a + b| - 1] == a + b[..n];
      ValAppend(a, b[..n], k);
    }
  }

  lemma {:induction false} ValNone(es: seq<Entry>, k: int)
    ensures Val(es, k).None? <==> forall i :: 0 <= i < |es| ==> es[i].0 != k
    decreases |es|
  {
    if es != [] {
      var n := |es| - 1;
      ValNone(es[..n], k);
      if forall i :: 0 <= i < |es| ==> es[i].0 != k {
        assert forall i :: 0 <= i < n ==> es[..n][i].0 == es[i].0;
      } else {
        var i :| 0 <= i < |es| && es[i].0 == k;
        if i < n { assert es[..n][i].0 == k; }
      }
    }
  }
}
