/** The paged B+ tree.  Nodes are read into memory, changed there in place and written
    back; every operation is proved to follow the functions of BTreeSpec. */
module BPlusTree {
  import opened Common
  import opened BTreeSpec
  import opened BTreeProofs
  import opened BTreeTheorems

  /** The content of one page of the index file. */
  datatype Page =
    | Header(root: int)
    | LeafPage(keys: seq<int>, values: seq<RecordID>, next: int)
    | InnerPage(keys: seq<int>, kids: seq<int>)

  /** A page of zero bytes read as a node: not a leaf, no keys, child 0. */
  const ZeroPage: Page := InnerPage([], [0])

  /** Where a node that has overflowed is cut. */
  const HALF: nat := (MAX_KEYS + 1) / 2

  type Store = map<int, Page>

  function PageNums(cs: seq<Tree>): (ps: seq<int>)
    ensures |ps| == |cs|
    ensures forall i :: 0 <= i < |cs| ==> ps[i] == cs[i].page
  {
    seq(|cs|, i requires 0 <= i < |cs| => cs[i].page)
  }

  function Image(t: Tree): Page {
    match t
    case Leaf(_, ks, vs, nx) => LeafPage(ks, vs, nx)
    case Inner(_, ks, cs) => InnerPage(ks, PageNums(cs))
  }

  /** The pages of the store spell out the tree t. */
  ghost predicate Stored(m: Store, t: Tree) {
    t.page in m && m[t.page] == Image(t) && (t.Inner? ==> StoredAll(m, t.children))
  }

  ghost predicate StoredAll(m: Store, cs: seq<Tree>) {
    forall i :: 0 <= i < |cs| ==> Stored(m, cs[i])
  }

  /** The stores agree on every page of t. */
  ghost predicate Agree(m: Store, n: Store, t: Tree) {
    forall p :: Reach(t, p) > 0 ==> p in m && p in n && m[p] == n[p]
  }

  lemma {:induction false} ReachChild(cs: seq<Tree>, i: nat, p: int)
    requires i < |cs|
    ensures Reach(cs[i], p) <= ReachAll(cs, p)
    ensures forall j :: 0 <= j < |cs| && j != i ==> Reach(cs[i], p) + Reach(cs[j], p) <= ReachAll(cs, p)
    decreases |cs|
  {
    if i > 0 { ReachChild(cs[1..], i - 1, p); }
    forall j | 0 <= j < |cs| && j != i
      ensures Reach(cs[i], p) + Reach(cs[j], p) <= ReachAll(cs, p)
    {
      if i == 0 { ReachChild(cs[1..], j - 1, p); }
      else if j > 0 { assert cs[1..][j - 1] == cs[j]; }
    }
  }

  lemma {:induction false} StoredFrame(m: Store, n: Store, t: Tree)
    requires Stored(m, t) && Agree(m, n, t)
    ensures Stored(n, t)
    decreases t
  {
    assert Reach(t, t.page) > 0;
    if t.Inner? {
      forall i | 0 <= i < |t.children|
        ensures Stored(n, t.children[i])
      {
        forall p | Reach(t.children[i], p) > 0
          ensures p in m && p in n && m[p] == n[p]
        {
          ReachChild(t.children, i, p);
          assert Reach(t, p) > 0;
        }
        StoredFrame(m, n, t.children[i]);
      }
    }
  }

  /** Writing a page that t does not use leaves t stored. */
  lemma StoredWrite(m: Store, t: Tree, q: int, page: Page)
    requires Stored(m, t) && Reach(t, q) == 0
    ensures Stored(m[q := page], t)
  {
    forall p | Reach(t, p) > 0
      ensures p in m && p in m[q := page] && m[p] == m[q := page][p]
    {
      StoredHas(m, t, p);
    }
    StoredFrame(m, m[q := page], t);
  }

  lemma {:induction false} StoredHas(m: Store, t: Tree, p: int)
    requires Stored(m, t) && Reach(t, p) > 0
    ensures p in m
    decreases t
  {
    if t.page != p {
      var i := ReachedChild(t.children, p);
      StoredHas(m, t.children[i], p);
    }
  }

  lemma {:induction false} ReachedChild(cs: seq<Tree>, p: int) returns (i: nat)
    requires ReachAll(cs, p) > 0
    ensures i < |cs| && Reach(cs[i], p) > 0
    decreases |cs|
  {
    if Reach(cs[0], p) > 0 { i := 0; }
    else {
      var j := ReachedChild(cs[1..], p);
      i := j + 1;
    }
  }

  lemma StoredAllWrite(m: Store, cs: seq<Tree>, q: int, page: Page)
    requires StoredAll(m, cs) && ReachAll(cs, q) == 0
    ensures StoredAll(m[q := page], cs)
  {
    forall i | 0 <= i < |cs|
      ensures Stored(m[q := page], cs[i])
    {
      ReachChild(cs, i, q);
      StoredWrite(m, cs[i], q, page);
    }
  }

  lemma PagesOkChild(t: Tree, i: nat, count: int)
    requires t.Inner? && i < |t.children| && PagesOk(t, count)
    ensures PagesOk(t.children[i], count) && 1 <= t.page < count
  {
    forall p
      ensures Reach(t.children[i], p) <= if 1 <= p < count then 1 else 0
    {
      assert Reach(t, p) <= if 1 <= p < count then 1 else 0;
      ReachChild(t.children, i, p);
    }
    assert Reach(t, t.page) >= 1;
  }

  /** What insertion below t may have changed: only pages of t and new pages. */
  ghost predicate OnlyBelow(m: Store, n: Store, t: Tree, count: int) {
    forall p :: p in m && Reach(t, p) == 0 && p < count ==> p in n && n[p] == m[p]
  }

  /** Writing one page, and new ones. */
  ghost predicate KeptExcept(m: Store, n: Store, pageId: int, count: int) {
    forall p :: p in m && p != pageId && p < count ==> p in n && n[p] == m[p]
  }

  /** First the pages below t change, then the page of t itself. */
  lemma OnlyBelowThen(l: Store, m: Store, n: Store, t: Tree, count: int, count': int)
    requires OnlyBelow(l, m, t, count) && KeptExcept(m, n, t.page, count') && count <= count'
    ensures OnlyBelow(l, n, t, count)
  {
    assert Reach(t, t.page) > 0;
  }

  lemma SiblingsKept(m: Store, n: Store, t: Tree, idx: nat, count: int)
    requires t.Inner? && idx < |t.children| && Stored(m, t) && PagesOk(t, count)
    requires OnlyBelow(m, n, t.children[idx], count)
    ensures forall i :: 0 <= i < |t.children| && i != idx ==> Stored(n, t.children[i])
    ensures OnlyBelow(m, n, t, count)
    ensures t.page in n && n[t.page] == m[t.page]
  {
    forall i | 0 <= i < |t.children| && i != idx
      ensures Stored(n, t.children[i])
    {
      forall p | Reach(t.children[i], p) > 0
        ensures p in m && p in n && m[p] == n[p]
      {
        assert Reach(t, p) <= if 1 <= p < count then 1 else 0;
        ReachChild(t.children, i, p);
        StoredHas(m, t.children[i], p);
      }
      StoredFrame(m, n, t.children[i]);
    }
    forall p | p in m && Reach(t, p) == 0 && p < count
      ensures p in n && n[p] == m[p]
    {
      ReachChild(t.children, idx, p);
    }
    assert Reach(t, t.page) <= if 1 <= t.page < count then 1 else 0;
    ReachChild(t.children, idx, t.page);
  }

  lemma ShiftedArray<T>(a: array<T>, was: seq<T>, pos: nat, x: T)
    requires pos <= |was| < a.Length
    requires forall j :: 0 <= j < pos ==> a[j] == was[j]
    requires a[pos] == x
    requires forall j :: pos < j <= |was| ==> a[j] == was[j - 1]
    ensures a[..|was| + 1] == InsertAt(was, pos, x)
  {
  }

  lemma ArrayIs<T>(a: array<T>, n: nat, s: seq<T>)
    requires |s| == n <= a.Length && forall j :: 0 <= j < n ==> a[j] == s[j]
    ensures a[..n] == s
  {
  }

  /** A leaf page without the entry of a key that it has. */
  function WithoutKey(page: Page, key: int): Page
    requires page.LeafPage? && |page.keys| == |page.values| && Hit(page.keys, key)
  {
    var pos := LowerBound(page.keys, key);
    LeafPage(page.keys[..pos] + page.keys[pos + 1..], page.values[..pos] + page.values[pos + 1..], page.next)
  }

  /** The in-memory node.  Its arrays have one spare key and one spare child, because an
      insertion fills the node before the code looks whether it has to be split. */
  class Node {
    var isLeaf: bool
    var numKeys: nat
    var next: int
    const keys: array<int>
    const values: array<RecordID>
    const children: array<int>

    ghost predicate Valid()
      reads this
    {
      numKeys <= MAX_KEYS + 1 && keys.Length == values.Length == MAX_KEYS + 1
      && children.Length == MAX_KEYS + 2 && keys != children
    }

    ghost function Content(): Page
      requires Valid()
      reads this, keys, values, children
    {
      if isLeaf then LeafPage(keys[..numKeys], values[..numKeys], next)
      else InnerPage(keys[..numKeys], children[..numKeys + 1])
    }

    constructor ()
      ensures Valid() && numKeys == 0 && isLeaf && next == -1
      ensures fresh(keys) && fresh(values) && fresh(children)
    {
      isLeaf, numKeys, next := true, 0, -1;
      keys := new int[MAX_KEYS + 1];
      values := new RecordID[MAX_KEYS + 1];
      children := new int[MAX_KEYS + 2];
    }

    /** Shift the entries from pos on one place to the right. */
    method ShiftEntries(pos: nat)
      requires Valid() && numKeys <= MAX_KEYS && pos <= numKeys
      modifies keys, values
      ensures forall j :: 0 <= j < pos ==> keys[j] == old(keys[j]) && values[j] == old(values[j])
      ensures forall j :: pos < j <= numKeys ==> keys[j] == old(keys[j - 1]) && values[j] == old(values[j - 1])
    {
      var i := numKeys;
      while i > pos
        invariant pos <= i <= numKeys
        invariant forall j :: 0 <= j <= i ==> keys[j] == old(keys[j]) && values[j] == old(values[j])
        invariant forall j :: i < j <= numKeys ==> keys[j] == old(keys[j - 1]) && values[j] == old(values[j - 1])
      {
        keys[i] := keys[i - 1];
        values[i] := values[i - 1];
        i := i - 1;
      }
    }

    /** Make room at pos and put the new entry there. */
    method InsertEntry(pos: nat, key: int, value: RecordID)
      requires Valid() && isLeaf && numKeys <= MAX_KEYS && pos <= numKeys
      modifies this`numKeys, keys, values
      ensures Valid() && numKeys == old(numKeys) + 1
      ensures Content() == old(LeafPage(InsertAt(Content().keys, pos, key),
                                        InsertAt(Content().values, pos, value), next))
    {
      hide InsertAt;
      ghost var ks, vs := keys[..numKeys], values[..numKeys];
      ShiftEntries(pos);
      keys[pos] := key;
      values[pos] := value;
      numKeys := numKeys + 1;
      ShiftedArray(keys, ks, pos, key);
      ShiftedArray(values, vs, pos, value);
    }

    /** Shift the separators from pos on, and the children to their right. */
    method ShiftChildren(pos: nat)
      requires Valid() && numKeys <= MAX_KEYS && pos <= numKeys
      modifies keys, children
      ensures forall j :: 0 <= j < pos ==> keys[j] == old(keys[j])
      ensures forall j :: 0 <= j <= pos ==> children[j] == old(children[j])
      ensures forall j :: pos < j <= numKeys ==> keys[j] == old(keys[j - 1])
      ensures forall j :: pos + 1 < j <= numKeys + 1 ==> children[j] == old(children[j - 1])
    {
      var i := numKeys;
      while i > pos
        invariant pos <= i <= numKeys
        invariant forall j :: 0 <= j <= i ==> keys[j] == old(keys[j])
        invariant forall j :: 0 <= j <= i ==> children[j] == old(children[j])
        invariant forall j :: i < j <= numKeys ==> keys[j] == old(keys[j - 1])
        invariant forall j :: i + 1 < j <= numKeys + 1 ==> children[j] == old(children[j - 1])
      {
        keys[i] := keys[i - 1];
        children[i + 1] := children[i];
        i := i - 1;
      }
    }

    /** The same for a separator and the child to its right. */
    method InsertChild(pos: nat, key: int, kid: int)
      requires Valid() && !isLeaf && numKeys <= MAX_KEYS && pos <= numKeys
      modifies this`numKeys, keys, children
      ensures Valid() && numKeys == old(numKeys) + 1
      ensures Content() == old(InnerPage(InsertAt(Content().keys, pos, key), InsertAt(Content().kids, pos + 1, kid)))
    {
      hide InsertAt;
      ghost var ks, cs := keys[..numKeys], children[..numKeys + 1];
      ShiftChildren(pos);
      keys[pos] := key;
      children[pos + 1] := kid;
      numKeys := numKeys + 1;
      ShiftedArray(keys, ks, pos, key);
      ShiftedArray(children, cs, pos + 1, kid);
    }

    /** The page of the child that a search for key goes to. */
    method ChildFor(key: int) returns (kid: int)
      requires Valid() && !isLeaf
      ensures Content().InnerPage? && UpperBound(Content().keys, key) < |Content().kids|
      ensures kid == Content().kids[UpperBound(Content().keys, key)]
    {
      var idx := UpperBound(keys[..numKeys], key);
      kid := children[idx];
      assert kid == children[..numKeys + 1][idx];
    }

    /** Look for a key from the left. */
    method Search(key: int) returns (r: Option<RecordID>)
      requires Valid() && isLeaf
      ensures r == FirstMatch(Content().keys, Content().values, key)
    {
      ghost var ks, vs := keys[..numKeys], values[..numKeys];
      var i := 0;
      while i < numKeys
        invariant 0 <= i <= numKeys
        invariant FirstMatch(ks, vs, key) == FirstMatch(ks[i..], vs[i..], key)
      {
        assert ks[i..][0] == keys[i] && vs[i..][0] == values[i];
        assert ks[i..][1..] == ks[i + 1..] && vs[i..][1..] == vs[i + 1..];
        if keys[i] == key { return Some(values[i]); }
        i := i + 1;
      }
      return None;
    }

    /** The values of this leaf in [low, high], up to the first key above high; `done` if
        there is one. */
    method Collect(low: int, high: int) returns (found: seq<RecordID>, done: bool)
      requires Valid() && isLeaf
      ensures done == (UpperBound(Content().keys, high) < |Content().keys|)
      ensures var n := UpperBound(Content().keys, high);
              found == ValuesOf(Within(Zip(Content().keys, Content().values)[..n], low, high))
    {
      ghost var ks, es := keys[..numKeys], Zip(keys[..numKeys], values[..numKeys]);
      found := [];
      var i := 0;
      while i < numKeys
        invariant 0 <= i <= numKeys && forall j :: 0 <= j < i ==> ks[j] <= high
        invariant found == ValuesOf(Within(es[..i], low, high))
      {
        WithinNext(es, i, low, high);
        if keys[i] >= low && keys[i] <= high {
          found := found + [values[i]];
        } else if keys[i] > high {
          UpperBoundIs(ks, high, i);
          return found, true;
        }
        i := i + 1;
      }
      UpperBoundIs(ks, high, i);
      done := false;
    }

    /** Close the gap at pos. */
    method RemoveEntry(pos: nat)
      requires Valid() && isLeaf && pos < numKeys
      modifies this`numKeys, keys, values
      ensures Valid() && numKeys == old(numKeys) - 1
      ensures Content() == old(LeafPage(Content().keys[..pos] + Content().keys[pos + 1..],
                                        Content().values[..pos] + Content().values[pos + 1..], next))
    {
      ghost var ks, vs := keys[..numKeys], values[..numKeys];
      var i := pos;
      while i < numKeys - 1
        invariant pos <= i <= numKeys - 1 && numKeys == old(numKeys)
        invariant forall j :: 0 <= j < pos || i <= j < numKeys ==>
                  keys[j] == old(keys[j]) && values[j] == old(values[j])
        invariant forall j :: pos <= j < i ==> keys[j] == old(keys[j + 1]) && values[j] == old(values[j + 1])
      {
        keys[i] := keys[i + 1];
        values[i] := values[i + 1];
        i := i + 1;
      }
      numKeys := numKeys - 1;
      ArrayIs(keys, numKeys, ks[..pos] + ks[pos + 1..]);
      ArrayIs(values, numKeys, vs[..pos] + vs[pos + 1..]);
    }

    /** Take a key out of the leaf, if it is there. */
    method RemoveKey(key: int) returns (found: bool)
      requires Valid() && isLeaf && numKeys <= MAX_KEYS
      modifies this`numKeys, keys, values
      ensures Valid() && isLeaf && numKeys <= MAX_KEYS
      ensures found == Hit(old(Content().keys), key)
      ensures Content() == if found then WithoutKey(old(Content()), key) else old(Content())
    {
      var pos := LowerBound(keys[..numKeys], key);
      if pos >= numKeys || keys[pos] != key { return false; }
      RemoveEntry(pos);
      return true;
    }

    /** Copy the entries of src from a place on. */
    method TakeEntries(src: Node, from: nat)
      requires Valid() && src.Valid() && keys != src.keys && values != src.values && from + numKeys <= src.numKeys
      requires keys != src.children && children != src.keys
      modifies keys, values
      ensures forall j :: 0 <= j < numKeys ==> keys[j] == src.keys[from + j] && values[j] == src.values[from + j]
    {
      var i := 0;
      while i < numKeys
        invariant 0 <= i <= numKeys
        invariant forall j :: 0 <= j < i ==> keys[j] == src.keys[from + j] && values[j] == src.values[from + j]
      {
        keys[i] := src.keys[from + i];
        values[i] := src.values[from + i];
        i := i + 1;
      }
    }

    /** Copy the separators of src from a place on, and the child left of each. */
    method TakeChildren(src: Node, from: nat)
      requires Valid() && src.Valid() && keys != src.keys && children != src.children && from + numKeys <= src.numKeys
      requires keys != src.children && children != src.keys
      modifies keys, children
      ensures forall j :: 0 <= j < numKeys ==> keys[j] == src.keys[from + j]
      ensures forall j :: 0 <= j < numKeys ==> children[j] == src.children[from + j]
    {
      var i := 0;
      while i < numKeys
        invariant 0 <= i <= numKeys
        invariant forall j :: 0 <= j < i ==> keys[j] == src.keys[from + j]
        invariant forall j :: 0 <= j < i ==> children[j] == src.children[from + j]
      {
        keys[i] := src.keys[from + i];
        children[i] := src.children[from + i];
        i := i + 1;
      }
    }

    /** Move the upper half of the entries into a new leaf. */
    method SplitLeaf() returns (right: Node)
      requires Valid() && isLeaf && numKeys == MAX_KEYS + 1
      modifies this`numKeys
      ensures Valid() && numKeys == HALF
      ensures fresh(right) && fresh(right.keys) && fresh(right.values) && fresh(right.children)
      ensures right.Valid() && right.isLeaf && right.numKeys == MAX_KEYS + 1 - numKeys
      ensures Content() == old(LeafPage(Content().keys[..HALF], Content().values[..HALF], next))
      ensures right.Content() == old(LeafPage(Content().keys[HALF..], Content().values[HALF..], next))
    {
      ghost var ks, vs := keys[..numKeys], values[..numKeys];
      var split := numKeys / 2;
      right := new Node();
      right.numKeys := numKeys - split;
      right.TakeEntries(this, split);
      right.next := next;
      numKeys := split;
      ArrayIs(right.keys, right.numKeys, ks[split..]);
      ArrayIs(right.values, right.numKeys, vs[split..]);
      ArrayIs(keys, split, ks[..split]);
      ArrayIs(values, split, vs[..split]);
    }

    /** Move the separators after the middle one, and their children, into a new node. */
    method SplitInner() returns (upKey: int, right: Node)
      requires Valid() && !isLeaf && numKeys == MAX_KEYS + 1
      modifies this`numKeys
      ensures Valid() && numKeys == HALF && upKey == old(Content().keys[HALF])
      ensures fresh(right) && fresh(right.keys) && fresh(right.values) && fresh(right.children)
      ensures right.Valid() && !right.isLeaf && right.numKeys == MAX_KEYS - numKeys
      ensures Content() == old(InnerPage(Content().keys[..HALF], Content().kids[..HALF + 1]))
      ensures right.Content() == old(InnerPage(Content().keys[HALF + 1..], Content().kids[HALF + 1..]))
    {
      ghost var ks, cs := keys[..numKeys], children[..numKeys + 1];
      var split := numKeys / 2;
      upKey := keys[split];
      right := new Node();
      right.isLeaf := false;
      right.numKeys := numKeys - split - 1;
      right.TakeChildren(this, split + 1);
      // The last live child is children[numKeys]; see LastChildIndex.
      right.children[right.numKeys] := children[numKeys];
      numKeys := split;
      ArrayIs(right.keys, right.numKeys, ks[split + 1..]);
      ArrayIs(right.children, right.numKeys + 1, cs[split + 1..]);
      ArrayIs(keys, split, ks[..split]);
      ArrayIs(children, split + 1, cs[..split + 1]);
    }
  }

  /** After the new separator is in, the live children of a node with numKeys keys are
      0..numKeys.  The source reads children[numKeys + 1]: one past the live ones, and one
      past the spare place as well. */
  lemma LastChildIndex(t: Tree, idx: nat, l: Tree, sep: int, r: Tree)
    requires t.Inner? && |t.children| == |t.keys| + 1 && idx < |t.children| && |t.keys| == MAX_KEYS
    ensures var u := SpliceNode(t, idx, l, sep, r);
            |u.keys| + 1 == |u.children| && |u.keys| + 1 == MAX_KEYS + 2
            && CutNode(u, 0).Two? && CutNode(u, 0).right.children[|CutNode(u, 0).right.keys|] == u.children[|u.keys|]
  {
  }

  // ---------- the store around one insertion step ----------

  lemma {:induction false} InsertPage(t: Tree, k: int, v: RecordID, f: int)
    requires Wf(t)
    ensures match InsertT(t, k, v, f).0
            case One(u) => u.page == t.page
            case Two(l, _, r) => l.page == t.page
  {
  }

  /** After the child at idx split into l | sep | r, all new children are stored. */
  lemma KidsStored(m: Store, n: Store, t: Tree, idx: nat, l: Tree, sep: int, r: Tree, count: int)
    requires t.Inner? && |t.children| == |t.keys| + 1 && idx < |t.children|
    requires Stored(m, t) && PagesOk(t, count) && OnlyBelow(m, n, t.children[idx], count)
    requires Strict(t.keys) && Above(sep, LoOf(t.keys, None, idx)) && Below(sep, HiOf(t.keys, None, idx))
    requires Stored(n, l) && Stored(n, r)
    ensures StoredAll(n, SpliceNode(t, idx, l, sep, r).children)
  {
    hide Stored, PagesOk, OnlyBelow, Strict, Above, Below;
    var u := SpliceNode(t, idx, l, sep, r);
    SpliceForm(t, idx, l, sep, r);
    SiblingsKept(m, n, t, idx, count);
    forall i | 0 <= i < |u.children|
      ensures Stored(n, u.children[i])
    {
      if i < idx { assert u.children[i] == t.children[i]; }
      else if i > idx + 1 { assert u.children[i] == t.children[i - 1]; }
    }
  }

  /** The new children use neither the page of their parent nor an unallocated page. */
  lemma KidsReach(t: Tree, k: int, v: RecordID, f: int, lo: Option<int>, hi: Option<int>, q: int)
    requires t.Inner? && Wf(t) && Ordered(t, lo, hi) && AtLeast(k, lo) && Below(k, hi) && PagesOk(t, f)
    requires var idx := UpperBound(t.keys, k);
             InsertT(t.children[idx], k, v, f).0.Two? && (q == t.page || q >= InsertT(t.children[idx], k, v, f).1)
    ensures var idx := UpperBound(t.keys, k); var o := InsertT(t.children[idx], k, v, f).0;
            ReachAll(SpliceNode(t, idx, o.left, o.sep, o.right).children, q) == 0
  {
    var ks, idx := t.keys, UpperBound(t.keys, k);
    var (o, f') := InsertT(t.children[idx], k, v, f);
    ChildRange(ks, k, lo, hi);
    InsertOrdered(t.children[idx], k, v, f, LoOf(ks, lo, idx), HiOf(ks, hi, idx));
    InsertReach(t.children[idx], k, v, f, LoOf(ks, lo, idx), HiOf(ks, hi, idx), q);
    SpliceReach(t, idx, o.left, o.sep, o.right, q);
    PagesOkChild(t, idx, f);
    assert Reach(t, q) <= if 1 <= q < f then 1 else 0;
    ReachChild(t.children, idx, q);
  }

  lemma CutStored(m: Store, u: Tree, f: int)
    requires u.Inner? && |u.children| == |u.keys| + 1 && |u.keys| > MAX_KEYS && u.page != f
    requires StoredAll(m, u.children) && ReachAll(u.children, u.page) == 0 && ReachAll(u.children, f) == 0
    ensures var o := CutNode(u, f);
            var n := m[u.page := Image(o.left)][f := ZeroPage][f := Image(o.right)];
            Stored(n, o.left) && Stored(n, o.right)
  {
    var o := CutNode(u, f);
    var m1 := m[u.page := Image(o.left)];
    var m2 := m1[f := ZeroPage];
    var n := m2[f := Image(o.right)];
    StoredAllWrite(m, u.children, u.page, Image(o.left));
    StoredAllWrite(m1, u.children, f, ZeroPage);
    StoredAllWrite(m2, u.children, f, Image(o.right));
    var s := |u.keys| / 2;
    forall i | 0 <= i < |o.left.children|
      ensures Stored(n, o.left.children[i])
    {
      assert o.left.children[i] == u.children[i];
    }
    forall i | 0 <= i < |o.right.children|
      ensures Stored(n, o.right.children[i])
    {
      assert o.right.children[i] == u.children[s + 1 + i];
    }
  }

  lemma ReplaceStored(m: Store, n: Store, t: Tree, idx: nat, c: Tree, count: int)
    requires t.Inner? && idx < |t.children| && Stored(m, t) && PagesOk(t, count)
    requires OnlyBelow(m, n, t.children[idx], count) && Stored(n, c) && c.page == t.children[idx].page
    ensures Stored(n, Inner(t.page, t.keys, t.children[idx := c]))
  {
    SiblingsKept(m, n, t, idx, count);
    assert PageNums(t.children[idx := c]) == PageNums(t.children);
  }

  /** The routed leaf of a stored tree is stored. */
  lemma {:induction false} RouteStored(m: Store, t: Tree, k: int)
    requires Wf(t) && Stored(m, t)
    ensures Stored(m, Route(t, k).1)
    decreases t
  {
    if t.Inner? { RouteStored(m, t.children[UpperBound(t.keys, k)], k); }
  }

  lemma {:induction false} LeavesStored(m: Store, t: Tree)
    requires Stored(m, t)
    ensures StoredAll(m, Leaves(t))
    decreases t, 1
  {
    if t.Inner? { LeavesAllStored(m, t.children); }
  }

  lemma {:induction false} LeavesAllStored(m: Store, cs: seq<Tree>)
    requires StoredAll(m, cs)
    ensures StoredAll(m, LeavesAll(cs))
    decreases cs, 0
  {
    if cs != [] {
      LeavesStored(m, cs[0]);
      LeavesAllStored(m, cs[1..]);
    }
  }

  /** What an insertion below t needs: an ordered subtree of allocated pages, and a key
      that belongs there. */
  ghost predicate Ready(t: Tree, k: int, count: int, lo: Option<int>, hi: Option<int>) {
    Wf(t) && Ordered(t, lo, hi) && AtLeast(k, lo) && Below(k, hi) && PagesOk(t, count)
  }

  ghost predicate Returned(o: Outcome, split: bool, sep: int, newPage: int) {
    match o
    case One(_) => !split
    case Two(_, s, r) => split && sep == s && newPage == r.page
  }

  ghost predicate OutStored(m: Store, o: Outcome) {
    match o
    case One(u) => Stored(m, u)
    case Two(l, _, r) => Stored(m, l) && Stored(m, r)
  }

  /** u is the inner node on the page, with one more separator and child. */
  ghost predicate Widened(page: Page, sep: int, kid: int, u: Tree)
    requires page.InnerPage? && u.Inner?
  {
    var pos := LowerBound(page.keys, sep);
    pos < |page.kids| && u.keys == InsertAt(page.keys, pos, sep)
    && PageNums(u.children) == InsertAt(page.kids, pos + 1, kid)
  }

  lemma LeafReady(t: Tree, k: int, count: int, lo: Option<int>, hi: Option<int>)
    requires t.Leaf? && Ready(t, k, count, lo, hi)
    ensures 1 <= t.page < count
  {
    assert Reach(t, t.page) <= if 1 <= t.page < count then 1 else 0;
  }

  lemma ChildReady(t: Tree, k: int, count: int, lo: Option<int>, hi: Option<int>)
    requires t.Inner? && Ready(t, k, count, lo, hi)
    ensures var i := UpperBound(t.keys, k); Ready(t.children[i], k, count, LoOf(t.keys, lo, i), HiOf(t.keys, hi, i))
    ensures 1 <= t.page < count
  {
    ChildRange(t.keys, k, lo, hi);
    PagesOkChild(t, UpperBound(t.keys, k), count);
    assert KidsOrdered(t.keys, t.children, lo, hi);
  }

  /** One level up, after the child has been dealt with: m is the store before, n after. */
  lemma InnerStep(m: Store, n: Store, t: Tree, k: int, v: RecordID, count: int, lo: Option<int>, hi: Option<int>)
    requires t.Inner? && Stored(m, t) && Ready(t, k, count, lo, hi)
    requires var c := t.children[UpperBound(t.keys, k)];
             OnlyBelow(m, n, c, count) && OutStored(n, InsertT(c, k, v, count).0)
    ensures OnlyBelow(m, n, t, count)
    ensures var idx := UpperBound(t.keys, k); var (o, f) := InsertT(t.children[idx], k, v, count);
            1 <= t.page < count <= f
            && match o
               case One(c) => Stored(n, Inner(t.page, t.keys, t.children[idx := c]))
               case Two(l, sep, r) =>
                 var u := SpliceNode(t, idx, l, sep, r);
                 u.page == t.page && Widened(Image(t), sep, r.page, u)
                 && StoredAll(n, u.children)
                 && ReachAll(u.children, t.page) == 0 && ReachAll(u.children, f) == 0
  {
    var idx := UpperBound(t.keys, k);
    var (o, f) := InsertT(t.children[idx], k, v, count);
    ChildReady(t, k, count, lo, hi);
    var tlo, thi := LoOf(t.keys, lo, idx), HiOf(t.keys, hi, idx);
    InsertPage(t.children[idx], k, v, count);
    SiblingsKept(m, n, t, idx, count);
    InsertReach(t.children[idx], k, v, count, tlo, thi, 0);
    match o {
      case One(c) => ReplaceStored(m, n, t, idx, c, count);
      case Two(l, sep, r) =>
        InsertOrdered(t.children[idx], k, v, count, tlo, thi);
        KidsStored(m, n, t, idx, l, sep, r, count);
        KidsReach(t, k, v, count, lo, hi, t.page);
        KidsReach(t, k, v, count, lo, hi, f);
        NodeSplice(t, idx, l, sep, r);
    }
  }

  // ---------- the index ----------

  class BPlusTree {
    /** The pages of the index file, seen through the buffer pool. */
    var pages: Store
    var pageCount: int
    var rootPage: int
    ghost var tree: Tree

    ghost predicate Valid()
      reads this
    {
      Inv(tree, pageCount) && Stored(pages, tree) && tree.page == rootPage
      && 0 in pages && pages[0] == Header(rootPage)
    }

    /** The key/value map that the index holds. */
    ghost function Entries(): map<int, RecordID>
      requires Valid()
      reads this
    {
      Contents(tree)
    }

    /** A fresh index: a header page and one empty leaf. */
    constructor ()
      ensures Valid() && Entries() == map[]
    {
      pages := map[0 := Header(1), 1 := LeafPage([], [], -1)];
      pageCount, rootPage := 2, 1;
      tree := EmptyTree;
      new;
      EmptyInv();
    }

    method ReadNode(pageId: int) returns (node: Node)
      requires pageId in pages && !pages[pageId].Header? && |pages[pageId].keys| <= MAX_KEYS
      requires match pages[pageId]
               case LeafPage(ks, vs, _) => |vs| == |ks|
               case InnerPage(ks, cs) => |cs| == |ks| + 1
      ensures fresh(node) && fresh(node.keys) && fresh(node.values) && fresh(node.children)
      ensures node.Valid() && node.Content() == pages[pageId]
    {
      node := new Node();
      var page := pages[pageId];
      node.numKeys := |page.keys|;
      var ks := page.keys;
      forall i | 0 <= i < |ks| { node.keys[i] := ks[i]; }
      match page {
        case LeafPage(_, vs, nx) =>
          node.isLeaf, node.next := true, nx;
          forall i | 0 <= i < |vs| { node.values[i] := vs[i]; }
        case InnerPage(_, cs) =>
          node.isLeaf := false;
          forall i | 0 <= i < |cs| { node.children[i] := cs[i]; }
      }
    }

    method WriteNode(pageId: int, node: Node)
      requires node.Valid() && node.numKeys <= MAX_KEYS
      modifies this`pages
      ensures pages == old(pages)[pageId := node.Content()]
    {
      var page;
      if node.isLeaf {
        page := LeafPage(node.keys[..node.numKeys], node.values[..node.numKeys], node.next);
      } else {
        page := InnerPage(node.keys[..node.numKeys], node.children[..node.numKeys + 1]);
      }
      pages := pages[pageId := page];
    }

    /** The free list of the index file is always empty, so pages are handed out in order;
        a new page is filled with zero bytes. */
    method AllocatePage() returns (pageId: int)
      modifies this`pages, this`pageCount
      ensures pageId == old(pageCount) && pageCount == old(pageCount) + 1
      ensures pages == old(pages)[pageId := ZeroPage]
    {
      pageId := pageCount;
      pages := pages[pageId := ZeroPage];
      pageCount := pageCount + 1;
    }

    method FindLeafPage(pageId: int, key: int, ghost t: Tree, ghost h: nat) returns (leaf: int)
      requires Stored(pages, t) && t.page == pageId && Wf(t) && Shape(t, h)
      ensures leaf == Route(t, key).1.page
      decreases t
    {
      var node := ReadNode(pageId);
      if node.isLeaf { return pageId; }
      assert node.keys[..node.numKeys] == t.keys && node.children[..node.numKeys + 1] == PageNums(t.children);
      var i := 0;
      while i < node.numKeys && key >= node.keys[i]
        invariant 0 <= i <= node.numKeys == |t.keys|
        invariant node.keys[..node.numKeys] == t.keys
        invariant forall j :: 0 <= j < i ==> t.keys[j] <= key
      {
        i := i + 1;
      }
      UpperBoundIs(t.keys, key, i);
      assert node.children[i] == node.children[..node.numKeys + 1][i];
      var child := node.children[i];
      leaf := FindLeafPage(child, key, t.children[i], h - 1);
    }

    /** Insert below a node.  `split` says that the node was cut in two: the caller has to
        put the separator `sep` and the page `newPage` of the right half into the parent. */
    method InsertRecursive(pageId: int, key: int, value: RecordID,
                           ghost t: Tree, ghost h: nat, ghost lo: Option<int>, ghost hi: Option<int>)
      returns (split: bool, sep: int, newPage: int)
      requires Stored(pages, t) && t.page == pageId && Shape(t, h) && Ready(t, key, pageCount, lo, hi)
      modifies this`pages, this`pageCount
      ensures pageCount == InsertT(t, key, value, old(pageCount)).1
      ensures Returned(InsertT(t, key, value, old(pageCount)).0, split, sep, newPage)
      ensures OutStored(pages, InsertT(t, key, value, old(pageCount)).0)
      ensures OnlyBelow(old(pages), pages, t, old(pageCount))
      decreases t
    {
      hide Ordered, Reach, InsertLeaf, CutNode, SpliceNode, Widened;
      ghost var m, count := pages, pageCount;
      var node := ReadNode(pageId);
      if node.isLeaf {
        LeafReady(t, key, pageCount, lo, hi);
        split, sep, newPage := InsertIntoLeaf(pageId, node, key, value, t);
        OnlyBelowThen(m, m, pages, t, count, count);
      } else {
        ghost var idx := UpperBound(t.keys, key);
        var childId := node.ChildFor(key);
        ChildReady(t, key, pageCount, lo, hi);
        split, sep, newPage := InsertRecursive(childId, key, value, t.children[idx], h - 1,
                                               LoOf(t.keys, lo, idx), HiOf(t.keys, hi, idx));
        InnerStep(m, pages, t, key, value, count, lo, hi);
        if split {
          ghost var o, n := InsertT(t.children[idx], key, value, count).0, pages;
          split, sep, newPage := PutChild(pageId, node, sep, newPage, SpliceNode(t, idx, o.left, o.sep, o.right));
          OnlyBelowThen(m, n, pages, t, count, InsertT(t.children[idx], key, value, count).1);
        }
      }
    }

    method InsertIntoLeaf(pageId: int, node: Node, key: int, value: RecordID, ghost t: Tree)
      returns (split: bool, sep: int, newPage: int)
      requires node.Valid() && node.isLeaf && node.numKeys <= MAX_KEYS && node.Content() == Image(t)
      requires t.Leaf? && t.page == pageId && pageId < pageCount
      modifies this`pages, this`pageCount, node, node.keys, node.values
      ensures Returned(InsertLeaf(t, key, value, old(pageCount)), split, sep, newPage)
      ensures OutStored(pages, InsertLeaf(t, key, value, old(pageCount)))
      ensures pageCount == old(pageCount) + if split then 1 else 0
      ensures KeptExcept(old(pages), pages, pageId, old(pageCount))
    {
      var pos := LowerBound(node.keys[..node.numKeys], key);
      if pos < node.numKeys && node.keys[pos] == key {
        node.values[pos] := value;
        assert node.values[..node.numKeys] == t.values[pos := value];
        WriteNode(pageId, node);
        return false, 0, -1;
      }
      node.InsertEntry(pos, key, value);
      if node.numKeys <= MAX_KEYS {
        WriteNode(pageId, node);
        return false, 0, -1;
      }
      sep, newPage := SplitLeafPage(pageId, node);
      split := true;
    }

    /** Cut an overfull leaf in two and link the halves. */
    method SplitLeafPage(pageId: int, node: Node) returns (sep: int, next: int)
      requires node.Valid() && node.isLeaf && node.numKeys == MAX_KEYS + 1 && pageId < pageCount
      modifies this`pages, this`pageCount, node
      ensures next == old(pageCount) && pageCount == next + 1
      ensures sep == old(node.Content().keys[HALF])
      ensures pages == old(pages)[next := ZeroPage]
                       [pageId := LeafPage(old(node.Content().keys[..HALF]), old(node.Content().values[..HALF]), next)]
                       [next := LeafPage(old(node.Content().keys[HALF..]), old(node.Content().values[HALF..]),
                                         old(node.next))]
    {
      var newLeaf := node.SplitLeaf();
      assert newLeaf.keys[0] == newLeaf.Content().keys[0];
      next := AllocatePage();
      node.next := next;
      WriteNode(pageId, node);
      WriteNode(next, newLeaf);
      return newLeaf.keys[0], next;
    }

    /** Put a separator and a new child into an inner node and split it if it overflows. */
    method PutChild(pageId: int, node: Node, key: int, kid: int, ghost u: Tree)
      returns (split: bool, sep: int, newPage: int)
      requires node.Valid() && node.Content().InnerPage? && |node.Content().keys| <= MAX_KEYS
      requires u.Inner? && u.page == pageId && |u.children| == |u.keys| + 1 && pageId < pageCount
      requires Widened(node.Content(), key, kid, u)
      requires StoredAll(pages, u.children) && ReachAll(u.children, pageId) == 0 && ReachAll(u.children, pageCount) == 0
      modifies this`pages, this`pageCount, node, node.keys, node.children
      ensures pageCount == old(pageCount) + if split then 1 else 0
      ensures Returned(CutNode(u, old(pageCount)), split, sep, newPage) && OutStored(pages, CutNode(u, old(pageCount)))
      ensures KeptExcept(old(pages), pages, pageId, old(pageCount))
    {
      ghost var m := pages;
      var pos := LowerBound(node.keys[..node.numKeys], key);
      node.InsertChild(pos, key, kid);
      assert node.Content() == Image(u);
      if node.numKeys <= MAX_KEYS {
        WriteNode(pageId, node);
        StoredAllWrite(m, u.children, pageId, Image(u));
        return false, 0, -1;
      }
      split, sep, newPage := SplitInner(pageId, node, u);
    }

    method SplitInner(pageId: int, node: Node, ghost u: Tree)
      returns (split: bool, upKey: int, newPage: int)
      requires node.Valid() && node.numKeys == MAX_KEYS + 1 && node.Content() == Image(u)
      requires u.Inner? && u.page == pageId && |u.children| == |u.keys| + 1 && pageId < pageCount
      requires StoredAll(pages, u.children) && ReachAll(u.children, pageId) == 0 && ReachAll(u.children, pageCount) == 0
      modifies this`pages, this`pageCount, node
      ensures split && pageCount == old(pageCount) + 1
      ensures Returned(CutNode(u, old(pageCount)), split, upKey, newPage)
                && OutStored(pages, CutNode(u, old(pageCount)))
      ensures KeptExcept(old(pages), pages, pageId, old(pageCount))
    {
      hide Stored, ReachAll, Reach;
      ghost var m := pages;
      var newInt;
      upKey, newInt := node.SplitInner();
      WriteNode(pageId, node);
      newPage := AllocatePage();
      WriteNode(newPage, newInt);
      CutImages(u, newPage);
      CutStored(m, u, newPage);
      split := true;
    }

    /** Insert or overwrite one key. */
    method Insert(key: int, value: RecordID)
      requires Valid()
      modifies this
      ensures Valid() && Entries() == old(Entries())[key := value]
      ensures (tree, pageCount) == InsertTree(old(tree), key, value, old(pageCount))
    {
      hide Ordered, Reach, Chained, Contents;
      ghost var t, f := tree, pageCount;
      InsertKeeps(t, key, value, f);
      var split, sep, right := InsertRecursive(rootPage, key, value, tree, Height(tree), None, None);
      HeaderKept(t, f, old(pages), pages);
      tree := InsertTree(t, key, value, f).0;
      if split {
        ghost var o := InsertT(t, key, value, f).0;
        RootReady(pages, o.left, sep, o.right, t, key, value, f);
        GrowRoot(sep, right, o.left, o.right);
        HeaderApart(pages, tree, pageCount, Header(rootPage));
        WriteHeader();
      } else {
        InsertPage(t, key, value, f);
      }
    }

    method GrowRoot(sep: int, right: int, ghost l: Tree, ghost r: Tree)
      requires l.page == rootPage && r.page == right && StoredAll(pages, [l, r]) && ReachAll([l, r], pageCount) == 0
      modifies this`pages, this`pageCount, this`rootPage
      ensures rootPage == old(pageCount) && pageCount == old(pageCount) + 1
      ensures Stored(pages, Inner(rootPage, [sep], [l, r]))
    {
      ghost var m := pages;
      var newRoot := new Node();
      newRoot.isLeaf := false;
      newRoot.numKeys := 1;
      newRoot.keys[0] := sep;
      newRoot.children[0] := rootPage;
      newRoot.children[1] := right;
      var newRootPage := AllocatePage();
      assert newRoot.keys[..1] == [sep] && newRoot.children[..2] == PageNums([l, r]);
      WriteNode(newRootPage, newRoot);
      StoredAllWrite(m, [l, r], newRootPage, ZeroPage);
      StoredAllWrite(m[newRootPage := ZeroPage], [l, r], newRootPage, InnerPage([sep], PageNums([l, r])));
      rootPage := newRootPage;
    }

    /** Walk down to the leaf for a key and read it. */
    method LeafOf(key: int) returns (leaf: int, node: Node)
      requires Valid()
      ensures Wf(Route(tree, key).1) && leaf == Route(tree, key).1.page
      ensures fresh(node) && fresh(node.keys) && fresh(node.values) && fresh(node.children)
      ensures node.Valid() && node.isLeaf && node.numKeys <= MAX_KEYS && node.Content() == Image(Route(tree, key).1)
    {
      hide Ordered, Reach, Chained, Contents;
      leaf := FindLeafPage(rootPage, key, tree, Height(tree));
      RouteStored(pages, tree, key);
      RouteShape(tree, key, Height(tree));
      node := ReadNode(leaf);
    }

    /** The value stored under key, if there is one.  The root page of a valid index is
        never negative, so the source's test for that is left out. */
    method Find(key: int) returns (r: Option<RecordID>)
      requires Valid()
      ensures r == Get(Entries(), key)
    {
      LookupCorrect(tree, key);
      var leaf, node := LeafOf(key);
      r := node.Search(key);
    }

    /** Remove one key; only its leaf changes.  Returns whether the key was there. */
    method Remove(key: int) returns (found: bool)
      requires Valid()
      modifies this`pages, this`tree
      ensures Valid() && found == (key in old(Entries())) && Entries() == old(Entries()) - {key}
      ensures tree == RemoveTree(old(tree), key)
    {
      hide Inv, Stored, RemoveTree, Route, Contents;
      ghost var t := tree;
      RemoveOpen(t, key, pageCount);
      var leaf, node := LeafOf(key);
      RemovedImage(Route(t, key).1, key);
      found := node.RemoveKey(key);
      tree := RemoveTree(t, key);
      if found {
        RemoveStored(pages, t, key, pageCount);
        WriteNode(leaf, node);
      } else {
        RemoveMissing(t, key);
      }
    }

    /** The values of all keys in [low, high], in ascending key order (see ScanMeaning). */
    method RangeScan(low: int, high: int) returns (result: seq<RecordID>)
      requires Valid()
      ensures result == Scan(tree, low, high)
    {
      hide Ordered, Reach, Contents;
      var leaf := FindLeafPage(rootPage, low, tree, Height(tree));
      ghost var todo := ScanStart(pages, tree, low, high, pageCount);
      assert Stored(pages, todo[0]);
      var node := ReadNode(leaf);
      result := [];
      while true
        invariant ScanTodo(pages, todo, result, tree, low, high)
        invariant node.Valid() && node.Content() == Image(todo[0])
        decreases |todo|
      {
        var found, done := node.Collect(low, high);
        ScanStep(pages, todo, result, found, done, tree, low, high);
        result := result + found;
        if done || node.next < 0 { return; }
        leaf := node.next;
        todo := todo[1..];
        assert Stored(pages, todo[0]);
        node := ReadNode(leaf);
      }
    }

    method WriteHeader()
      modifies this`pages
      ensures pages == old(pages)[0 := Header(rootPage)]
    {
      pages := pages[0 := Header(rootPage)];
    }
  }

  lemma NodeSplice(t: Tree, idx: nat, l: Tree, sep: int, r: Tree)
    requires t.Inner? && |t.children| == |t.keys| + 1 && idx < |t.children| && Strict(t.keys)
    requires l.page == t.children[idx].page
    requires Above(sep, LoOf(t.keys, None, idx)) && Below(sep, HiOf(t.keys, None, idx))
    ensures var u := SpliceNode(t, idx, l, sep, r); var pos := LowerBound(t.keys, sep);
            pos == idx && u.page == t.page && u.keys == InsertAt(t.keys, pos, sep)
            && PageNums(u.children) == InsertAt(PageNums(t.children), pos + 1, r.page)
  {
    SpliceForm(t, idx, l, sep, r);
    LowerBoundIs(t.keys, sep, idx);
    var cs := t.children[idx := l];
    assert PageNums(cs) == PageNums(t.children);
    PageNumsInsert(cs, idx + 1, r);
  }

  lemma PageNumsInsert(cs: seq<Tree>, i: nat, r: Tree)
    requires i <= |cs|
    ensures PageNums(InsertAt(cs, i, r)) == InsertAt(PageNums(cs), i, r.page)
  {
  }

  lemma CutImages(u: Tree, f: int)
    requires u.Inner? && |u.children| == |u.keys| + 1 && |u.keys| == MAX_KEYS + 1
    ensures var o := CutNode(u, f); var s := |u.keys| / 2; var kids := PageNums(u.children);
            Image(o.left) == InnerPage(u.keys[..s], kids[..s + 1])
            && Image(o.right) == InnerPage(u.keys[s + 1..], kids[s + 1..])
  {
  }

  lemma RootReady(m: Store, l: Tree, sep: int, r: Tree, t: Tree, k: int, v: RecordID, f: int)
    requires Wf(t) && Ordered(t, None, None) && PagesOk(t, f) && InsertT(t, k, v, f).0 == Two(l, sep, r)
    requires Stored(m, l) && Stored(m, r)
    ensures StoredAll(m, [l, r]) && ReachAll([l, r], InsertT(t, k, v, f).1) == 0 && l.page == t.page
  {
    var q := InsertT(t, k, v, f).1;
    InsertReach(t, k, v, f, None, None, q);
    assert Reach(t, q) <= if 1 <= q < f then 1 else 0;
    ReachPair(l, r, q);
    InsertPage(t, k, v, f);
  }

  lemma HeaderKept(t: Tree, f: int, m: Store, n: Store)
    requires PagesOk(t, f) && f > 0 && OnlyBelow(m, n, t, f) && 0 in m
    ensures 0 in n && n[0] == m[0]
  {
    assert Reach(t, 0) <= if 1 <= 0 < f then 1 else 0;
  }

  /** The header page is not part of the tree. */
  lemma HeaderApart(n: Store, t: Tree, f: int, header: Page)
    requires PagesOk(t, f) && Stored(n, t)
    ensures Stored(n[0 := header], t)
  {
    assert Reach(t, 0) <= if 1 <= 0 < f then 1 else 0;
    StoredWrite(n, t, 0, header);
  }

  lemma {:induction false} RouteShape(t: Tree, k: int, h: nat)
    requires Wf(t) && Shape(t, h)
    ensures Wf(Route(t, k).1) && |Route(t, k).1.keys| <= MAX_KEYS
    decreases t
  {
    if t.Inner? { RouteShape(t.children[UpperBound(t.keys, k)], k, h - 1); }
  }

  ghost predicate Hit(ks: seq<int>, k: int) {
    var pos := LowerBound(ks, k);
    pos < |ks| && ks[pos] == k
  }

  /** What a removal may rely on, and what its tree is. */
  lemma RemoveOpen(t: Tree, k: int, count: int)
    requires Inv(t, count)
    ensures Wf(t) && PagesOk(t, count) && Wf(Route(t, k).1)
    ensures k in Contents(t) <==> Hit(Route(t, k).1.keys, k)
    ensures Inv(RemoveTree(t, k), count) && Contents(RemoveTree(t, k)) == Contents(t) - {k}
  {
    hide Ordered, Reach, Chained, Contents, Shape, RemoveTree, Lookup, Route;
    RemoveKeeps(t, k, count);
    LookupCorrect(t, k);
    LookupMatch(t, k);
  }

  lemma RemovedImage(leaf: Tree, k: int)
    requires leaf.Leaf? && |leaf.keys| == |leaf.values|
    ensures !Hit(leaf.keys, k) ==> RemoveLeaf(leaf, k) == leaf
    ensures Hit(leaf.keys, k) ==> Image(RemoveLeaf(leaf, k)) == WithoutKey(Image(leaf), k)
  {
  }

  lemma LookupMatch(t: Tree, k: int)
    requires Wf(t) && Ordered(t, None, None)
    ensures Wf(Route(t, k).1)
    ensures Lookup(t, k).Some? <==> Hit(Route(t, k).1.keys, k)
  {
    RouteOrder(t, k, None, None);
    var leaf := Route(t, k).1;
    if k in leaf.keys {
      var i :| 0 <= i < |leaf.keys| && leaf.keys[i] == k;
      var pos := LowerBound(leaf.keys, k);
      assert pos <= i && leaf.keys[pos] <= leaf.keys[i];
    }
  }

  lemma {:induction false} RemoveMissing(t: Tree, k: int)
    requires Wf(t)
    requires Wf(Route(t, k).1) && RemoveLeaf(Route(t, k).1, k) == Route(t, k).1
    ensures RemoveTree(t, k) == t
    decreases t
  {
    if t.Inner? {
      var idx := UpperBound(t.keys, k);
      RemoveMissing(t.children[idx], k);
      assert t.children[idx := t.children[idx]] == t.children;
    }
  }

  lemma {:induction false} RouteReach(t: Tree, k: int, p: int)
    requires Wf(t)
    ensures Reach(Route(t, k).1, p) <= Reach(t, p)
    decreases t
  {
    if t.Inner? {
      var idx := UpperBound(t.keys, k);
      RouteReach(t.children[idx], k, p);
      ReachChild(t.children, idx, p);
    }
  }

  /** Writing the shortened leaf to its page stores the tree without the key. */
  lemma {:induction false} RemoveStored(m: Store, t: Tree, k: int, count: int)
    requires Wf(t) && Stored(m, t) && PagesOk(t, count)
    ensures Wf(Route(t, k).1) && 1 <= Route(t, k).1.page < count
    ensures RemoveTree(t, k).page == t.page
    ensures Stored(m[Route(t, k).1.page := Image(RemoveLeaf(Route(t, k).1, k))], RemoveTree(t, k))
    decreases t
  {
    RouteWf(t, k);
    var q := Route(t, k).1.page;
    RouteReach(t, k, q);
    assert Reach(t, q) <= if 1 <= q < count then 1 else 0;
    if t.Inner? {
      var idx := UpperBound(t.keys, k);
      PagesOkChild(t, idx, count);
      RemoveStored(m, t.children[idx], k, count);
      var n := m[q := Image(RemoveLeaf(Route(t, k).1, k))];
      forall p | p in m && Reach(t.children[idx], p) == 0 && p < count
        ensures p in n && n[p] == m[p]
      {
        RouteReach(t.children[idx], k, q);
      }
      ReplaceStored(m, n, t, idx, RemoveTree(t.children[idx], k), count);
    }
  }

  // ---------- the state of a range scan ----------

  /** The leaves still to be read: a stored, chained run whose entries complete the result. */
  ghost predicate ScanTodo(m: Store, todo: seq<Tree>, result: seq<RecordID>, t: Tree, low: int, high: int)
    requires Wf(t)
  {
    todo != [] && LeafList(todo) && StoredAll(m, todo) && Chained(todo, -1)
    && (forall i :: 0 <= i < |todo| ==> |todo[i].keys| <= MAX_KEYS && todo[i].page >= 0)
    && SortedIn(Flat(todo), None, None)
    && result + ValuesOf(Within(Flat(todo), low, high)) == Scan(t, low, high)
  }

  lemma {:induction false} LeavesSmall(t: Tree, h: nat, count: int)
    requires Shape(t, h) && PagesOk(t, count)
    ensures forall i :: 0 <= i < |Leaves(t)| ==> |Leaves(t)[i].keys| <= MAX_KEYS && Leaves(t)[i].page >= 0
    decreases t, 1
  {
    assert Reach(t, t.page) <= if 1 <= t.page < count then 1 else 0;
    if t.Inner? {
      forall i | 0 <= i < |t.children|
        ensures PagesOk(t.children[i], count)
      {
        PagesOkChild(t, i, count);
      }
      LeavesAllSmall(t.children, h - 1, count);
    }
  }

  lemma {:induction false} LeavesAllSmall(cs: seq<Tree>, h: nat, count: int)
    requires forall i :: 0 <= i < |cs| ==> Shape(cs[i], h) && PagesOk(cs[i], count)
    ensures forall i :: 0 <= i < |LeavesAll(cs)| ==>
              |LeavesAll(cs)[i].keys| <= MAX_KEYS && LeavesAll(cs)[i].page >= 0
    decreases cs, 0
  {
    if cs != [] {
      LeavesSmall(cs[0], h, count);
      LeavesAllSmall(cs[1..], h, count);
    }
  }

  lemma ValuesOfAppend(a: seq<Entry>, b: seq<Entry>)
    ensures ValuesOf(a + b) == ValuesOf(a) + ValuesOf(b)
  {
  }

  /** The leaf of a key and the leaves after it are a chained run of small leaves. */
  lemma TailLeaves(m: Store, t: Tree, low: int, count: int)
    requires Wf(t) && Shape(t, Height(t)) && Chained(Leaves(t), -1) && Stored(m, t) && PagesOk(t, count)
    ensures var todo := [Route(t, low).1] + Route(t, low).2;
            LeafList(todo) && StoredAll(m, todo) && Chained(todo, -1)
            && forall i :: 0 <= i < |todo| ==> |todo[i].keys| <= MAX_KEYS && todo[i].page >= 0
  {
    hide Wf, Shape, Stored, Chained, Leaves, Route, PagesOk, Height;
    var pre, todo := Route(t, low).0, [Route(t, low).1] + Route(t, low).2;
    RouteLeaves(t, low);
    LeavesWf(t);
    LeavesStored(m, t);
    LeavesSmall(t, Height(t), count);
    var ls := Leaves(t);
    assert ls == pre + todo;
    ChainAppend(pre, todo, -1);
    forall i | 0 <= i < |todo|
      ensures todo[i].Leaf? && |todo[i].keys| == |todo[i].values| && Stored(m, todo[i])
      ensures |todo[i].keys| <= MAX_KEYS && todo[i].page >= 0
    {
      assert todo[i] == ls[|pre| + i];
    }
  }

  /** Everything before the leaf of low is smaller than low. */
  lemma TailEntries(t: Tree, low: int, high: int)
    requires Wf(t) && Ordered(t, None, None)
    ensures var todo := [Route(t, low).1] + Route(t, low).2;
            LeafList(todo) && SortedIn(Flat(todo), None, None)
                      && ValuesOf(Within(Flat(todo), low, high)) == Scan(t, low, high)
  {
    hide Wf, Ordered, Route, Leaves, Flat;
    var pre, todo := Route(t, low).0, [Route(t, low).1] + Route(t, low).2;
    RouteOrder(t, low, None, None);
    RouteLeaves(t, low);
    LeavesWf(t);
    LeavesSorted(t, None, None);
    assert Leaves(t) == pre + todo;
    forall i | 0 <= i < |todo|
      ensures todo[i] == Leaves(t)[|pre| + i]
    {
    }
    FlatAppend(pre, todo);
    SortedTail(Flat(pre), Flat(todo));
    WithinAppend(Flat(pre), Flat(todo), low, high);
    WithinNone(Flat(pre), low, high);
  }

  /** A scan may start at the leaf of low: everything before it is smaller. */
  lemma ScanStart(m: Store, t: Tree, low: int, high: int, count: int) returns (todo: seq<Tree>)
    requires Wf(t) && Ordered(t, None, None) && Shape(t, Height(t)) && Chained(Leaves(t), -1) && Stored(m, t)
    requires PagesOk(t, count)
    ensures ScanTodo(m, todo, [], t, low, high) && todo[0] == Route(t, low).1
  {
    hide Wf, Ordered, Shape, Chained, Stored, Flat, Within, Scan, Route;
    todo := [Route(t, low).1] + Route(t, low).2;
    TailLeaves(m, t, low, count);
    TailEntries(t, low, high);
  }

  lemma SortedTail(a: seq<Entry>, b: seq<Entry>)
    requires SortedIn(a + b, None, None)
    ensures SortedIn(b, None, None)
  {
    forall i, j | 0 <= i < j < |b|
      ensures b[i].0 < b[j].0
    {
      assert (a + b)[|a| + i] == b[i] && (a + b)[|a| + j] == b[j];
    }
  }

  /** After a leaf has been collected, either the scan is complete or its rest is the tail. */
  lemma ScanStep(m: Store, todo: seq<Tree>, before: seq<RecordID>, found: seq<RecordID>, done: bool,
                 t: Tree, low: int, high: int)
    requires Wf(t) && ScanTodo(m, todo, before, t, low, high)
    requires var n := UpperBound(todo[0].keys, high);
             found == ValuesOf(Within(Zip(todo[0].keys, todo[0].values)[..n], low, high))
                       && done == (n < |todo[0].keys|)
    ensures done || todo[0].next < 0 ==> before + found == Scan(t, low, high)
    ensures !done && todo[0].next >= 0 ==>
              |todo| > 1 && ScanTodo(m, todo[1..], before + found, t, low, high) && todo[1].page == todo[0].next
  {
    hide Flat, Within, ValuesOf, Stored, Scan;
    var es, n := Zip(todo[0].keys, todo[0].values), UpperBound(todo[0].keys, high);
    var rest := Flat(todo[1..]);
    FlatHead(todo);
    assert |es| == |todo[0].keys| && (n < |es| ==> es[n].0 == todo[0].keys[n]);
    if done {
      ScanDone(es, rest, n, low, high);
    } else {
      assert es[..n] == es;
      WithinAppend(es, rest, low, high);
      ValuesOfAppend(Within(es, low, high), Within(rest, low, high));
      SortedTail(es, rest);
      if todo[1..] == [] {
        WithinNothing(low, high);
        assert before + (found + []) == before + found;
        assert todo[0].next == -1;
      } else {
        assert todo[1..][0] == todo[1];
        assert todo[1].page >= 0;
      }
    }
  }

  lemma FlatHead(ts: seq<Tree>)
    requires ts != [] && LeafList(ts)
    ensures LeafList(ts[1..]) && Flat(ts) == Zip(ts[0].keys, ts[0].values) + Flat(ts[1..])
    ensures Flat([]) == []
  {
  }

  lemma WithinNothing(low: int, high: int)
    ensures Within([], low, high) == [] && ValuesOf([]) == []
  {
  }

  lemma WithinNext(es: seq<Entry>, i: nat, low: int, high: int)
    requires i < |es|
    ensures Within(es[..i + 1], low, high)
         == Within(es[..i], low, high) + if low <= es[i].0 <= high then [es[i]] else []
  {
    assert es[..i + 1] == es[..i] + [es[i]];
    WithinAppend(es[..i], [es[i]], low, high);
    assert [es[i]][1..] == [];
  }

  /** Once a key above high has been met, nothing more can be in range. */
  lemma ScanDone(es: seq<Entry>, rest: seq<Entry>, n: nat, low: int, high: int)
    requires n < |es| && es[n].0 > high && SortedIn(es + rest, None, None)
    ensures Within(es + rest, low, high) == Within(es[..n], low, high)
  {
    var all := es + rest;
    assert all == es[..n] + all[n..];
    forall i | 0 <= i < |all[n..]|
      ensures high < all[n..][i].0
    {
      assert all[n] == es[n] && all[n..][i] == all[n + i];
    }
    WithinAppend(es[..n], all[n..], low, high);
    WithinNone(all[n..], low, high);
  }

  lemma {:induction false} UpperBoundIs(ks: seq<int>, k: int, i: nat)
    requires i <= |ks|
    requires forall j :: 0 <= j < i ==> ks[j] <= k
    requires i < |ks| ==> k < ks[i]
    ensures UpperBound(ks, k) == i
  {
    if i > 0 { UpperBoundIs(ks[1..], k, i - 1); }
  }
}
