/** The slotted heap: records in fixed slots of byte pages, behaving as a map from record
    ids to rows. */
module TableHeap {
  import opened Common
  import opened FileManager
  import opened Record
  import R = Recovery
  import T = TxMachine

  const HEADER: nat := 4

  /** Sizes that follow from the schema. */
  datatype Layout = Layout(schema: Schema, recordSize: nat, slotSize: nat, maxSlots: nat)

  /** At least one slot fits into a page. */
  ghost predicate Sized(l: Layout) {
    l.recordSize == RecordSize(l.schema) && l.slotSize == l.recordSize + 1
    && l.maxSlots == (PAGE_SIZE - HEADER) / l.slotSize && l.maxSlots >= 1
  }

  // ---------- where slots are ----------

  function SlotPtr(l: Layout, i: nat): nat { HEADER + i * l.slotSize }

  /** Slots stay inside the page and do not overlap. */
  lemma SlotsApart(l: Layout, i: nat, j: nat)
    requires Sized(l) && i < l.maxSlots && j < l.maxSlots
    ensures HEADER <= SlotPtr(l, i) && SlotPtr(l, i) + l.slotSize <= PAGE_SIZE
    ensures i < j ==> SlotPtr(l, i) + l.slotSize <= SlotPtr(l, j)
    ensures j < i ==> SlotPtr(l, j) + l.slotSize <= SlotPtr(l, i)
  {
    var n, s := PAGE_SIZE - HEADER, l.slotSize;
    assert l.maxSlots * s <= n;
    Times(i + 1, l.maxSlots, s);
    assert (i + 1) * s == i * s + s && (j + 1) * s == j * s + s;
    if i < j { Times(i + 1, j, s); }
    if j < i { Times(j + 1, i, s); }
  }

  lemma Times(a: nat, b: nat, s: nat)
    requires a <= b
    ensures a * s <= b * s
  {
  }

  // ---------- reading and writing bytes ----------

  function NumSlots(p: Page): int { BytesInt(p[..HEADER]) }

  predicate Alive(l: Layout, p: Page, i: nat) {
    SlotPtr(l, i) < PAGE_SIZE && p[SlotPtr(l, i)] != 0
  }

  function Payload(l: Layout, p: Page, i: nat): (b: seq<Byte>)
    requires SlotPtr(l, i) + l.slotSize <= PAGE_SIZE && l.slotSize == l.recordSize + 1
    ensures |b| == l.recordSize
  {
    p[SlotPtr(l, i) + 1..SlotPtr(l, i) + l.slotSize]
  }

  function SetNumSlots(p: Page, n: int): Page { IntBytes(n) + p[HEADER..] }

  function SetAlive(l: Layout, p: Page, i: nat, alive: bool): Page
    requires SlotPtr(l, i) < PAGE_SIZE
  {
    p[SlotPtr(l, i) := if alive then 1 else 0]
  }

  function SetPayload(l: Layout, p: Page, i: nat, b: seq<Byte>): Page
    requires SlotPtr(l, i) + l.slotSize <= PAGE_SIZE && l.slotSize == l.recordSize + 1 && |b| == l.recordSize
  {
    p[..SlotPtr(l, i) + 1] + b + p[SlotPtr(l, i) + l.slotSize..]
  }

  lemma SetNumSlotsFrame(l: Layout, p: Page, n: int, j: nat)
    requires Sized(l) && j < l.maxSlots && 0 <= n < 0x8000_0000
    ensures SlotPtr(l, j) + l.slotSize <= PAGE_SIZE
    ensures NumSlots(SetNumSlots(p, n)) == n
    ensures Alive(l, SetNumSlots(p, n), j) == Alive(l, p, j) && Payload(l, SetNumSlots(p, n), j) == Payload(l, p, j)
  {
    SlotsApart(l, j, j);
    IntRoundTrip(n);
    var q := SetNumSlots(p, n);
    assert q[..HEADER] == IntBytes(n);
    assert forall k :: HEADER <= k < PAGE_SIZE ==> q[k] == p[k];
  }

  lemma SetAliveFrame(l: Layout, p: Page, i: nat, alive: bool, j: nat)
    requires Sized(l) && i < l.maxSlots && j < l.maxSlots
    ensures SlotPtr(l, i) + l.slotSize <= PAGE_SIZE && SlotPtr(l, j) + l.slotSize <= PAGE_SIZE
    ensures NumSlots(SetAlive(l, p, i, alive)) == NumSlots(p)
    ensures Alive(l, SetAlive(l, p, i, alive), j) == if j == i then alive else Alive(l, p, j)
    ensures Payload(l, SetAlive(l, p, i, alive), j) == Payload(l, p, j)
  {
    SlotsApart(l, i, j);
    var q := SetAlive(l, p, i, alive);
    assert q[..HEADER] == p[..HEADER];
    SlotsApart(l, j, i);
    assert Payload(l, q, j) == Payload(l, p, j);
  }

  lemma SetPayloadFrame(l: Layout, p: Page, i: nat, b: seq<Byte>, j: nat)
    requires Sized(l) && i < l.maxSlots && j < l.maxSlots && |b| == l.recordSize
    ensures SlotPtr(l, i) + l.slotSize <= PAGE_SIZE && SlotPtr(l, j) + l.slotSize <= PAGE_SIZE
    ensures NumSlots(SetPayload(l, p, i, b)) == NumSlots(p)
    ensures Alive(l, SetPayload(l, p, i, b), j) == Alive(l, p, j)
    ensures Payload(l, SetPayload(l, p, i, b), j) == if j == i then b else Payload(l, p, j)
  {
    SlotsApart(l, i, j);
    SlotsApart(l, j, i);
    var q, at := SetPayload(l, p, i, b), SlotPtr(l, i);
    assert forall k :: 0 <= k <= at ==> q[k] == p[k];
    assert forall k :: at + l.slotSize <= k < PAGE_SIZE ==> q[k] == p[k];
    assert q[at + 1..at + l.slotSize] == b;
    assert q[..HEADER] == p[..HEADER];
    if j != i { assert Payload(l, q, j) == Payload(l, p, j); }
  }

  // ---------- pages as slots ----------

  /** The slots past the count are dead. */
  ghost predicate PageOk(l: Layout, p: Page) {
    0 <= NumSlots(p) <= l.maxSlots && forall i :: NumSlots(p) <= i < l.maxSlots ==> !Alive(l, p, i)
  }

  ghost predicate PagesOk(l: Layout, ps: seq<Page>) {
    forall i :: 0 <= i < |ps| ==> PageOk(l, ps[i])
  }

  /** What a slot holds.  Ids outside the file are dead. */
  ghost function SlotIn(l: Layout, ps: seq<Page>, r: RecordID): R.Slot
    requires Sized(l)
  {
    if 0 <= r.pageId < |ps| && 0 <= r.slotNum < l.maxSlots then
      SlotsApart(l, r.slotNum, r.slotNum);
      R.Slot(Alive(l, ps[r.pageId], r.slotNum), Decode(l.schema, Payload(l, ps[r.pageId], r.slotNum)))
    else R.Slot(false, [])
  }

  function Ids(n: nat, m: nat): set<RecordID> {
    set p, i | 0 <= p < n && 0 <= i < m :: RecordID(p, i)
  }

  /** The live rows. */
  ghost function Contents(l: Layout, ps: seq<Page>): map<RecordID, Row>
    requires Sized(l)
  {
    map r | r in Ids(|ps|, l.maxSlots) && SlotIn(l, ps, r).alive :: SlotIn(l, ps, r).data
  }

  /** Only slot r may have changed. */
  ghost predicate OnlySlot(l: Layout, ps: seq<Page>, ps': seq<Page>, r: RecordID)
    requires Sized(l)
  {
    |ps| <= |ps'| && forall q :: q != r ==> R.Val(SlotIn(l, ps', q)) == R.Val(SlotIn(l, ps, q))
  }

  lemma ContentsOnly(l: Layout, ps: seq<Page>, ps': seq<Page>, r: RecordID)
    requires Sized(l) && OnlySlot(l, ps, ps', r)
    ensures var x := SlotIn(l, ps', r);
            Contents(l, ps') == if x.alive then Contents(l, ps)[r := x.data] else Contents(l, ps) - {r}
    ensures r in Contents(l, ps) <==> SlotIn(l, ps, r).alive
  {
    hide Decode, Alive, Payload, SlotPtr;
    var c, c', x := Contents(l, ps), Contents(l, ps'), SlotIn(l, ps', r);
    forall q
      ensures q in c' <==> SlotIn(l, ps', q).alive
      ensures q in c <==> SlotIn(l, ps, q).alive
    {
      InIds(q, |ps|, l.maxSlots);
      InIds(q, |ps'|, l.maxSlots);
    }
    forall q | q != r
      ensures q in c' <==> q in c
      ensures q in c' ==> c'[q] == c[q]
    {
      assert R.Val(SlotIn(l, ps', q)) == R.Val(SlotIn(l, ps, q));
    }
  }

  lemma InIds(r: RecordID, n: nat, m: nat)
    ensures r in Ids(n, m) <==> 0 <= r.pageId < n && 0 <= r.slotNum < m
  {
    if 0 <= r.pageId < n && 0 <= r.slotNum < m { assert r == RecordID(r.pageId, r.slotNum); }
  }

  // ---------- one slot is written ----------

  /** The page with slot i alive and holding the row; the count covers the slot. */
  function PutRow(l: Layout, p: Page, i: nat, b: seq<Byte>): Page
    requires SlotPtr(l, i) + l.slotSize <= PAGE_SIZE && l.slotSize == l.recordSize + 1 && |b| == l.recordSize
  {
    var q := if i >= NumSlots(p) then SetNumSlots(p, i + 1) else p;
    SetPayload(l, SetAlive(l, q, i, true), i, b)
  }

  lemma PutRowFrame(l: Layout, p: Page, i: nat, b: seq<Byte>, j: nat)
    requires Sized(l) && PageOk(l, p) && i < l.maxSlots && j < l.maxSlots && |b| == l.recordSize
    ensures SlotPtr(l, i) + l.slotSize <= PAGE_SIZE && SlotPtr(l, j) + l.slotSize <= PAGE_SIZE
    ensures var p' := PutRow(l, p, i, b);
            NumSlots(p') == (if i >= NumSlots(p) then i + 1 else NumSlots(p))
            && Alive(l, p', j) == (j == i || Alive(l, p, j))
            && Payload(l, p', j) == if j == i then b else Payload(l, p, j)
  {
    hide Alive, Payload, NumSlots, SetNumSlots, SetAlive, SetPayload, SlotPtr;
    MaxSlotsSmall(l);
    var q := if i >= NumSlots(p) then SetNumSlots(p, i + 1) else p;
    if i >= NumSlots(p) { SetNumSlotsFrame(l, p, i + 1, j); }
    SetAliveFrame(l, q, i, true, j);
    SetPayloadFrame(l, SetAlive(l, q, i, true), i, b, j);
  }

  lemma MaxSlotsSmall(l: Layout)
    requires Sized(l)
    ensures l.maxSlots < PAGE_SIZE
  {
    assert l.maxSlots * l.slotSize <= PAGE_SIZE - HEADER;
    Times(1, l.slotSize, l.maxSlots);
  }

  /** The bytes of a page after a row is put into slot i: how many slots there are in the
      first four bytes, then slots of equal size, each a byte that says alive and then the
      bytes of its row. */
  lemma PageFormat(l: Layout, p: Page, i: nat, b: seq<Byte>)
    requires Sized(l) && PageOk(l, p) && i < l.maxSlots && |b| == l.recordSize
    ensures SlotPtr(l, i) + l.slotSize <= PAGE_SIZE && SlotPtr(l, i) == 4 + i * (RecordSize(l.schema) + 1)
    ensures var p', at, n := PutRow(l, p, i, b), SlotPtr(l, i), BytesInt(p[..4]);
            p'[at] == 1 && p'[at + 1..at + 1 + |b|] == b && BytesInt(p'[..4]) == if i >= n then i + 1 else n
  {
    SlotsApart(l, i, i);
    PutRowFrame(l, p, i, b, i);
    var q := if i >= NumSlots(p) then SetNumSlots(p, i + 1) else p;
    var at, r := SlotPtr(l, i), SetAlive(l, q, i, true);
    assert SetPayload(l, r, i, b)[at] == r[at];
  }

  /** As many slots as fit: one more would not. */
  lemma PageIsUsed(l: Layout)
    requires Sized(l)
    ensures SlotPtr(l, l.maxSlots) <= PAGE_SIZE < SlotPtr(l, l.maxSlots) + l.slotSize
  {
    var n, s := PAGE_SIZE - HEADER, l.slotSize;
    assert n == (n / s) * s + n % s;
  }

  lemma PutRowOk(l: Layout, p: Page, i: nat, b: seq<Byte>)
    requires Sized(l) && PageOk(l, p) && i < l.maxSlots && |b| == l.recordSize
    ensures SlotPtr(l, i) + l.slotSize <= PAGE_SIZE && PageOk(l, PutRow(l, p, i, b))
  {
    hide Alive, NumSlots, PutRow;
    PutRowFrame(l, p, i, b, i);
    forall j | NumSlots(PutRow(l, p, i, b)) <= j < l.maxSlots
      ensures !Alive(l, PutRow(l, p, i, b), j)
    {
      PutRowFrame(l, p, i, b, j);
    }
  }

  /** Inserting at a slot: that slot is alive with the row (cut at NULs), no other changes. */
  lemma PutAt(l: Layout, ps: seq<Page>, r: RecordID, row: Row)
    requires Sized(l) && PagesOk(l, ps) && 0 <= r.pageId < |ps| && 0 <= r.slotNum < l.maxSlots && RowOk(l.schema, row)
    ensures SlotPtr(l, r.slotNum) + l.slotSize <= PAGE_SIZE
    ensures var ps' := ps[r.pageId := PutRow(l, ps[r.pageId], r.slotNum, Serialized(l.schema, row))];
            PagesOk(l, ps') && OnlySlot(l, ps, ps', r) && SlotIn(l, ps', r) == R.Slot(true, CutRow(row))
  {
    hide RowOk, Alive, Payload, PutRow, Serialized, Decode, CutRow, SlotPtr;
    var b := Serialized(l.schema, row);
    PutRowOk(l, ps[r.pageId], r.slotNum, b);
    RowRoundTrip(l.schema, row);
    forall j | 0 <= j < l.maxSlots { PutRowFrame(l, ps[r.pageId], r.slotNum, b, j); }
  }

  /** Killing or overwriting a slot. */
  lemma KillAt(l: Layout, ps: seq<Page>, r: RecordID, alive: bool)
    requires Sized(l) && PagesOk(l, ps) && 0 <= r.pageId < |ps| && 0 <= r.slotNum < l.maxSlots
    requires alive ==> r.slotNum < NumSlots(ps[r.pageId])
    ensures SlotPtr(l, r.slotNum) < PAGE_SIZE
    ensures var ps' := ps[r.pageId := SetAlive(l, ps[r.pageId], r.slotNum, alive)];
            PagesOk(l, ps') && OnlySlot(l, ps, ps', r) && SlotIn(l, ps', r) == SlotIn(l, ps, r).(alive := alive)
  {
    hide Alive, Payload, SetAlive, Decode, SlotPtr, NumSlots;
    SlotsApart(l, r.slotNum, r.slotNum);
    SetAliveFrame(l, ps[r.pageId], r.slotNum, alive, r.slotNum);
    forall j | 0 <= j < l.maxSlots { SetAliveFrame(l, ps[r.pageId], r.slotNum, alive, j); }
  }

  lemma OverwriteAt(l: Layout, ps: seq<Page>, r: RecordID, row: Row)
    requires Sized(l) && PagesOk(l, ps) && 0 <= r.pageId < |ps| && 0 <= r.slotNum < l.maxSlots && RowOk(l.schema, row)
    ensures SlotPtr(l, r.slotNum) + l.slotSize <= PAGE_SIZE
    ensures var ps' := ps[r.pageId := SetPayload(l, ps[r.pageId], r.slotNum, Serialized(l.schema, row))];
            PagesOk(l, ps') && OnlySlot(l, ps, ps', r) && SlotIn(l, ps', r) == SlotIn(l, ps, r).(data := CutRow(row))
  {
    hide RowOk, Alive, Payload, SetPayload, Serialized, Decode, CutRow, SlotPtr, NumSlots;
    var b := Serialized(l.schema, row);
    RowRoundTrip(l.schema, row);
    SetPayloadFrame(l, ps[r.pageId], r.slotNum, b, r.slotNum);
    forall j | 0 <= j < l.maxSlots { SetPayloadFrame(l, ps[r.pageId], r.slotNum, b, j); }
  }

  /** An empty page at the end changes no slot. */
  lemma Grow(l: Layout, ps: seq<Page>, r: RecordID)
    requires Sized(l) && PagesOk(l, ps)
    ensures PagesOk(l, ps + [ZERO_PAGE]) && R.Val(SlotIn(l, ps + [ZERO_PAGE], r)) == R.Val(SlotIn(l, ps, r))
  {
    hide Decode;
    ZeroPage(l);
    if r.pageId == |ps| && 0 <= r.slotNum < l.maxSlots {
      assert (ps + [ZERO_PAGE])[r.pageId] == ZERO_PAGE;
      SlotsApart(l, r.slotNum, r.slotNum);
    }
  }

  lemma ZeroPage(l: Layout)
    requires Sized(l)
    ensures PageOk(l, ZERO_PAGE) && NumSlots(ZERO_PAGE) == 0 && forall i :: 0 <= i < l.maxSlots ==>
              !Alive(l, ZERO_PAGE, i)
  {
    assert ZERO_PAGE[..HEADER] == [0, 0, 0, 0];
  }

  predicate Before(q: RecordID, r: RecordID) {
    q.pageId < r.pageId || (q.pageId == r.pageId && q.slotNum < r.slotNum)
  }

  // ---------- one page at a time ----------

  /** The first slot to reuse, or the next one to append; maxSlots if the page is full. */
  method FreeSlot(l: Layout, page: Page) returns (i: nat)
    requires Sized(l) && PageOk(l, page)
    ensures i <= l.maxSlots && (i < l.maxSlots ==> !Alive(l, page, i))
    ensures forall j :: 0 <= j < i ==> Alive(l, page, j)
  {
    hide Alive, NumSlots;
    var numSlots := NumSlots(page);
    i := 0;
    while i < numSlots
      invariant 0 <= i <= numSlots
      invariant forall j :: 0 <= j < i ==> Alive(l, page, j)
    {
      if !Alive(l, page, i) { return; }
      i := i + 1;
    }
  }

  /** Make a slot alive, counted and filled. */
  method FillSlot(l: Layout, page: Page, i: nat, b: seq<Byte>) returns (filled: Page)
    requires SlotPtr(l, i) + l.slotSize <= PAGE_SIZE && l.slotSize == l.recordSize + 1 && |b| == l.recordSize
    ensures filled == PutRow(l, page, i, b)
  {
    filled := page;
    if i >= NumSlots(filled) { filled := SetNumSlots(filled, i + 1); }
    filled := SetAlive(l, filled, i, true);
    filled := SetPayload(l, filled, i, b);
  }

  /** The live ids before upTo, in page and slot order. */
  ghost predicate Scanned(l: Layout, ps: seq<Page>, upTo: RecordID, results: seq<RecordID>)
    requires Sized(l)
  {
    (forall r :: r in results <==> SlotIn(l, ps, r).alive && Before(r, upTo))
    && forall i, j :: 0 <= i < j < |results| ==> Before(results[i], results[j])
  }

  method ScanPage(l: Layout, ghost ps: seq<Page>, pid: nat, page: Page, found: seq<RecordID>)
    returns (results: seq<RecordID>)
    requires Sized(l) && PagesOk(l, ps) && pid < |ps| && page == ps[pid]
    requires Scanned(l, ps, RecordID(pid, 0), found)
    ensures Scanned(l, ps, RecordID(pid + 1, 0), results)
  {
    hide Alive, NumSlots, Payload, Decode, SlotPtr;
    results := found;
    var numSlots := NumSlots(page);
    assert PageOk(l, ps[pid]);
    for i := 0 to numSlots
      invariant Scanned(l, ps, RecordID(pid, i), results)
    {
      if Alive(l, page, i) {
        assert forall k :: 0 <= k < |results| ==> results[k] in results;
        results := results + [RecordID(pid, i)];
      }
    }
  }

  lemma NothingScanned(l: Layout, ps: seq<Page>)
    requires Sized(l)
    ensures Scanned(l, ps, RecordID(0, 0), [])
  {
  }

  lemma AllScanned(l: Layout, ps: seq<Page>, results: seq<RecordID>)
    requires Sized(l) && PagesOk(l, ps) && Scanned(l, ps, RecordID(|ps|, 0), results)
    ensures forall r :: r in results <==> r in Contents(l, ps)
    ensures forall i, j :: 0 <= i < j < |results| ==> Before(results[i], results[j])
  {
    hide Contents, Alive, NumSlots;
    forall r { LiveId(l, ps, r); }
  }

  // ---------- the heap as an object ----------

  datatype Answer = No | Yes | Throws

  class TableHeap {
    const l: Layout
    /** The file's pages, as the buffer pool shows them. */
    var pages: seq<Page>

    ghost predicate Valid()
      reads this
    {
      Sized(l) && PagesOk(l, pages)
    }

    ghost function Rows(): map<RecordID, Row>
      requires Valid()
      reads this
    {
      Contents(l, pages)
    }

    ghost function SlotOf(r: RecordID): R.Slot
      requires Valid()
      reads this
    {
      SlotIn(l, pages, r)
    }

    /** An empty file gets an empty first page. */
    constructor (schema: Schema, found: seq<Page>)
      requires RecordSize(schema) + 1 <= PAGE_SIZE - HEADER
      requires var size := RecordSize(schema);
               PagesOk(Layout(schema, size, size + 1, (PAGE_SIZE - HEADER) / (size + 1)), found)
      ensures Valid() && l.schema == schema && pages != []
      ensures Rows() == Contents(l, found)
    {
      var size := RecordSize(schema);
      l := Layout(schema, size, size + 1, (PAGE_SIZE - HEADER) / (size + 1));
      var page := SetNumSlots(ZERO_PAGE, 0);
      pages := if found == [] then [page] else found;
      new;
      AtLeastOne(size + 1);
      if found == [] {
        ZeroPage(l);
        IntRoundTrip(0);
        assert page[..HEADER] == [0, 0, 0, 0] == ZERO_PAGE[..HEADER] && page == ZERO_PAGE;
        forall q { Grow(l, [], q); }
        assert [] + [ZERO_PAGE] == pages;
        ContentsOnly(l, [], pages, RecordID(-1, 0));
      }
    }

    /** Put a row into a slot: alive, and counted. */
    method Put(pid: nat, i: nat, b: seq<Byte>, ghost row: Row)
      requires Valid() && pid < |pages| && i < l.maxSlots && RowOk(l.schema, row) && b == Serialized(l.schema, row)
      modifies this`pages
      ensures Valid() && OnlySlot(l, old(pages), pages, RecordID(pid, i))
      ensures |pages| == |old(pages)| && SlotOf(RecordID(pid, i)) == R.Slot(true, CutRow(row))
    {
      hide RowOk, Serialized, CutRow;
      PutAt(l, pages, RecordID(pid, i), row);
      var page := FillSlot(l, pages[pid], i, b);
      pages := pages[pid := page];
    }

    /** The first free slot, in page and slot order; past the last page if there is none. */
    method FirstFree() returns (pid: nat, i: nat)
      requires Valid()
      ensures pid <= |pages| && i < l.maxSlots && (pid == |pages| ==> i == 0)
      ensures !SlotIn(l, pages, RecordID(pid, i)).alive
      ensures forall q: RecordID :: 0 <= q.pageId && 0 <= q.slotNum < l.maxSlots && Before(q, RecordID(pid, i)) ==>
                SlotIn(l, pages, q).alive
    {
      hide Alive, NumSlots, Payload, Decode;
      pid := 0;
      while pid < |pages|
        invariant pid <= |pages|
        invariant forall q: RecordID :: 0 <= q.pageId < pid && 0 <= q.slotNum < l.maxSlots ==> SlotIn(l, pages, q).alive
      {
        assert PageOk(l, pages[pid]);
        i := FreeSlot(l, pages[pid]);
        if i < l.maxSlots { return; }
        pid := pid + 1;
      }
      i := 0;
    }

    /** Takes the first free slot, in page and slot order; a new page if there is none.
        Fails (the source throws) if the row does not fit the schema. */
    method InsertRecord(values: Row) returns (ok: bool, rid: RecordID)
      requires Valid()
      modifies this`pages
      ensures Valid() && ok == RowOk(l.schema, values) && (!ok ==> pages == old(pages))
      ensures ok ==> 0 <= rid.pageId && 0 <= rid.slotNum < l.maxSlots
      ensures ok ==> rid !in old(Rows()) && Rows() == old(Rows())[rid := CutRow(values)]
      ensures ok ==> forall q: RecordID :: 0 <= q.pageId && 0 <= q.slotNum < l.maxSlots && Before(q, rid) ==>
                q in old(Rows())
    {
      hide RowOk, Serialized, CutRow, SlotIn, PagesOk, OnlySlot, Contents;
      var fits, buf := Serialize(l.schema, values);
      if !fits { return false, RecordID(0, 0); }
      var pid, i := FirstFree();
      rid := RecordID(pid, i);
      assert Unmoved(l, pages, pages);
      if pid == |pages| {
        GrowOne(l, pages, pages);
        pages := pages + [ZERO_PAGE];
      }
      ghost var mid := pages;
      Put(pid, i, buf[..], values);
      OnlyAfter(l, old(pages), mid, pages, rid);
      Inserted(l, old(pages), pages, rid, CutRow(values));
      return true, rid;
    }

    method DeleteRecord(rid: RecordID) returns (ok: bool)
      requires Valid()
      modifies this`pages
      ensures Valid() && ok == (rid in old(Rows())) && Rows() == old(Rows()) - {rid}
    {
      hide Contents;
      LiveId(l, pages, rid);
      if rid.pageId < 0 || rid.slotNum < 0 || rid.pageId >= |pages| { return false; }
      assert PageOk(l, pages[rid.pageId]);
      if rid.slotNum >= NumSlots(pages[rid.pageId]) || !Alive(l, pages[rid.pageId], rid.slotNum) { return false; }
      KillAt(l, pages, rid, false);
      pages := pages[rid.pageId := SetAlive(l, pages[rid.pageId], rid.slotNum, false)];
      ContentsOnly(l, old(pages), pages, rid);
      return true;
    }

    /** An id out of range is answered before the row is looked at. */
    method UpdateRecord(rid: RecordID, values: Row) returns (a: Answer)
      requires Valid()
      modifies this`pages
      ensures Valid()
      ensures a == Yes <==> rid in old(Rows()) && RowOk(l.schema, values)
      ensures a == Throws <==> 0 <= rid.pageId < |old(pages)| && 0 <= rid.slotNum && !RowOk(l.schema, values)
      ensures Rows() == if a == Yes then old(Rows())[rid := CutRow(values)] else old(Rows())
    {
      hide Contents, RowOk, CutRow, Serialized;
      LiveId(l, pages, rid);
      if rid.pageId < 0 || rid.slotNum < 0 || rid.pageId >= |pages| { return No; }
      var fits, buf := Serialize(l.schema, values);
      if !fits { return Throws; }
      assert PageOk(l, pages[rid.pageId]);
      if rid.slotNum >= NumSlots(pages[rid.pageId]) || !Alive(l, pages[rid.pageId], rid.slotNum) { return No; }
      OverwriteAt(l, pages, rid, values);
      pages := pages[rid.pageId := SetPayload(l, pages[rid.pageId], rid.slotNum, buf[..])];
      ContentsOnly(l, old(pages), pages, rid);
      return Yes;
    }

    /** Exactly the live ids, in page and slot order. */
    method TableScan() returns (results: seq<RecordID>)
      requires Valid()
      ensures forall r :: r in results <==> r in Rows()
      ensures forall i, j :: 0 <= i < j < |results| ==> Before(results[i], results[j])
    {
      results := [];
      for pid := 0 to |pages|
        invariant Scanned(l, pages, RecordID(pid, 0), results)
      {
        results := ScanPage(l, pages, pid, pages[pid], results);
      }
      AllScanned(l, pages, results);
    }

    /** Fails (the source throws) on an id that is not live. */
    method GetRecord(rid: RecordID) returns (ok: bool, row: Row)
      requires Valid()
      ensures ok == (rid in Rows()) && (ok ==> row == Rows()[rid])
    {
      LiveId(l, pages, rid);
      if rid.pageId < 0 || rid.pageId >= |pages| { return false, []; } // a page of zeros: no slots
      assert PageOk(l, pages[rid.pageId]);
      if rid.slotNum < 0 || rid.slotNum >= NumSlots(pages[rid.pageId]) { return false, []; }
      if !Alive(l, pages[rid.pageId], rid.slotNum) { return false, []; }
      SlotsApart(l, rid.slotNum, rid.slotNum);
      row := Deserialize(l.schema, Payload(l, pages[rid.pageId], rid.slotNum));
      return true, row;
    }

    // ---------- replaying the log ----------

    /** The pages up to pageId; those past the end of the file read as zeros. */
    method Reach(pageId: nat)
      requires Valid()
      modifies this`pages
      ensures Valid() && pageId < |pages| && Unmoved(l, old(pages), pages)
    {
      hide SlotIn;
      while |pages| <= pageId
        invariant Valid() && Unmoved(l, old(pages), pages)
        decreases pageId - |pages|
      {
        GrowOne(l, old(pages), pages);
        pages := pages + [ZERO_PAGE];
      }
    }

    /** Revives or overwrites exactly the target, even beyond the slots in use.  A row that
        does not fit (the source throws) leaves the slot alive with its old bytes. */
    method InsertAt(rid: RecordID, values: Row) returns (ok: bool)
      requires Valid() && 0 <= rid.pageId && 0 <= rid.slotNum < l.maxSlots
      modifies this`pages
      ensures Valid() && ok == RowOk(l.schema, values)
      ensures OnlySlot(l, old(pages), pages, rid)
      ensures ok ==> SlotOf(rid) == R.Slot(true, CutRow(values)) && Rows() == old(Rows())[rid := CutRow(values)]
      ensures ok ==> SlotOf(rid) == R.Redo1(old(SlotOf(rid)), T.LogInsert(0, "", rid, CutRow(values)))
      ensures !ok ==> SlotOf(rid).alive
    {
      hide RowOk, CutRow, Serialized, Contents, SlotIn, PagesOk, OnlySlot, Unmoved;
      Reach(rid.pageId);
      ghost var mid := pages;
      var fits, buf := Serialize(l.schema, values);
      if !fits {
        var page := pages[rid.pageId];
        if rid.slotNum >= NumSlots(page) { page := SetNumSlots(page, rid.slotNum + 1); }
        CountUp(l, pages, rid);
        pages := pages[rid.pageId := page];
        UnmovedTwice(l, old(pages), mid, pages);
        KillAt(l, pages, rid, true);
        mid := pages;
        pages := pages[rid.pageId := SetAlive(l, page, rid.slotNum, true)];
        OnlyAfter(l, old(pages), mid, pages, rid);
        return false;
      }
      Put(rid.pageId, rid.slotNum, buf[..], values);
      OnlyAfter(l, old(pages), mid, pages, rid);
      ContentsOnly(l, old(pages), pages, rid);
      return true;
    }

    method DeleteAt(rid: RecordID)
      requires Valid() && 0 <= rid.pageId && 0 <= rid.slotNum < l.maxSlots
      modifies this`pages
      ensures Valid() && Rows() == old(Rows()) - {rid}
      ensures R.Val(SlotOf(rid)) == R.Val(R.Redo1(old(SlotOf(rid)), T.LogDelete(0, "", rid, [])))
      ensures OnlySlot(l, old(pages), pages, rid)
    {
      hide Contents, SlotIn, PagesOk, OnlySlot, Unmoved;
      Reach(rid.pageId);
      ghost var mid := pages;
      KillAt(l, pages, rid, false);
      pages := pages[rid.pageId := SetAlive(l, pages[rid.pageId], rid.slotNum, false)];
      OnlyAfter(l, old(pages), mid, pages, rid);
      ContentsOnly(l, old(pages), pages, rid);
    }

    /** Neither revives nor kills. */
    method UpdateAt(rid: RecordID, values: Row) returns (ok: bool)
      requires Valid() && 0 <= rid.pageId && 0 <= rid.slotNum < l.maxSlots
      modifies this`pages
      ensures Valid() && ok == RowOk(l.schema, values)
      ensures OnlySlot(l, old(pages), pages, rid)
      ensures SlotOf(rid).alive == old(SlotOf(rid)).alive
      ensures ok ==> SlotOf(rid) == R.Redo1(old(SlotOf(rid)), T.LogUpdate(0, "", rid, [], CutRow(values)))
      ensures if ok then SlotOf(rid).data == CutRow(values) else R.Val(SlotOf(rid)) == R.Val(old(SlotOf(rid)))
    {
      hide RowOk, CutRow, Serialized, SlotIn, PagesOk, OnlySlot;
      Reach(rid.pageId);
      ghost var mid := pages;
      assert R.Val(SlotIn(l, mid, rid)) == R.Val(SlotIn(l, old(pages), rid));
      var fits, buf := Serialize(l.schema, values);
      if !fits {
        UnmovedIsOnly(l, old(pages), pages, rid);
        return false;
      }
      OverwriteAt(l, pages, rid, values);
      pages := pages[rid.pageId := SetPayload(l, pages[rid.pageId], rid.slotNum, buf[..])];
      OnlyAfter(l, old(pages), mid, pages, rid);
      return true;
    }
  }

  lemma UnmovedIsOnly(l: Layout, ps: seq<Page>, ps': seq<Page>, r: RecordID)
    requires Sized(l) && Unmoved(l, ps, ps')
    ensures OnlySlot(l, ps, ps', r)
  {
  }

  lemma UnmovedTwice(l: Layout, ps: seq<Page>, mid: seq<Page>, ps': seq<Page>)
    requires Sized(l) && Unmoved(l, ps, mid) && |mid| <= |ps'|
    requires forall q :: R.Val(SlotIn(l, ps', q)) == R.Val(SlotIn(l, mid, q))
    ensures Unmoved(l, ps, ps')
  {
    hide SlotIn;
  }

  lemma AtLeastOne(size: nat)
    requires 0 < size <= PAGE_SIZE - HEADER
    ensures (PAGE_SIZE - HEADER) / size >= 1
  {
    var q := (PAGE_SIZE - HEADER) / size;
    assert q * size > PAGE_SIZE - HEADER - size;
    PositiveFactor(q, size);
  }

  lemma PositiveFactor(q: int, size: nat)
    requires q * size > 0
    ensures q > 0
  {
  }

  lemma LiveId(l: Layout, ps: seq<Page>, r: RecordID)
    requires Sized(l) && PagesOk(l, ps)
    ensures r in Contents(l, ps) <==> SlotIn(l, ps, r).alive
    ensures r in Contents(l, ps) ==> Contents(l, ps)[r] == SlotIn(l, ps, r).data
    ensures SlotIn(l, ps, r).alive <==>
            0 <= r.pageId < |ps| && 0 <= r.slotNum < NumSlots(ps[r.pageId]) && Alive(l, ps[r.pageId], r.slotNum)
  {
    InIds(r, |ps|, l.maxSlots);
  }

  /** No slot has changed, though pages may have been added. */
  ghost predicate Unmoved(l: Layout, ps: seq<Page>, ps': seq<Page>)
    requires Sized(l)
  {
    |ps| <= |ps'| && forall q :: R.Val(SlotIn(l, ps', q)) == R.Val(SlotIn(l, ps, q))
  }

  lemma GrowOne(l: Layout, ps: seq<Page>, mid: seq<Page>)
    requires Sized(l) && PagesOk(l, mid) && Unmoved(l, ps, mid)
    ensures PagesOk(l, mid + [ZERO_PAGE]) && Unmoved(l, ps, mid + [ZERO_PAGE])
  {
    hide SlotIn;
    forall q { Grow(l, mid, q); }
  }

  lemma Counted(l: Layout, p: Page, i: nat)
    requires PageOk(l, p) && i < NumSlots(p)
    ensures i < l.maxSlots
  {
  }

  lemma NothingMoved(l: Layout, ps: seq<Page>)
    requires Sized(l)
    ensures Unmoved(l, ps, ps)
  {
  }

  lemma SameContents(l: Layout, ps: seq<Page>, ps': seq<Page>)
    requires Sized(l) && Unmoved(l, ps, ps')
    ensures Contents(l, ps') == Contents(l, ps)
  {
    hide SlotIn;
    var r := RecordID(-1, 0);
    NoSlot(l, ps', r);
    NoSlot(l, ps, r);
    ContentsOnly(l, ps, ps', r);
  }

  lemma NoSlot(l: Layout, ps: seq<Page>, r: RecordID)
    requires Sized(l) && r.pageId < 0
    ensures !SlotIn(l, ps, r).alive
  {
  }

  lemma OnlyAfter(l: Layout, ps: seq<Page>, mid: seq<Page>, ps': seq<Page>, r: RecordID)
    requires Sized(l) && Unmoved(l, ps, mid) && OnlySlot(l, mid, ps', r)
    ensures OnlySlot(l, ps, ps', r)
  {
    hide SlotIn;
    forall q | q != r
      ensures R.Val(SlotIn(l, ps', q)) == R.Val(SlotIn(l, ps, q))
    {
      assert R.Val(SlotIn(l, mid, q)) == R.Val(SlotIn(l, ps, q));
    }
  }

  /** A free slot was filled, and all before it are live. */
  lemma Inserted(l: Layout, ps: seq<Page>, ps': seq<Page>, r: RecordID, row: Row)
    requires Sized(l) && PagesOk(l, ps) && OnlySlot(l, ps, ps', r) && SlotIn(l, ps', r) == R.Slot(true, row)
    requires !SlotIn(l, ps, r).alive
    requires forall q: RecordID :: 0 <= q.pageId && 0 <= q.slotNum < l.maxSlots && Before(q, r) ==>
              SlotIn(l, ps, q).alive
    ensures r !in Contents(l, ps) && Contents(l, ps') == Contents(l, ps)[r := row]
    ensures forall q: RecordID :: 0 <= q.pageId && 0 <= q.slotNum < l.maxSlots && Before(q, r) ==> q in Contents(l, ps)
  {
    ContentsOnly(l, ps, ps', r);
    forall q { LiveId(l, ps, q); }
  }

  lemma CountUp(l: Layout, ps: seq<Page>, r: RecordID)
    requires Sized(l) && PagesOk(l, ps) && 0 <= r.pageId < |ps| && 0 <= r.slotNum < l.maxSlots
    ensures var p := ps[r.pageId]; var q := if r.slotNum >= NumSlots(p) then SetNumSlots(p, r.slotNum + 1) else p;
            r.slotNum < NumSlots(q) && PagesOk(l, ps[r.pageId := q])
            && forall x :: R.Val(SlotIn(l, ps[r.pageId := q], x)) == R.Val(SlotIn(l, ps, x))
  {
    hide Decode, Alive, Payload, SetNumSlots, NumSlots, SlotPtr;
    var p := ps[r.pageId];
    MaxSlotsSmall(l);
    if r.slotNum < NumSlots(p) {
      assert ps[r.pageId := p] == ps;
    } else {
      SetNumSlotsFrame(l, p, r.slotNum + 1, r.slotNum);
      var q := SetNumSlots(p, r.slotNum + 1);
      forall j | 0 <= j < l.maxSlots
        ensures Alive(l, q, j) == Alive(l, p, j) && SlotPtr(l, j) + l.slotSize <= PAGE_SIZE
                  && Payload(l, q, j) == Payload(l, p, j)
      {
        SetNumSlotsFrame(l, p, r.slotNum + 1, j);
      }
      assert PageOk(l, p) && PageOk(l, q);
      forall x
        ensures R.Val(SlotIn(l, ps[r.pageId := q], x)) == R.Val(SlotIn(l, ps, x))
      {
      }
    }
  }
}
