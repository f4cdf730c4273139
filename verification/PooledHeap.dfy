/** The heap's pages in the buffer pool: each access pins one page and gives the pin back,
    and a page that others have pinned stays where it is. */
module PooledHeap {
  import opened Common
  import opened FileManager
  import opened Record
  import opened BufferManager
  import H = TableHeap
  import R = Recovery

  /** Frames, page table and files: all that the pool knows. */
  datatype Pool = Pool(fs: seq<Frame>, pt: PageTable, files: Files)

  ghost function PoolOf(bm: BufferManager): Pool
    reads bm, bm.frames, bm.fm
  {
    Pool(bm.frames[..], bm.pageTable, bm.fm.files)
  }

  ghost function Shown(w: Pool, p: PageId): Page { View(w.fs, w.pt, w.files, p) }

  ghost function Pins(w: Pool, p: PageId): int { PinsOf(w.fs, w.pt, p) }

  ghost predicate Sound(w: Pool) { Bijection(w.fs, w.pt) && AllSynced(w.fs, w.files) }

  /** An open file whose pages in the pool are all pages that it has; none was given back. */
  ghost predicate Usable(w: Pool, f: int) {
    Inside(w.pt, w.files, f) && !w.files[f].failed && w.files[f].freeList == []
  }

  /** The pages of the file, as the users of the pool see them. */
  ghost function Pages(w: Pool, f: int): (ps: seq<Page>)
    requires f in w.files
    ensures |ps| == PageCount(w.files[f])
  {
    seq(PageCount(w.files[f]), i requires 0 <= i < PageCount(w.files[f]) => Shown(w, PageId(f, i)))
  }

  /** All pages are in the pool. */
  ghost predicate AllResident(w: Pool, f: int)
    requires f in w.files
  {
    forall i :: 0 <= i < PageCount(w.files[f]) ==> PageId(f, i) in w.pt
  }

  /** The pool looks the same, and every page has as many pins more as said. */
  ghost predicate Quiet(w: Pool, w': Pool, p: PageId, more: int) {
    (forall q :: Shown(w', q) == Shown(w, q)) && forall q :: Pins(w', q) == Pins(w, q) + if q == p then more else 0
  }

  lemma StillUsable(w: Pool, w': Pool, f: int, pid: nat)
    requires Usable(w, f) && pid < PageCount(w.files[f])
    requires SameView(w.fs, w.pt, w.files, w'.fs, w'.pt, w'.files) && LengthsKept(w.pt, w.files, w'.files)
    requires forall q :: q in w'.pt ==> q in w.pt || q == PageId(f, pid)
    ensures Usable(w', f) && Pages(w', f) == Pages(w, f)
  {
    hide View;
    forall i | 0 <= i < PageCount(w.files[f])
      ensures Shown(w', PageId(f, i)) == Shown(w, PageId(f, i))
    {
    }
  }

  lemma OpenFile(w: Pool, f: int)
    requires Usable(w, f)
    ensures f in w.files && !w.files[f].failed && w.files[f].freeList == []
  {
  }

  lemma NoNegative(w: Pool, p: PageId)
    requires Bijection(w.fs, w.pt) && p in w.pt
    ensures w.pt[p] < |w.fs| && w.fs[w.pt[p]].pinCount >= 0
  {
  }

  lemma SamePages(w: Pool, w': Pool, f: int)
    requires Usable(w, f) && SameView(w.fs, w.pt, w.files, w'.fs, w'.pt, w'.files)
    requires w'.files == w.files && w'.pt == w.pt
    ensures Usable(w', f) && Pages(w', f) == Pages(w, f)
  {
    hide View;
    forall i | 0 <= i < PageCount(w.files[f])
      ensures Shown(w', PageId(f, i)) == Shown(w, PageId(f, i))
    {
    }
  }

  lemma CanWrite(w: Pool, f: int, pid: nat)
    requires Usable(w, f)
    ensures Writable(w.files, PageId(f, pid))
  {
  }

  lemma SeenAs(w: Pool, w': Pool, p: PageId, more: int)
    requires SameView(w.fs, w.pt, w.files, w'.fs, w'.pt, w'.files) && PinsChange(w.fs, w.pt, w'.fs, w'.pt, p, more)
    ensures Quiet(w, w', p, more)
  {
    hide View, PinsOf;
  }

  lemma PinnedPage(w: Pool, f: int, pid: nat)
    requires f in w.files && pid < PageCount(w.files[f])
    requires Bijection(w.fs, w.pt) && PageId(f, pid) in w.pt
    ensures Pages(w, f)[pid] == w.fs[w.pt[PageId(f, pid)]].data
  {
  }

  /** A fetch that found its page changed one pin count; otherwise it needed room. */
  ghost predicate Fetched(w: Pool, w': Pool, p: PageId) {
    p in w'.pt && w'.pt[p] < |w'.fs|
    && if p in w.pt && w.pt[p] < |w.fs| then
         var i := w.pt[p];
         w' == w.(fs := w.fs[i := w.fs[i].(pinCount := w.fs[i].pinCount + 1)])
       else HasRoom(w.fs) && w'.fs[w'.pt[p]].pinCount == 1
  }

  ghost predicate Unpinned(w: Pool, w': Pool, p: PageId) {
    p in w.pt && w.pt[p] < |w.fs|
    && var i := w.pt[p]; w' == w.(fs := w.fs[i := w.fs[i].(pinCount := w.fs[i].pinCount - 1)])
  }

  /** A page fetched and given back: if there was room, there still is, and if there was
      none, nothing has changed. */
  lemma GivenBack(w: Pool, w1: Pool, w2: Pool, p: PageId)
    requires Bijection(w.fs, w.pt) && Fetched(w, w1, p) && Unpinned(w1, w2, p)
    requires Quiet(w, w1, p, 1) && Quiet(w1, w2, p, -1)
    ensures HasRoom(w.fs) ==> HasRoom(w2.fs)
    ensures p in w.pt ==> w2 == w
    ensures p !in w.pt ==> HasRoom(w.fs)
    ensures Quiet(w, w2, p, 0)
  {
    hide View, PinsOf;
    if p in w.pt {
      assert w2.fs == w.fs;
    } else {
      assert Evictable(w2.fs[w1.pt[p]]);
    }
  }

  lemma QuietTwice(w: Pool, w1: Pool, w2: Pool, p: PageId, q: PageId)
    requires Quiet(w, w1, p, 0) && Quiet(w1, w2, q, 0)
    ensures Quiet(w, w2, p, 0)
  {
    hide View, PinsOf;
  }

  lemma PinGone(w: Pool, w': Pool, p: PageId)
    requires Bijection(w.fs, w.pt) && Unpinned(w, w', p)
    ensures Quiet(w, w', p, -1)
  {
  }

  /** As far as the loop has come: with room, there still is; without, nothing has changed
      and the pages so far were all there. */
  ghost predicate SoFar(w: Pool, w': Pool, f: int, pid: nat) {
    Quiet(w, w', PageId(f, 0), 0)
    && (HasRoom(w.fs) ==> HasRoom(w'.fs))
    && (!HasRoom(w.fs) ==> w' == w && forall i :: 0 <= i < pid ==> PageId(f, i) in w.pt)
  }

  lemma SoFarQuiet(w: Pool, w': Pool, f: int, pid: nat)
    requires SoFar(w, w', f, pid)
    ensures Quiet(w, w', PageId(f, 0), 0) && OnlyFile(w, w', f)
  {
    hide View, PinsOf;
  }

  /** The first pages have no free slot. */
  ghost predicate FullUpTo(l: H.Layout, ps: seq<Page>, pid: nat)
    requires H.Sized(l)
  {
    forall q: RecordID :: 0 <= q.pageId < pid && 0 <= q.slotNum < l.maxSlots ==> H.SlotIn(l, ps, q).alive
  }

  lemma PageOf(l: H.Layout, ps: seq<Page>, pid: nat)
    requires H.Sized(l) && H.PagesOk(l, ps) && pid < |ps|
    ensures H.PageOk(l, ps[pid])
  {
  }

  lemma FirstFree(l: H.Layout, ps: seq<Page>, pid: nat, i: nat)
    requires H.Sized(l) && FullUpTo(l, ps, pid) && pid < |ps| && i < l.maxSlots
    requires !H.Alive(l, ps[pid], i) && forall j :: 0 <= j < i ==> H.Alive(l, ps[pid], j)
    ensures !H.SlotIn(l, ps, RecordID(pid, i)).alive
    ensures forall q: RecordID :: 0 <= q.pageId && 0 <= q.slotNum < l.maxSlots && H.Before(q, RecordID(pid, i)) ==>
              H.SlotIn(l, ps, q).alive
  {
    hide H.Alive, H.Payload, Decode, H.SlotPtr;
  }

  lemma NewPageFree(l: H.Layout, ps: seq<Page>)
    requires H.Sized(l) && FullUpTo(l, ps, |ps|)
    ensures !H.SlotIn(l, ps, RecordID(|ps|, 0)).alive
    ensures forall q: RecordID :: 0 <= q.pageId && 0 <= q.slotNum < l.maxSlots && H.Before(q, RecordID(|ps|, 0)) ==>
              H.SlotIn(l, ps, q).alive
  {
    hide H.Alive, H.Payload, Decode, H.SlotPtr;
  }

  lemma FullPage(l: H.Layout, ps: seq<Page>, pid: nat)
    requires H.Sized(l) && FullUpTo(l, ps, pid) && pid < |ps|
    requires forall j :: 0 <= j < l.maxSlots ==> H.Alive(l, ps[pid], j)
    ensures FullUpTo(l, ps, pid + 1)
  {
    hide H.Alive, H.Payload, Decode, H.SlotPtr;
  }

  lemma AtFirst(w: Pool, f: int)
    ensures SoFar(w, w, f, 0)
  {
  }

  lemma OneMore(w: Pool, w0: Pool, w1: Pool, w2: Pool, f: int, pid: nat)
    requires SoFar(w, w0, f, pid) && Bijection(w0.fs, w0.pt)
    requires Fetched(w0, w1, PageId(f, pid)) && Unpinned(w1, w2, PageId(f, pid))
    requires Quiet(w0, w1, PageId(f, pid), 1) && Quiet(w1, w2, PageId(f, pid), -1)
    ensures SoFar(w, w2, f, pid + 1)
  {
    hide Quiet, Bijection, HasRoom, Fetched, Unpinned;
    GivenBack(w0, w1, w2, PageId(f, pid));
    QuietTwice(w, w0, w2, PageId(f, 0), PageId(f, pid));
  }

  /** Page p was written through its pointer and marked. */
  ghost predicate Written(w: Pool, w': Pool, p: PageId, bytes: Page) {
    p in w.pt && w.pt[p] < |w.fs|
    && var i := w.pt[p]; w' == w.(fs := w.fs[i := w.fs[i].(data := bytes, isDirty := true)])
  }

  /** Pages of other files look the same, and all pins are as they were. */
  ghost predicate OnlyFile(w: Pool, w': Pool, f: int) {
    (forall q: PageId :: q.fileId != f ==> Shown(w', q) == Shown(w, q)) && forall q :: Pins(w', q) == Pins(w, q)
  }

  lemma WrittenPages(w: Pool, w': Pool, f: int, pid: nat, bytes: Page)
    requires Usable(w, f) && Bijection(w.fs, w.pt) && pid < PageCount(w.files[f])
    requires Written(w, w', PageId(f, pid), bytes)
    ensures Usable(w', f) && Pages(w', f) == Pages(w, f)[pid := bytes]
    ensures OnlyFile(w, w', f) && PinsOf(w'.fs, w'.pt, PageId(f, pid)) == PinsOf(w.fs, w.pt, PageId(f, pid))
  {
    forall i | 0 <= i < PageCount(w.files[f])
      ensures Shown(w', PageId(f, i)) == if i == pid then bytes else Shown(w, PageId(f, i))
    {
    }
  }

  /** Fetched, written and given back. */
  lemma Accessed(w: Pool, w1: Pool, w2: Pool, w3: Pool, f: int, p: PageId)
    requires p.fileId == f && Quiet(w, w1, p, 1) && OnlyFile(w1, w2, f) && Quiet(w2, w3, p, -1)
    ensures OnlyFile(w, w3, f)
  {
    hide View, PinsOf;
  }

  lemma FetchedOnly(w: Pool, w1: Pool, w2: Pool, f: int, p: PageId)
    requires Quiet(w, w1, p, 1) && Quiet(w1, w2, p, -1)
    ensures OnlyFile(w, w2, f)
  {
    hide View, PinsOf;
  }

  lemma QuietFile(w: Pool, w': Pool, w'': Pool, f: int, p: PageId)
    requires Quiet(w, w', p, 0) && OnlyFile(w', w'', f)
    ensures OnlyFile(w, w'', f)
  {
    hide View, PinsOf;
  }

  lemma QuietIsOnly(w: Pool, w': Pool, f: int, p: PageId)
    requires Quiet(w, w', p, 0)
    ensures OnlyFile(w, w', f)
  {
    hide View, PinsOf;
  }

  /** A page allocated at the end: one more page of zeros, and nothing else. */
  lemma OneLonger(w: Pool, w': Pool, f: int)
    requires Sound(w) && Usable(w, f) && w'.fs == w.fs && w'.pt == w.pt
    requires f in w'.files && w'.files == w.files[f := w'.files[f]] && !w'.files[f].failed && w'.files[f].freeList == []
    requires PageCount(w'.files[f]) == PageCount(w.files[f]) + 1
    requires DiskPage(w'.files, PageId(f, PageCount(w.files[f]))) == ZERO_PAGE
    requires forall q :: DiskPage(w'.files, q) == DiskPage(w.files, q)
    ensures Sound(w') && Usable(w', f) && Pages(w', f) == Pages(w, f) + [ZERO_PAGE]
    ensures Quiet(w, w', PageId(f, 0), 0)
  {
    hide DiskPage;
    var n := PageCount(w.files[f]);
    assert PageId(f, n) !in w.pt;
    forall i | 0 <= i < n
      ensures Shown(w', PageId(f, i)) == Shown(w, PageId(f, i))
    {
    }
    forall i | 0 <= i < |w.fs|
      ensures Synced(w'.fs[i], w'.files)
    {
      assert Synced(w.fs[i], w.files);
    }
  }

  // ---------- the heap file ----------

  datatype Outcome = Inserted(rid: RecordID) | BadRow | NoFrame

  class HeapFile {
    const bm: BufferManager
    const fileId: int
    const l: H.Layout

    ghost function State(): Pool
      reads this, bm, bm.frames, bm.fm
    {
      PoolOf(bm)
    }

    ghost predicate Valid()
      reads this, bm, bm.frames, bm.fm
    {
      bm.Valid() && Usable(State(), fileId) && H.Sized(l) && H.PagesOk(l, Pages(State(), fileId))
    }

    constructor (pool: BufferManager, file: int, layout: H.Layout)
      requires pool.Valid() && Usable(PoolOf(pool), file) && H.Sized(layout)
      requires H.PagesOk(layout, Pages(PoolOf(pool), file))
      ensures Valid() && bm == pool && fileId == file && l == layout
    {
      bm, fileId, l := pool, file, layout;
    }

    /** Fetch one page of the file. */
    method Fetch(pid: nat) returns (ok: bool, page: Page)
      requires Valid() && pid < PageCount(bm.fm.files[fileId])
      modifies bm`pageTable, bm`clockHand, bm.frames, bm.fm`files
      ensures Valid() && Pages(State(), fileId) == old(Pages(State(), fileId))
      ensures ok <==> PageId(fileId, pid) in old(bm.pageTable) || HasRoom(old(bm.frames[..]))
      ensures Quiet(old(State()), State(), PageId(fileId, pid), if ok then 1 else 0)
      ensures ok ==> bm.Pinned(PageId(fileId, pid)) && page == Pages(State(), fileId)[pid]
      ensures ok ==> Fetched(old(State()), State(), PageId(fileId, pid))
      ensures !ok ==> State() == old(State())
    {
      hide View, LengthsKept, Usable, AllSynced, Bijection, HasRoom, SameView, PinsOf, Pages;
      ghost var w := State();
      OpenFile(w, fileId);
      if PageId(fileId, pid) in w.pt { NoNegative(w, PageId(fileId, pid)); }
      ok, page := bm.FetchPage(fileId, pid);
      StillUsable(w, State(), fileId, pid);
      SeenAs(w, State(), PageId(fileId, pid), if ok then 1 else 0);
      if ok {
        PinnedPage(State(), fileId, pid);
        NoNegative(State(), PageId(fileId, pid));
        assert bm.FrameOf(PageId(fileId, pid)) == State().fs[State().pt[PageId(fileId, pid)]];
      }
    }

    /** Give the page back. */
    method Release(pid: nat)
      requires Valid() && bm.Pinned(PageId(fileId, pid)) && pid < PageCount(bm.fm.files[fileId])
      modifies bm.frames
      ensures Valid() && Pages(State(), fileId) == old(Pages(State(), fileId))
      ensures Unpinned(old(State()), State(), PageId(fileId, pid))
      ensures Quiet(old(State()), State(), PageId(fileId, pid), -1)
    {
      hide View, Usable, AllSynced, SameView, Pages, PinsOf, Inside;
      ghost var w := State();
      var unpinned := bm.UnpinPage(fileId, pid);
      PinGone(w, State(), PageId(fileId, pid));
      SamePages(w, State(), fileId);
    }

    /** The live ids, as TableHeap.TableScan.  Fails (the source throws) exactly if some
        page is not in the pool and every frame is pinned.  Either way, all pins are as
        they were, and no page looks different. */
    method TableScan() returns (ok: bool, results: seq<RecordID>)
      requires Valid()
      modifies bm`pageTable, bm`clockHand, bm.frames, bm.fm`files
      ensures Valid() && Pages(State(), fileId) == old(Pages(State(), fileId))
      ensures Quiet(old(State()), State(), PageId(fileId, 0), 0)
      ensures ok <==> HasRoom(old(bm.frames[..])) || old(AllResident(State(), fileId))
      ensures ok ==> forall r :: r in results <==> r in H.Contents(l, Pages(State(), fileId))
      ensures ok ==> forall i, j :: 0 <= i < j < |results| ==> H.Before(results[i], results[j])
    {
      hide Usable, AllSynced, Bijection, HasRoom, Pages, H.Contents, H.Scanned, H.PagesOk, Quiet, Fetched, Unpinned;
      ghost var w := State();
      OpenFile(w, fileId);
      ghost var ps := Pages(w, fileId);
      H.NothingScanned(l, ps);
      AtFirst(w, fileId);
      var pageCount := PageCount(bm.fm.files[fileId]);
      results := [];
      for pid := 0 to pageCount
        invariant Valid() && fileId in State().files && Pages(State(), fileId) == ps
        invariant H.Scanned(l, ps, RecordID(pid, 0), results)
        invariant SoFar(w, State(), fileId, pid)
      {
        ghost var w0 := State();
        var page;
        ok, page := Fetch(pid);
        if !ok { return; }
        ghost var w1 := State();
        results := H.ScanPage(l, ps, pid, page, results);
        Release(pid);
        OneMore(w, w0, w1, State(), fileId, pid);
        OpenFile(State(), fileId);
      }
      H.AllScanned(l, ps, results);
      return true, results;
    }

    /** Write a pinned page through its pointer, and mark it. */
    method Store(pid: nat, bytes: Page)
      requires Valid() && bm.Pinned(PageId(fileId, pid)) && pid < PageCount(bm.fm.files[fileId])
      requires H.PagesOk(l, Pages(State(), fileId)[pid := bytes])
      modifies bm.frames
      ensures Valid() && Pages(State(), fileId) == old(Pages(State(), fileId))[pid := bytes]
      ensures bm.Pinned(PageId(fileId, pid)) && OnlyFile(old(State()), State(), fileId)
    {
      hide View, AllSynced, SameView, Pages, PinsOf, Usable, SyncedBut, OnlyFile, PinnedStay, H.PagesOk;
      ghost var w, p := State(), PageId(fileId, pid);
      CanWrite(w, fileId, pid);
      bm.WriteData(PageId(fileId, pid), bytes);
      var marked := bm.MarkDirty(fileId, pid);
      assert Written(w, State(), p, bytes);
      WrittenPages(w, State(), fileId, pid, bytes);
    }

    /** Put a row into a slot of a page that is pinned, and give the page back. */
    method PutAndRelease(pid: nat, page: Page, i: nat, b: seq<Byte>, ghost row: Row)
      requires Valid() && bm.Pinned(PageId(fileId, pid)) && pid < PageCount(bm.fm.files[fileId])
      requires page == Pages(State(), fileId)[pid] && i < l.maxSlots
      requires RowOk(l.schema, row) && b == Serialized(l.schema, row)
      modifies bm.frames
      ensures Valid() && fileId in bm.fm.files
      ensures H.OnlySlot(l, old(Pages(State(), fileId)), Pages(State(), fileId), RecordID(pid, i))
      ensures H.SlotIn(l, Pages(State(), fileId), RecordID(pid, i)) == R.Slot(true, CutRow(row))
      ensures forall w, p :: p == PageId(fileId, pid) && Quiet(w, old(State()), p, 1) ==> OnlyFile(w, State(), fileId)
    {
      hide Usable, AllSynced, Bijection, Pages, Quiet, OnlyFile;
      hide RowOk, Serialized, CutRow, H.SlotIn, H.OnlySlot, H.PagesOk;
      ghost var w1 := State();
      OpenFile(w1, fileId);
      ghost var ps := Pages(w1, fileId);
      H.PutAt(l, ps, RecordID(pid, i), row);
      var filled := H.FillSlot(l, page, i, b);
      Store(pid, filled);
      ghost var w2 := State();
      OpenFile(w2, fileId);
      Release(pid);
      OpenFile(State(), fileId);
      forall w, p | p == PageId(fileId, pid) && Quiet(w, w1, p, 1)
        ensures OnlyFile(w, State(), fileId)
      {
        Accessed(w, w1, w2, State(), fileId, p);
      }
    }

    /** The row goes into the first slot of a new page. */
    method InsertAtEnd(ghost w: Pool, b: seq<Byte>, ghost row: Row) returns (o: Outcome)
      requires Valid() && fileId in bm.fm.files && fileId in w.files
      requires SoFar(w, State(), fileId, PageCount(bm.fm.files[fileId])) && Pages(w, fileId) == Pages(State(), fileId)
      requires RowOk(l.schema, row) && b == Serialized(l.schema, row)
      requires FullUpTo(l, Pages(w, fileId), PageCount(bm.fm.files[fileId]))
      modifies bm`pageTable, bm`clockHand, bm.frames, bm.fm`files
      ensures Valid() && fileId in bm.fm.files && OnlyFile(w, State(), fileId) && o != BadRow
      ensures o == NoFrame ==> !HasRoom(w.fs)
      ensures var c, c' := H.Contents(l, Pages(w, fileId)), H.Contents(l, Pages(State(), fileId));
              if o.Inserted? then o.rid !in c && c' == c[o.rid := CutRow(row)] else c' == c
      ensures o.Inserted? ==>
                0 <= o.rid.pageId && 0 <= o.rid.slotNum < l.maxSlots
                && forall q: RecordID :: 0 <= q.pageId && 0 <= q.slotNum < l.maxSlots && H.Before(q, o.rid) ==>
                     q in H.Contents(l, Pages(w, fileId))
    {
      hide Usable, AllSynced, Bijection, HasRoom, Pages, H.Contents, H.PagesOk, Quiet, Fetched;
      hide RowOk, Serialized, CutRow, H.SlotIn, H.OnlySlot, OnlyFile, H.Alive, H.Unmoved, DiskPage;
      ghost var w0, ps := State(), Pages(w, fileId);
      SoFarQuiet(w, w0, fileId, |ps|);
      OpenFile(w0, fileId);
      var grown, pid := bm.fm.AllocatePage(fileId);
      ghost var w1 := State();
      OneLonger(w0, w1, fileId);
      H.NothingMoved(l, ps);
      H.GrowOne(l, ps, ps);
      QuietTwice(w, w0, w1, PageId(fileId, 0), PageId(fileId, 0));
      QuietIsOnly(w, w1, fileId, PageId(fileId, 0));
      var ok, page := Fetch(pid);
      if !ok {
        H.SameContents(l, ps, ps + [ZERO_PAGE]);
        return NoFrame;
      }
      OpenFile(State(), fileId);
      ghost var w2 := State();
      PutAndRelease(pid, page, 0, b, row);
      QuietFile(w, w1, State(), fileId, PageId(fileId, 0));
      var rid := RecordID(pid, 0);
      H.OnlyAfter(l, ps, ps + [ZERO_PAGE], Pages(State(), fileId), rid);
      NewPageFree(l, ps);
      H.Inserted(l, ps, Pages(State(), fileId), rid, CutRow(row));
      return Inserted(rid);
    }

    /** As TableHeap.InsertRecord.  NoFrame: a page was not in the pool and every frame is
        pinned.  Whatever happens, all pins are as they were and no page of another file
        looks different. */
    method InsertRecord(values: Row) returns (o: Outcome)
      requires Valid()
      modifies bm`pageTable, bm`clockHand, bm.frames, bm.fm`files
      ensures Valid() && fileId in old(bm.fm.files) && fileId in bm.fm.files
      ensures OnlyFile(old(State()), State(), fileId)
      ensures o == BadRow <==> !RowOk(l.schema, values)
      ensures o == NoFrame ==> !HasRoom(old(bm.frames[..]))
      ensures var c, c' := old(H.Contents(l, Pages(State(), fileId))), H.Contents(l, Pages(State(), fileId));
              if o.Inserted? then o.rid !in c && c' == c[o.rid := CutRow(values)] else c' == c
      ensures o.Inserted? ==>
                0 <= o.rid.pageId && 0 <= o.rid.slotNum < l.maxSlots
                && forall q: RecordID :: 0 <= q.pageId && 0 <= q.slotNum < l.maxSlots && H.Before(q, o.rid) ==>
                     q in old(H.Contents(l, Pages(State(), fileId)))
    {
      hide Usable, AllSynced, Bijection, HasRoom, Pages, H.Contents, H.PagesOk, Quiet, Fetched, Unpinned;
      hide RowOk, Serialized, CutRow, H.SlotIn, H.OnlySlot, OnlyFile, H.Alive;
      ghost var w := State();
      OpenFile(w, fileId);
      ghost var ps := Pages(w, fileId);
      AtFirst(w, fileId);
      SoFarQuiet(w, w, fileId, 0);
      var fits, buf := Serialize(l.schema, values);
      if !fits { return BadRow; }
      var bytes := buf[..];
      var pageCount := PageCount(bm.fm.files[fileId]);
      for pid := 0 to pageCount
        invariant Valid() && fileId in State().files && Pages(State(), fileId) == ps
        invariant SoFar(w, State(), fileId, pid) && FullUpTo(l, ps, pid)
      {
        ghost var w0 := State();
        SoFarQuiet(w, w0, fileId, pid);
        var ok, page := Fetch(pid);
        if !ok { return NoFrame; }
        ghost var w1 := State();
        OpenFile(w1, fileId);
        PageOf(l, ps, pid);
        var i := H.FreeSlot(l, page);
        if i < l.maxSlots {
          PutAndRelease(pid, page, i, bytes, values);
          QuietFile(w, w0, State(), fileId, PageId(fileId, 0));
          FirstFree(l, ps, pid, i);
          H.Inserted(l, ps, Pages(State(), fileId), RecordID(pid, i), CutRow(values));
          return Inserted(RecordID(pid, i));
        }
        Release(pid);
        FullPage(l, ps, pid);
        OneMore(w, w0, w1, State(), fileId, pid);
        OpenFile(State(), fileId);
      }
      o := InsertAtEnd(w, bytes, values);
    }

    /** As TableHeap.DeleteRecord; throws exactly if the page of the id is not in the pool
        and every frame is pinned. */
    method DeleteRecord(rid: RecordID) returns (a: H.Answer)
      requires Valid()
      modifies bm`pageTable, bm`clockHand, bm.frames, bm.fm`files
      ensures Valid() && fileId in old(bm.fm.files) && fileId in bm.fm.files
      ensures OnlyFile(old(State()), State(), fileId)
      ensures a == H.Throws <==>
              0 <= rid.pageId < |old(Pages(State(), fileId))| && 0 <= rid.slotNum
              && PageId(fileId, rid.pageId) !in old(bm.pageTable) && !HasRoom(old(bm.frames[..]))
      ensures var c, c' := old(H.Contents(l, Pages(State(), fileId))), H.Contents(l, Pages(State(), fileId));
              (a == H.Yes ==> rid in c) && (a == H.No ==> rid !in c) && c' == if a == H.Yes then c - {rid} else c
    {
      hide Usable, AllSynced, Bijection, HasRoom, Pages, H.Contents, H.PagesOk, Quiet, Fetched, Unpinned;
      hide OnlyFile, H.SlotIn, H.OnlySlot, H.Alive, H.NumSlots;
      ghost var w := State();
      OpenFile(w, fileId);
      ghost var ps := Pages(w, fileId);
      AtFirst(w, fileId);
      SoFarQuiet(w, w, fileId, 0);
      H.LiveId(l, ps, rid);
      if rid.pageId < 0 || rid.slotNum < 0 || rid.pageId >= PageCount(bm.fm.files[fileId]) { return H.No; }
      var pid := rid.pageId;
      var ok, page := Fetch(pid);
      if !ok { return H.Throws; }
      ghost var w1 := State();
      OpenFile(w1, fileId);
      PageOf(l, ps, pid);
      if rid.slotNum >= H.NumSlots(page) || !H.Alive(l, page, rid.slotNum) {
        Release(pid);
        OpenFile(State(), fileId);
        FetchedOnly(w, w1, State(), fileId, PageId(fileId, pid));
        return H.No;
      }
      H.Counted(l, page, rid.slotNum);
      H.KillAt(l, ps, rid, false);
      Store(pid, H.SetAlive(l, page, rid.slotNum, false));
      ghost var w2 := State();
      OpenFile(w2, fileId);
      Release(pid);
      OpenFile(State(), fileId);
      Accessed(w, w1, w2, State(), fileId, PageId(fileId, pid));
      H.ContentsOnly(l, ps, Pages(State(), fileId), rid);
      return H.Yes;
    }
  }
}
