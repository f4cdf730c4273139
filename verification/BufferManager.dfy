/** The buffer pool: a cache of pages with pins, dirty bits and a rotating victim hand,
    which its users must not notice. */
module BufferManager {
  import opened FileManager
  import F = FileManager

  datatype Frame = Frame(isValid: bool, isDirty: bool, pinCount: int, pid: PageId, data: Page)

  const EMPTY: Frame := Frame(false, false, 0, PageId(-1, -1), ZERO_PAGE)

  /** j frames further on the clock. */
  function Hand(h: nat, j: nat, n: nat): nat
    requires h < n && j <= n
  {
    if h + j < n then h + j else h + j - n
  }

  predicate Evictable(f: Frame) { !f.isValid || f.pinCount == 0 }

  // ---------- the pool as a value ----------

  type PageTable = map<PageId, nat>

  /** Page table and valid frames are in bijection; nobody holds a negative pin. */
  ghost predicate Bijection(fs: seq<Frame>, pt: PageTable) {
    (forall p :: p in pt ==> pt[p] < |fs| && fs[pt[p]].isValid && fs[pt[p]].pid == p)
    && (forall i :: 0 <= i < |fs| && fs[i].isValid ==> fs[i].pid in pt && pt[fs[i].pid] == i)
    && forall i :: 0 <= i < |fs| ==> fs[i].pinCount >= 0
  }

  /** A clean frame equals the disk; a dirty one can be written back. */
  ghost predicate Synced(f: Frame, files: Files) {
    f.isValid ==> if f.isDirty then Writable(files, f.pid) else f.data == DiskPage(files, f.pid)
  }

  ghost predicate SyncedBut(fs: seq<Frame>, files: Files, but: PageId) {
    forall i :: 0 <= i < |fs| && fs[i].pid != but ==> Synced(fs[i], files)
  }

  ghost predicate AllSynced(fs: seq<Frame>, files: Files) {
    forall i :: 0 <= i < |fs| ==> Synced(fs[i], files)
  }

  /** What users of the pool see: the cached page if there is one, else the disk. */
  ghost function View(fs: seq<Frame>, pt: PageTable, files: Files, p: PageId): Page {
    if p in pt && pt[p] < |fs| then fs[pt[p]].data else DiskPage(files, p)
  }

  ghost predicate SameView(fs: seq<Frame>, pt: PageTable, files: Files,
        fs': seq<Frame>, pt': PageTable, files': Files)
  {
    forall p :: View(fs', pt', files', p) == View(fs, pt, files, p)
  }

  /** A frame in use stays where it is: same page, same bytes, still in the table. */
  ghost predicate PinnedStay(fs: seq<Frame>, pt: PageTable, fs': seq<Frame>, pt': PageTable) {
    |fs'| == |fs|
    && forall p :: p in pt && pt[p] < |fs| && fs[pt[p]].pinCount > 0 ==>
         p in pt' && pt'[p] == pt[p] && fs'[pt[p]].data == fs[pt[p]].data
         && fs'[pt[p]].pinCount >= fs[pt[p]].pinCount
  }

  ghost function PinsOf(fs: seq<Frame>, pt: PageTable, p: PageId): int {
    if p in pt && pt[p] < |fs| then fs[pt[p]].pinCount else 0
  }

  ghost predicate SamePins(fs: seq<Frame>, pt: PageTable, fs': seq<Frame>, pt': PageTable) {
    forall q :: PinsOf(fs', pt', q) == PinsOf(fs, pt, q)
  }

  /** So many pins more on page p, and the same pins on all other pages. */
  ghost predicate PinsChange(fs: seq<Frame>, pt: PageTable, fs': seq<Frame>, pt': PageTable, p: PageId, more: int) {
    forall q :: PinsOf(fs', pt', q) == PinsOf(fs, pt, q) + if q == p then more else 0
  }

  /** All pages of the file that are in the pool are pages that the file has. */
  ghost predicate Inside(pt: PageTable, files: Files, f: int) {
    f in files && forall p :: p in pt && p.fileId == f ==> 0 <= p.pageId < PageCount(files[f])
  }

  /** Write-backs make no such file longer. */
  ghost predicate LengthsKept(pt: PageTable, files: Files, files': Files) {
    forall f :: Inside(pt, files, f) ==>
      f in files' && PageCount(files'[f]) == PageCount(files[f])
      && files'[f].freeList == files[f].freeList && files'[f].failed == files[f].failed
  }

  /** Writing back frame i of a synced pool: the pool stays synced and looks the same. */
  lemma WriteBack(fs: seq<Frame>, pt: PageTable, files: Files, i: nat)
    requires i < |fs| && Bijection(fs, pt) && AllSynced(fs, files) && fs[i].isValid && fs[i].isDirty
    ensures var pid := fs[i].pid;
            var files' := files[pid.fileId := WriteTo(files[pid.fileId], pid.pageId, fs[i].data)];
            var fs' := fs[i := fs[i].(isDirty := false)];
            Bijection(fs', pt) && AllSynced(fs', files') && SameView(fs, pt, files, fs', pt, files')
            && DiskPage(files', pid) == fs[i].data && files'.Keys == files.Keys
            && forall q :: Writable(files', q) == Writable(files, q)
  {
    hide WriteTo;
    var pid := fs[i].pid;
    forall q { WriteOne(files, pid, fs[i].data, q); }
  }

  /** It moves no pin, and makes no file longer whose pages it has. */
  lemma WriteBackKeeps(fs: seq<Frame>, pt: PageTable, files: Files, i: nat)
    requires i < |fs| && Bijection(fs, pt) && AllSynced(fs, files) && fs[i].isValid && fs[i].isDirty
    ensures var pid := fs[i].pid;
            var files' := files[pid.fileId := WriteTo(files[pid.fileId], pid.pageId, fs[i].data)];
            LengthsKept(pt, files, files')
    ensures SamePins(fs, pt, fs[i := fs[i].(isDirty := false)], pt)
    ensures PinnedStay(fs, pt, fs[i := fs[i].(isDirty := false)], pt)
  {
    hide View, DiskPage;
    assert Synced(fs[i], files) && fs[i].pid in pt;
  }

  lemma SameItself(fs: seq<Frame>, pt: PageTable, files: Files)
    ensures LengthsKept(pt, files, files) && SamePins(fs, pt, fs, pt)
    ensures SameView(fs, pt, files, fs, pt, files) && PinnedStay(fs, pt, fs, pt)
  {
  }

  lemma Dirty(fs: seq<Frame>, files: Files, i: nat)
    requires i < |fs| && AllSynced(fs, files) && fs[i].isValid && fs[i].isDirty
    ensures Writable(files, fs[i].pid)
  {
    assert Synced(fs[i], files);
  }

  lemma StayTwice(fs: seq<Frame>, pt: PageTable, fs': seq<Frame>, pt': PageTable, fs'': seq<Frame>, pt'': PageTable)
    requires PinnedStay(fs, pt, fs', pt') && PinnedStay(fs', pt', fs'', pt'')
    ensures PinnedStay(fs, pt, fs'', pt'')
  {
  }

  lemma SamePinsTwice(fs: seq<Frame>, pt: PageTable, fs': seq<Frame>, pt': PageTable, fs'': seq<Frame>,
                      pt'': PageTable)
    requires SamePins(fs, pt, fs', pt') && SamePins(fs', pt', fs'', pt'')
    ensures SamePins(fs, pt, fs'', pt'')
  {
    hide PinsOf;
  }

  /** Dropping a clean, unused page changes nothing for anybody. */
  lemma Drop(fs: seq<Frame>, pt: PageTable, files: Files, i: nat)
    requires i < |fs| && Bijection(fs, pt) && AllSynced(fs, files) && fs[i].isValid && !fs[i].isDirty
              && fs[i].pinCount == 0
    ensures var pt', fs' := pt - {fs[i].pid}, fs[i := fs[i].(isValid := false)];
            Bijection(fs', pt') && AllSynced(fs', files) && SameView(fs, pt, files, fs', pt', files)
            && PinnedStay(fs, pt, fs', pt') && SamePins(fs, pt, fs', pt')
  {
  }

  /** Loading a page that is not in the pool into a free frame. */
  lemma Load(fs: seq<Frame>, pt: PageTable, files: Files, i: nat, p: PageId)
    requires i < |fs| && Bijection(fs, pt) && AllSynced(fs, files) && !fs[i].isValid && p !in pt
    ensures var pt', fs' := pt[p := i], fs[i := Frame(true, false, 1, p, DiskPage(files, p))];
            Bijection(fs', pt') && AllSynced(fs', files) && SameView(fs, pt, files, fs', pt', files)
            && PinnedStay(fs, pt, fs', pt')
  {
  }

  /** One more or one less user of a page. */
  lemma Repin(fs: seq<Frame>, pt: PageTable, files: Files, i: nat, n: int)
    requires i < |fs| && Bijection(fs, pt) && AllSynced(fs, files) && n >= 0
    ensures var fs' := fs[i := fs[i].(pinCount := n)];
            Bijection(fs', pt) && AllSynced(fs', files) && SameView(fs, pt, files, fs', pt, files)
            && (n >= fs[i].pinCount ==> PinnedStay(fs, pt, fs', pt))
  {
  }

  ghost predicate HasRoom(fs: seq<Frame>) {
    exists i :: 0 <= i < |fs| && Evictable(fs[i])
  }

  /** The first frame after the clock hand that can be evicted is v. */
  ghost predicate Victim(fs: seq<Frame>, hand: nat, v: nat) {
    hand < |fs| && v < |fs| && Evictable(fs[v])
    && exists k :: 1 <= k <= |fs| && v == Hand(hand, k, |fs|)
                   && forall j :: 1 <= j < k ==> !Evictable(fs[Hand(hand, j, |fs|)])
  }

  /** The hand goes round the frames in order. */
  lemma HandExact(h: nat, j: nat, n: nat)
    requires h < n && j <= n
    ensures Hand(h, j, n) == (h + j) % n
  {
    Wrapped(h + j, n);
  }

  lemma Wrapped(x: nat, n: nat)
    requires 0 < n && x < 2 * n
    ensures x % n == if x < n then x else x - n
  {
    if x >= n { assert x == n + (x - n); }
  }

  /** So frames and hand decide which frame is taken. */
  lemma OneVictim(fs: seq<Frame>, hand: nat, v: nat, w: nat)
    requires Victim(fs, hand, v) && Victim(fs, hand, w)
    ensures v == w
  {
    var n := |fs|;
    var k :| 1 <= k <= n && v == Hand(hand, k, n) && forall j :: 1 <= j < k ==> !Evictable(fs[Hand(hand, j, n)]);
    var l :| 1 <= l <= n && w == Hand(hand, l, n) && forall j :: 1 <= j < l ==> !Evictable(fs[Hand(hand, j, n)]);
  }

  // ---------- the buffer manager ----------

  class BufferManager {
    const fm: F.FileManager
    const poolSize: nat
    const frames: array<Frame>
    var pageTable: PageTable
    var clockHand: nat

    ghost predicate Structure()
      reads this, frames
    {
      frames.Length == poolSize && (poolSize > 0 ==> clockHand < poolSize) && Bijection(frames[..], pageTable)
    }

    ghost predicate Valid()
      reads this, frames, fm
    {
      Structure() && AllSynced(frames[..], fm.files)
    }

    ghost function PageOf(p: PageId): Page
      reads this, frames, fm
    {
      View(frames[..], pageTable, fm.files, p)
    }

    /** The frame that a page is in. */
    ghost function FrameOf(p: PageId): Frame
      requires Structure() && p in pageTable
      reads this, frames
    {
      frames[pageTable[p]]
    }

    ghost predicate Pinned(p: PageId)
      requires Structure()
      reads this, frames
    {
      p in pageTable && FrameOf(p).pinCount > 0
    }

    constructor (files: F.FileManager, size: nat)
      ensures Valid() && fm == files && poolSize == size && fresh(frames) && pageTable == map[]
    {
      fm, poolSize := files, size;
      frames := new Frame[size](_ => EMPTY);
      pageTable, clockHand := map[], 0;
    }

    /** Fails (the source throws) exactly if all frames are in use; then the hand has gone
        all the way round.  Otherwise it stops at the first frame that can be evicted. */
    method SelectVictimFrame() returns (ok: bool, victim: nat)
      requires Structure()
      modifies this`clockHand
      ensures Structure()
      ensures ok <==> exists i :: 0 <= i < poolSize && (!frames[i].isValid || frames[i].pinCount == 0)
      ensures ok <==> HasRoom(frames[..])
      ensures !ok ==> clockHand == old(clockHand)
      ensures ok ==> victim == clockHand && Victim(frames[..], old(clockHand), victim)
    {
      var i := 0;
      while i < poolSize
        invariant i <= poolSize && (i == 0 ==> clockHand == old(clockHand))
        invariant poolSize > 0 ==> clockHand == Hand(old(clockHand), i, poolSize)
        invariant forall j :: 1 <= j <= i ==> !Evictable(frames[Hand(old(clockHand), j, poolSize)])
      {
        Wrap(clockHand + 1, poolSize);
        clockHand := (clockHand + 1) % poolSize;
        i := i + 1;
        var f := frames[clockHand];
        assert clockHand == Hand(old(clockHand), i, poolSize);
        if !f.isValid { return true, clockHand; }
        if f.pinCount == 0 { return true, clockHand; }
      }
      if poolSize > 0 {
        forall r | 0 <= r < poolSize
          ensures !Evictable(frames[r])
        {
          var h := old(clockHand);
          var j := if r > h then r - h else r - h + poolSize;
          assert Hand(h, j, poolSize) == r;
        }
      }
      return false, 0;
    }

    /** The pool with frame v counted as free. */
    ghost function Without(v: nat): seq<Frame>
      requires v < frames.Length
      reads this, frames
    {
      frames[..][v := frames[v].(isValid := false)]
    }

    /** Write the victim back if it is dirty, and take it out of the page table.  The frame
        itself still says that it is valid. */
    method Evict(v: nat)
      requires Valid() && v < poolSize && Evictable(frames[v])
      modifies this`pageTable, frames, fm`files
      ensures frames.Length == poolSize && clockHand == old(clockHand)
      ensures Bijection(Without(v), pageTable) && AllSynced(Without(v), fm.files)
      ensures SameView(old(frames[..]), old(pageTable), old(fm.files), Without(v), pageTable, fm.files)
      ensures PinnedStay(old(frames[..]), old(pageTable), Without(v), pageTable)
      ensures frames[v].isValid == old(frames[v].isValid) && (frames[v].isValid ==> frames[v].pid !in pageTable)
      ensures fm.files.Keys == old(fm.files).Keys
      ensures pageTable == if frames[v].isValid then old(pageTable) - {frames[v].pid} else old(pageTable)
      ensures SamePins(old(frames[..]), old(pageTable), Without(v), pageTable)
      ensures LengthsKept(old(pageTable), old(fm.files), fm.files)
    {
      ghost var fs, pt, files := frames[..], pageTable, fm.files;
      hide View, WriteTo, DiskPage, PinsOf, LengthsKept, SamePins, PinnedStay, Synced;
      var f := frames[v];
      SameItself(fs, pt, files);
      if f.isValid {
        if f.isDirty {
          WriteBack(fs, pt, files, v);
          WriteBackKeeps(fs, pt, files, v);
          assert Writable(files, f.pid) by { Dirty(fs, files, v); }
          var written := fm.WritePage(f.pid.fileId, f.pid.pageId, f.data);
          frames[v] := f.(isDirty := false);
          assert frames[..] == fs[v := f.(isDirty := false)];
        }
        assert SameView(fs, pt, files, frames[..], pt, fm.files) && PinnedStay(fs, pt, frames[..], pt);
        Drop(frames[..], pageTable, fm.files, v);
        pageTable := pageTable - {f.pid};
        SamePinsTwice(fs, pt, frames[..], pt, Without(v), pageTable);
        StayTwice(fs, pt, frames[..], pt, Without(v), pageTable);
      } else {
        assert Without(v) == fs;
      }
    }

    /** Returns the page and pins it.  Fails (the source throws) if it is not in the pool and
        either all frames are in use or the file is not open.

        The second failure comes after a victim was taken out of the table: if that frame
        (see OneVictim) was valid, it is left behind valid but unmapped, and the pool is no longer sound. */
    method FetchPage(fileId: int, pageId: int) returns (ok: bool, data: Page)
      requires Valid()
      modifies this`pageTable, this`clockHand, frames, fm`files
      ensures var p := PageId(fileId, pageId);
              ok <==> p in old(pageTable) || (HasRoom(old(frames[..])) && fileId in old(fm.files))
      ensures ok <==> PageId(fileId, pageId) in old(pageTable)
                      || (fileId in old(fm.files)
                          && exists i :: 0 <= i < poolSize && old(!frames[i].isValid || frames[i].pinCount == 0))
      ensures SameView(old(frames[..]), old(pageTable), old(fm.files), frames[..], pageTable, fm.files)
      ensures PinnedStay(old(frames[..]), old(pageTable), frames[..], pageTable)
      ensures fm.files.Keys == old(fm.files).Keys
      ensures PinsChange(old(frames[..]), old(pageTable), frames[..], pageTable, PageId(fileId, pageId),
                         if ok then 1 else 0)
      ensures LengthsKept(old(pageTable), old(fm.files), fm.files)
      ensures forall q :: q in pageTable ==> q in old(pageTable) || q == PageId(fileId, pageId)
      ensures PageId(fileId, pageId) in old(pageTable) ==>
                var i := old(pageTable)[PageId(fileId, pageId)];
                pageTable == old(pageTable) && fm.files == old(fm.files)
                && frames[..] == old(frames[..])[i := old(frames[i]).(pinCount := old(frames[i].pinCount) + 1)]
      ensures var p := PageId(fileId, pageId);
              ok ==> Valid() && p in pageTable && data == FrameOf(p).data
                     && FrameOf(p).pinCount == if p in old(pageTable) then old(FrameOf(p).pinCount) + 1 else 1
      ensures !ok && !HasRoom(old(frames[..])) ==>
                Valid() && frames[..] == old(frames[..]) && pageTable == old(pageTable) && fm.files == old(fm.files)
      ensures !ok && HasRoom(old(frames[..])) ==>
                Victim(old(frames[..]), old(clockHand), clockHand)
                && (Valid() <==> !old(frames[..])[clockHand].isValid)
    {
      hide Synced, View, PinnedStay, HasRoom, DiskPage;
      var pid := PageId(fileId, pageId);
      if pid in pageTable {
        var i := pageTable[pid];
        Repin(frames[..], pageTable, fm.files, i, frames[i].pinCount + 1);
        ghost var fs := frames[..];
        frames[i] := frames[i].(pinCount := frames[i].pinCount + 1);
        assert frames[..] == fs[i := frames[i]];
        return true, frames[i].data;
      }
      var found, v := SelectVictimFrame();
      if !found {
        SameItself(frames[..], pageTable, fm.files);
        return false, ZERO_PAGE;
      }
      ok, data := LoadInto(v, pid);
    }

    /** The second half of FetchPage, once the victim is known. */
    method LoadInto(v: nat, pid: PageId) returns (ok: bool, data: Page)
      requires Valid() && v < poolSize && Evictable(frames[v]) && pid !in pageTable
      modifies this`pageTable, frames, fm`files
      ensures ok == (pid.fileId in old(fm.files)) && clockHand == old(clockHand)
      ensures SameView(old(frames[..]), old(pageTable), old(fm.files), frames[..], pageTable, fm.files)
      ensures PinnedStay(old(frames[..]), old(pageTable), frames[..], pageTable)
      ensures fm.files.Keys == old(fm.files).Keys
      ensures PinsChange(old(frames[..]), old(pageTable), frames[..], pageTable, pid, if ok then 1 else 0)
      ensures LengthsKept(old(pageTable), old(fm.files), fm.files)
      ensures forall q :: q in pageTable ==> q in old(pageTable) || q == pid
      ensures ok ==> Valid() && pid in pageTable && data == FrameOf(pid).data && FrameOf(pid).pinCount == 1
      ensures !ok ==> (Valid() <==> !old(frames[v].isValid))
    {
      hide DiskPage, SameView, PinnedStay, Synced, Bijection;
      ghost var fs, pt, files := frames[..], pageTable, fm.files;
      Evict(v);
      ghost var gap := Without(v);
      var read, bytes := fm.ReadPage(pid.fileId, pid.pageId);
      if !read {
        LeftBehind(fs, pt, files, gap, frames[..], pageTable, fm.files, v);
        return false, ZERO_PAGE;
      }
      Load(gap, pageTable, fm.files, v, pid);
      ghost var pt' := pageTable;
      frames[v] := Frame(true, false, 1, pid, bytes);
      pageTable := pageTable[pid := v];
      assert frames[..] == gap[v := frames[v]];
      SameThrough(fs, pt, files, gap, pt', fm.files, frames[..], pageTable, fm.files);
      return true, bytes;
    }

    /** Fails (the source throws) if the page is not in the pool. */
    method PinPage(fileId: int, pageId: int) returns (ok: bool)
      requires Valid()
      modifies frames
      ensures Valid() && ok == (PageId(fileId, pageId) in pageTable)
      ensures SameView(old(frames[..]), pageTable, fm.files, frames[..], pageTable, fm.files)
      ensures PinnedStay(old(frames[..]), pageTable, frames[..], pageTable)
      ensures ok ==> var i := pageTable[PageId(fileId, pageId)];
                     frames[..] == old(frames[..])[i := old(frames[i]).(pinCount := old(frames[i].pinCount) + 1)]
      ensures !ok ==> frames[..] == old(frames[..])
    {
      hide View, AllSynced;
      var p := PageId(fileId, pageId);
      if p !in pageTable { return false; }
      var i := pageTable[p];
      Repin(frames[..], pageTable, fm.files, i, frames[i].pinCount + 1);
      frames[i] := frames[i].(pinCount := frames[i].pinCount + 1);
      assert frames[..] == old(frames[..])[i := frames[i]];
      return true;
    }

    /** Fails if the page is not in the pool or has no pin to give back. */
    method UnpinPage(fileId: int, pageId: int) returns (ok: bool)
      requires Valid()
      modifies frames
      ensures Valid() && ok == old(Pinned(PageId(fileId, pageId)))
      ensures SameView(old(frames[..]), pageTable, fm.files, frames[..], pageTable, fm.files)
      ensures ok ==> var i := pageTable[PageId(fileId, pageId)];
                     frames[..] == old(frames[..])[i := old(frames[i]).(pinCount := old(frames[i].pinCount) - 1)]
      ensures !ok ==> frames[..] == old(frames[..])
    {
      var p := PageId(fileId, pageId);
      if p !in pageTable { return false; }
      var i := pageTable[p];
      if frames[i].pinCount <= 0 { return false; }
      Repin(frames[..], pageTable, fm.files, i, frames[i].pinCount - 1);
      frames[i] := frames[i].(pinCount := frames[i].pinCount - 1);
      assert frames[..] == old(frames[..])[i := frames[i]];
      return true;
    }

    /** A user writes through the pointer that FetchPage gave out.  The view of this page
        changes at once, of no other; but until the page is marked dirty the pool takes it
        for a copy of the disk. */
    method WriteData(p: PageId, bytes: Page)
      requires Valid() && Pinned(p)
      modifies frames
      ensures Structure() && Pinned(p) && SyncedBut(frames[..], fm.files, p)
      ensures forall q :: PageOf(q) == if q == p then bytes else old(PageOf(q))
      ensures frames[..] == old(frames[..])[pageTable[p] := old(FrameOf(p)).(data := bytes)]
    {
      var i := pageTable[p];
      ghost var fs := frames[..];
      frames[i] := frames[i].(data := bytes);
      assert frames[..] == fs[i := frames[i]];
    }

    /** Marking the page dirty makes the pool sound again, if the page can be written. */
    method MarkDirty(fileId: int, pageId: int) returns (ok: bool)
      requires Structure()
      modifies frames
      ensures Structure() && ok == (PageId(fileId, pageId) in pageTable)
      ensures SameView(old(frames[..]), pageTable, fm.files, frames[..], pageTable, fm.files)
      ensures PinnedStay(old(frames[..]), pageTable, frames[..], pageTable)
      ensures ok && SyncedBut(old(frames[..]), fm.files, PageId(fileId, pageId)) ==>
                (Valid() <==> Writable(fm.files, PageId(fileId, pageId)))
      ensures ok ==> var i := pageTable[PageId(fileId, pageId)];
                     frames[..] == old(frames[..])[i := old(frames[i]).(isDirty := true)]
      ensures !ok ==> frames[..] == old(frames[..])
    {
      var p := PageId(fileId, pageId);
      if p !in pageTable { return false; }
      var i := pageTable[p];
      frames[i] := frames[i].(isDirty := true);
      assert frames[..] == old(frames[..])[i := frames[i]];
      assert FrameOf(p) == frames[..][i];
      return true;
    }

    method FlushPage(fileId: int, pageId: int)
      requires Valid()
      modifies frames, fm`files
      ensures Valid()
      ensures SameView(old(frames[..]), pageTable, old(fm.files), frames[..], pageTable, fm.files)
      ensures PinnedStay(old(frames[..]), pageTable, frames[..], pageTable)
      ensures DiskPage(fm.files, PageId(fileId, pageId)) == PageOf(PageId(fileId, pageId))
    {
      hide WriteTo, DiskPage;
      var p := PageId(fileId, pageId);
      if p !in pageTable { return; }
      var i := pageTable[p];
      if frames[i].isValid && frames[i].isDirty {
        WriteBack(frames[..], pageTable, fm.files, i);
        ghost var fs := frames[..];
        var written := fm.WritePage(fileId, pageId, frames[i].data);
        frames[i] := frames[i].(isDirty := false);
        assert frames[..] == fs[i := frames[i]];
      }
      assert Synced(frames[..][i], fm.files);
    }

    /** Afterwards the disk is what the users see. */
    method FlushAllPages()
      requires Valid()
      modifies frames, fm`files
      ensures Valid()
      ensures SameView(old(frames[..]), pageTable, old(fm.files), frames[..], pageTable, fm.files)
      ensures PinnedStay(old(frames[..]), pageTable, frames[..], pageTable)
      ensures forall q :: DiskPage(fm.files, q) == PageOf(q)
    {
      hide WriteTo, DiskPage;
      for i := 0 to poolSize
        invariant Valid()
        invariant SameView(old(frames[..]), pageTable, old(fm.files), frames[..], pageTable, fm.files)
        invariant PinnedStay(old(frames[..]), pageTable, frames[..], pageTable)
        invariant forall j :: 0 <= j < i ==> !(frames[..][j].isValid && frames[..][j].isDirty)
      {
        if frames[i].isValid && frames[i].isDirty {
          WriteBack(frames[..], pageTable, fm.files, i);
          ghost var fs := frames[..];
          var written := fm.WritePage(frames[i].pid.fileId, frames[i].pid.pageId, frames[i].data);
          frames[i] := frames[i].(isDirty := false);
          assert frames[..] == fs[i := frames[i]];
        }
      }
      forall q
        ensures DiskPage(fm.files, q) == PageOf(q)
      {
        if q in pageTable { assert Synced(frames[..][pageTable[q]], fm.files); }
      }
    }
  }

  lemma SameThrough(fs: seq<Frame>, pt: PageTable, files: Files, gs: seq<Frame>, qt: PageTable, giles: Files,
        hs: seq<Frame>, rt: PageTable, hiles: Files)
    requires SameView(fs, pt, files, gs, qt, giles) && SameView(gs, qt, giles, hs, rt, hiles)
    requires PinnedStay(fs, pt, gs, qt) && PinnedStay(gs, qt, hs, rt)
    ensures SameView(fs, pt, files, hs, rt, hiles) && PinnedStay(fs, pt, hs, rt)
  {
    hide View;
    forall p
      ensures View(hs, rt, hiles, p) == View(fs, pt, files, p)
    {
      assert View(gs, qt, giles, p) == View(fs, pt, files, p);
    }
  }

  /** The pool after a fetch that failed half-way. */
  lemma LeftBehind(fs: seq<Frame>, pt: PageTable, files: Files, gap: seq<Frame>,
        fs': seq<Frame>, pt': PageTable, files': Files, v: nat)
    requires v < |fs'| && gap == fs'[v := fs'[v].(isValid := false)]
    requires Bijection(gap, pt') && AllSynced(gap, files')
    requires SameView(fs, pt, files, gap, pt', files') && PinnedStay(fs, pt, gap, pt')
    requires fs'[v].isValid ==> fs'[v].pid !in pt'
    ensures SameView(fs, pt, files, fs', pt', files') && PinnedStay(fs, pt, fs', pt')
    ensures Bijection(fs', pt') && AllSynced(fs', files') <==> !fs'[v].isValid
  {
    if !fs'[v].isValid { assert gap == fs'; }
    forall p
      ensures View(fs', pt', files', p) == View(gap, pt', files', p)
    {
    }
  }

  lemma Wrap(x: nat, n: nat)
    requires 0 < x <= n
    ensures x % n == if x < n then x else 0
  {
  }

  /** Why the frame left behind matters: when its page is loaded again into frame w, pinned
      and written there, and the hand comes to the old frame v, erasing "its" page from the
      table hides the pinned frame.  Its users' writes are gone from view. */
  lemma OrphanForgets(fs: seq<Frame>, pt: PageTable, files: Files, v: nat, w: nat)
    requires v < |fs| && w < |fs| && v != w && fs[v].isValid && fs[w].isValid && fs[v].pid == fs[w].pid
    requires fs[v].pid in pt && pt[fs[v].pid] == w && fs[w].pinCount > 0
    requires fs[w].data != DiskPage(files, fs[w].pid)
    ensures var pt' := pt - {fs[v].pid};
            !PinnedStay(fs, pt, fs, pt') && View(fs, pt', files, fs[w].pid) != View(fs, pt, files, fs[w].pid)
  {
  }
}
