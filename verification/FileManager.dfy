/** Files as sequences of pages. */
module FileManager {
  import opened Common

  const PAGE_SIZE: nat := 8192

  type Byte = x: int | 0 <= x < 256

  function ZeroBytes(n: nat): (s: seq<Byte>)
    ensures |s| == n && forall i :: 0 <= i < n ==> s[i] == 0
  {
    seq(n, i requires 0 <= i < n => 0)
  }

  type Page = p: seq<Byte> | |p| == PAGE_SIZE witness ZeroBytes(PAGE_SIZE)

  const ZERO_PAGE: Page := ZeroBytes(PAGE_SIZE)

  datatype PageId = PageId(fileId: int, pageId: int)

  /** failed: a seek before the start of the file has put the stream into its fail state,
      in which nothing is read or written any more. */
  datatype FileEntry = FileEntry(pages: seq<Page>, freeList: seq<int>, failed: bool)

  type Files = map<int, FileEntry>

  function PageCount(e: FileEntry): nat {
    if e.failed then 0 else |e.pages|
  }

  /** Pages out of bounds read as zeros. */
  function ReadOf(e: FileEntry, pageId: int): Page {
    if 0 <= pageId < PageCount(e) then e.pages[pageId] else ZERO_PAGE
  }

  function Zeros(n: nat): seq<Page> { seq(n, i requires 0 <= i < n => ZERO_PAGE) }

  /** Writing past the end makes the file longer; the gap reads as zeros. */
  function WriteTo(e: FileEntry, pageId: int, p: Page): FileEntry {
    if e.failed then e
    else if pageId < 0 then e.(failed := true)
    else if pageId < |e.pages| then e.(pages := e.pages[pageId := p])
    else e.(pages := e.pages + Zeros(pageId - |e.pages|) + [p])
  }

  /** What the disk holds for a page; closed files read as zeros. */
  function DiskPage(files: Files, p: PageId): Page {
    if p.fileId in files then ReadOf(files[p.fileId], p.pageId) else ZERO_PAGE
  }

  predicate Writable(files: Files, p: PageId) {
    p.fileId in files && !files[p.fileId].failed && p.pageId >= 0
  }

  /** Writing one page, even far past the end, changes what that page reads as, and no
      other page; and every page that could be written still can. */
  lemma WriteOne(files: Files, p: PageId, data: Page, q: PageId)
    requires Writable(files, p)
    ensures var files' := files[p.fileId := WriteTo(files[p.fileId], p.pageId, data)];
            DiskPage(files', q) == (if q == p then data else DiskPage(files, q))
            && Writable(files', q) == Writable(files, q)
  {
  }

  /** Writing a page with a negative number loses the whole file instead. */
  lemma NegativeWrite(e: FileEntry, pageId: int, data: Page, q: int)
    requires pageId < 0
    ensures ReadOf(WriteTo(e, pageId, data), q) == ZERO_PAGE
  {
  }

  /** A page just allocated at the end reads as it did before: zeros. */
  lemma AllocateKeeps(files: Files, fileId: int, q: PageId)
    requires fileId in files
    ensures var e := files[fileId];
            DiskPage(files[fileId := WriteTo(e, PageCount(e), ZERO_PAGE)], q) == DiskPage(files, q)
  {
  }

  class FileManager {
    var files: Files
    var nextFileId: int

    constructor ()
      ensures files == map[] && nextFileId == 1
    {
      files, nextFileId := map[], 1;
    }

    /** found: the pages of the existing file, none if it is created now; None if it can be
        neither opened nor created.  Then the source throws, and the id is used up. */
    method OpenFile(found: Option<seq<Page>>) returns (ok: bool, fileId: int)
      modifies this
      ensures fileId == old(nextFileId) && nextFileId == fileId + 1 && ok == found.Some?
      ensures files == if ok && fileId !in old(files) then old(files)[fileId := FileEntry(found.value, [], false)]
                       else old(files)
    {
      fileId := nextFileId;
      nextFileId := nextFileId + 1;
      if found.None? { return false, fileId; }
      if fileId !in files { files := files[fileId := FileEntry(found.value, [], false)]; }
      return true, fileId;
    }

    /** The methods below return ok == false where the source throws "Invalid fileId". */
    method CloseFile(fileId: int) returns (ok: bool)
      modifies this`files
      ensures ok == (fileId in old(files)) && files == old(files) - {fileId}
    {
      ok := fileId in files;
      files := files - {fileId};
    }

    method ReadPage(fileId: int, pageId: int) returns (ok: bool, buffer: Page)
      ensures ok == (fileId in files)
      ensures ok ==> buffer == DiskPage(files, PageId(fileId, pageId))
    {
      if fileId !in files { return false, ZERO_PAGE; }
      if pageId < 0 || pageId >= PageCount(files[fileId]) { return true, ZERO_PAGE; }
      return true, files[fileId].pages[pageId];
    }

    method WritePage(fileId: int, pageId: int, buffer: Page) returns (ok: bool)
      modifies this`files
      ensures ok == (fileId in old(files))
      ensures files == if ok then old(files)[fileId := WriteTo(old(files)[fileId], pageId, buffer)] else old(files)
    {
      if fileId !in files { return false; }
      files := files[fileId := WriteTo(files[fileId], pageId, buffer)];
      return true;
    }

    /** Nothing that can be read changes.  A page from the free list keeps its old bytes; a
        new one reads as zeros. */
    method AllocatePage(fileId: int) returns (ok: bool, pageId: int)
      modifies this`files
      ensures ok == (fileId in old(files)) && (!ok ==> files == old(files))
      ensures ok ==> fileId in files && files == old(files)[fileId := files[fileId]]
      ensures ok ==> files[fileId].failed == old(files)[fileId].failed
      ensures ok && old(files)[fileId].freeList != [] ==>
                var fl := old(files)[fileId].freeList;
                pageId == fl[|fl| - 1] && files[fileId].freeList == fl[..|fl| - 1]
      ensures ok && old(files)[fileId].freeList == [] ==>
                files[fileId].freeList == [] && pageId == PageCount(old(files)[fileId])
                && DiskPage(files, PageId(fileId, pageId)) == ZERO_PAGE
                && (!old(files)[fileId].failed ==> PageCount(files[fileId]) == pageId + 1)
      ensures forall q :: DiskPage(files, q) == DiskPage(old(files), q)
    {
      if fileId !in files { return false, 0; }
      var fl := files[fileId].freeList;
      if fl != [] {
        pageId := fl[|fl| - 1];
        files := files[fileId := files[fileId].(freeList := fl[..|fl| - 1])];
        return true, pageId;
      }
      pageId := PageCount(files[fileId]);
      forall q { AllocateKeeps(files, fileId, q); }
      ok := WritePage(fileId, pageId, ZERO_PAGE);
    }

    method DeallocatePage(fileId: int, pageId: int) returns (ok: bool)
      modifies this`files
      ensures ok == (fileId in old(files) && pageId >= 0)
      ensures ok ==> var e := old(files)[fileId];
                     files == old(files)[fileId := e.(freeList := e.freeList + [pageId])]
      ensures !ok ==> files == old(files)
    {
      if fileId !in files || pageId < 0 { return false; }
      files := files[fileId := files[fileId].(freeList := files[fileId].freeList + [pageId])];
      return true;
    }
  }
}
