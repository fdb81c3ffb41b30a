/** LoadedElf::LoadSegments, LoadedElf::MapFilePiece and MemoryMappable::Map of
    runtime/bin/elf_loader.cc as methods, proved against module ElfLoader. */
module LoadedElf {
  import opened Common
  import opened ElfLoader

  datatype Error = BadAlignment | CouldNotReserve | NotCongruent | UnsupportedFlags | CouldNotMap

  datatype Result<T> = Ok(value: T) | Err(error: Error)

  // ---- What the loader computes from the headers.

  /** The end of the highest segment among the first n headers, in machine words. */
  function HighestEnd(headers: seq<ProgramHeader>, n: nat): (end: nat)
    requires n <= |headers|
    ensures forall i :: 0 <= i < n && headers[i].isLoad ==> Add(headers[i].memoryOffset, headers[i].memorySize) <= end
  {
    if n == 0 then 0
    else
      var h, before := headers[n - 1], HighestEnd(headers, n - 1);
      if h.isLoad && Add(h.memoryOffset, h.memorySize) > before then Add(h.memoryOffset, h.memorySize) else before
  }

  /** It is tight: some loadable segment ends there, or there is none. */
  lemma {:induction false} HighestEndReached(headers: seq<ProgramHeader>, n: nat)
    requires n <= |headers|
    ensures HighestEnd(headers, n) == 0 ||
            exists i :: 0 <= i < n && headers[i].isLoad && Add(headers[i].memoryOffset, headers[i].memorySize) == HighestEnd(headers, n)
  {
    if n > 0 {
      HighestEndReached(headers, n - 1);
    }
  }

  /** When nothing wraps, the memory needed holds every segment. */
  lemma AllEndInside(headers: seq<ProgramHeader>, elfOffset: nat, page: nat, i: nat)
    requires 0 < page < WORD && NoOverflow(headers, elfOffset, page)
    ensures RoundUpWord(HighestEnd(headers, |headers|), page) == RoundUp(HighestEnd(headers, |headers|), page)
    ensures i < |headers| && headers[i].isLoad ==>
              headers[i].memoryOffset + headers[i].memorySize <= RoundUp(HighestEnd(headers, |headers|), page)
  {
    var end := HighestEnd(headers, |headers|);
    EndDoesNotWrap(headers, elfOffset, page);
    hide HighestEnd;
    NoWrap(end, page - 1);
    RoundUpIsLeast(end, page);
    if i < |headers| && headers[i].isLoad {
      NoWrap(headers[i].memoryOffset, headers[i].memorySize);
    }
    hide Add;
  }

  lemma RoundedUpIsPages(x: nat, page: nat)
    requires page > 0
    ensures RoundUp(x, page) / page * page == RoundUp(x, page)
  {
    RoundUpIsLeast(x, page);
    DivMod(RoundUp(x, page), page);
  }

  lemma EndDoesNotWrap(headers: seq<ProgramHeader>, elfOffset: nat, page: nat)
    requires 0 < page < WORD && NoOverflow(headers, elfOffset, page)
    ensures HighestEnd(headers, |headers|) + page - 1 < WORD
  {
    HighestEndReached(headers, |headers|);
    hide HighestEnd, Add;
    forall i | 0 <= i < |headers| && headers[i].isLoad
      ensures Add(headers[i].memoryOffset, headers[i].memorySize) + page < WORD
    {
      NoWrap(headers[i].memoryOffset, headers[i].memorySize);
    }
  }

  predicate AllAligned(headers: seq<ProgramHeader>, n: nat)
    requires n <= |headers|
  {
    forall i :: 0 <= i < n && headers[i].isLoad ==> IsPowerOfTwo(headers[i].alignment)
  }

  /** The first check a header fails, in the order the loader makes them. */
  function HeaderError(h: ProgramHeader, page: nat, elfOffset: nat, sourceSize: nat): (e: Option<Error>)
    requires page > 0
    ensures e.None? <==> Acceptable(h, page, elfOffset, sourceSize)
    ensures e == Some(NotCongruent) <==> h.memoryOffset % page != h.fileOffset % page
    ensures e == Some(UnsupportedFlags) ==> AccessOf(h.flags).None?
    ensures e == Some(CouldNotMap) ==> AccessOf(h.flags).Some? && elfOffset + h.fileOffset - h.fileOffset % page > sourceSize
  {
    if h.memoryOffset % page != h.fileOffset % page then Some(NotCongruent)
    else if AccessOf(h.flags).None? then Some(UnsupportedFlags)
    else if elfOffset + h.fileOffset - Adjustment(h, page) > sourceSize then Some(CouldNotMap)
    else None
  }

  /** The error of the first loadable header from n on that fails a check. */
  function FirstError(headers: seq<ProgramHeader>, n: nat, page: nat, elfOffset: nat, sourceSize: nat): (e: Option<Error>)
    requires n <= |headers| && page > 0
    decreases |headers| - n
  {
    if n == |headers| then None
    else if headers[n].isLoad && HeaderError(headers[n], page, elfOffset, sourceSize).Some? then
      HeaderError(headers[n], page, elfOffset, sourceSize)
    else FirstError(headers, n + 1, page, elfOffset, sourceSize)
  }

  /** It is the error of one loadable header, and all before that one pass every check; there
      is none exactly when all of them do. */
  lemma {:induction false} FirstErrorIsFirst(headers: seq<ProgramHeader>, n: nat, page: nat, elfOffset: nat, sourceSize: nat)
    returns (k: nat)
    requires n <= |headers| && page > 0
    ensures n <= k <= |headers|
    ensures forall i :: n <= i < k && headers[i].isLoad ==> Acceptable(headers[i], page, elfOffset, sourceSize)
    ensures match FirstError(headers, n, page, elfOffset, sourceSize)
            case None => k == |headers|
            case Some(e) => k < |headers| && headers[k].isLoad && HeaderError(headers[k], page, elfOffset, sourceSize) == Some(e)
    decreases |headers| - n
  {
    if n == |headers| || (headers[n].isLoad && HeaderError(headers[n], page, elfOffset, sourceSize).Some?) {
      return n;
    }
    k := FirstErrorIsFirst(headers, n + 1, page, elfOffset, sourceSize);
  }

  /** A fresh reservation: zeroed and writable. */
  ghost function Reserved(pages: nat, page: nat): (image: Image)
    ensures |image.memory| == pages * page && |image.access| == pages
  {
    Image(seq(pages * page, i => 0 as Byte), seq(pages, i => ReadWrite))
  }

  // ---- Memory.

  /** The memory backing an image, with the access rights of its pages. */
  class Reservation {
    const memory: array<Byte>
    var access: seq<Access>
    const page: nat

    ghost function View(): Image
      reads this, memory
    {
      Image(memory[..], access)
    }

    constructor (pages: nat, size: nat)
      requires size > 0
      ensures page == size && View() == Reserved(pages, size) && fresh(memory)
    {
      memory := new Byte[pages * size](i => 0 as Byte);
      access := seq(pages, i => ReadWrite);
      page := size;
    }

    /** Copies `length` bytes of the source to `start`, zeros where the source has ended. */
    method Copy(source: seq<Byte>, position: nat, length: nat, start: nat)
      requires start + length <= memory.Length && position <= |source| && position + length < WORD
      modifies memory
      ensures memory[..] == Blit(old(memory[..]), start, length, source, position)
    {
      NoWrap(position, length);
      var copied, remainder := length, 0;
      if Add(position, length) > |source| {
        remainder := Add(position, length) - |source|;
        copied := |source| - position;
      }
      forall a | start <= a < start + copied {
        memory[a] := source[position + (a - start)];
      }
      forall a | start + copied <= a < start + copied + remainder {
        memory[a] := 0;
      }
    }

    /** Copies part of the source into pages first to end, which must all still be writable,
        and then sets their access. */
    method Map(mode: Access, source: seq<Byte>, position: nat, length: nat, start: nat, first: nat, end: nat) returns (ok: bool)
      requires start + length <= memory.Length && first <= end <= |access| && position + length < WORD
      requires position <= |source| ==> forall p :: first <= p < end ==> access[p] == ReadWrite
      modifies this, memory
      ensures ok <==> position <= |source|
      ensures ok ==> memory[..] == Blit(old(memory[..]), start, length, source, position)
      ensures ok ==> access == Protect(old(access), first, end, mode)
      ensures !ok ==> View() == old(View())
    {
      if position > |source| {
        return false;
      }
      Copy(source, position, length, start);
      var was := access;
      access := seq(|was|, p requires 0 <= p < |was| => if first <= p < end then mode else was[p]);
      assert access == Protect(was, first, end, mode);
      ok := true;
    }
  }

  lemma NoWrap(a: nat, b: nat)
    requires a + b < WORD
    ensures Add(a, b) == a + b
  {
  }

  // ---- Loading.

  /** Before the segment of header n is written, its pages are still writable. */
  lemma StillWritable(headers: seq<ProgramHeader>, n: nat, page: nat, source: seq<Byte>, elfOffset: nat, pages: nat)
    requires page > 0 && n < |headers| && headers[n].isLoad && NoFault(headers, page, elfOffset, |source|)
    requires Fits(headers[..n], page, source, elfOffset, pages * page) && Acceptable(headers[n], page, elfOffset, |source|)
    requires headers[n].memoryOffset + headers[n].memorySize <= pages * page
    ensures EndPage(headers[n], page) <= pages
    ensures forall p :: FirstPage(headers[n], page) <= p < EndPage(headers[n], page) ==>
                          LoadFirst(Reserved(pages, page), headers, n, page, source, elfOffset).access[p] == ReadWrite
  {
    MappingGeometry(headers[n], page, pages * page);
    WholePages(pages, page);
    forall p | FirstPage(headers[n], page) <= p < EndPage(headers[n], page)
      ensures LoadFirst(Reserved(pages, page), headers, n, page, source, elfOffset).access[p] == ReadWrite
    {
      WritableSoFar(headers, n, page, source, elfOffset, pages * page, p);
      WritablePages(Reserved(pages, page), headers, n, page, source, elfOffset, p);
    }
  }

  lemma WritableSoFar(headers: seq<ProgramHeader>, n: nat, page: nat, source: seq<Byte>, elfOffset: nat, size: nat, p: nat)
    requires page > 0 && n < |headers| && headers[n].isLoad && NoFault(headers, page, elfOffset, |source|)
    requires Fits(headers[..n], page, source, elfOffset, size) && Acceptable(headers[n], page, elfOffset, |source|)
    requires FirstPage(headers[n], page) <= p < EndPage(headers[n], page)
    ensures forall i :: 0 <= i < n && headers[i].isLoad && FirstPage(headers[i], page) <= p < EndPage(headers[i], page) ==>
                          AccessOf(headers[i].flags) == Some(ReadWrite)
  {
    hide FirstPage, EndPage;
    forall k | 0 <= k <= n && headers[k].isLoad ensures Acceptable(headers[k], page, elfOffset, |source|) {
      assert k < n ==> headers[..n][k] == headers[k];
    }
    forall i | 0 <= i < n && headers[i].isLoad && FirstPage(headers[i], page) <= p < EndPage(headers[i], page)
      ensures AccessOf(headers[i].flags) == Some(ReadWrite)
    {
      assert SharePage(headers[i], headers[n], page);
    }
  }

  lemma FitsLonger(headers: seq<ProgramHeader>, n: nat, page: nat, source: seq<Byte>, elfOffset: nat, size: nat)
    requires page > 0 && n < |headers| && Fits(headers[..n], page, source, elfOffset, size)
    requires headers[n].isLoad ==>
               headers[n].memoryOffset + headers[n].memorySize <= size && Acceptable(headers[n], page, elfOffset, |source|)
    ensures Fits(headers[..n + 1], page, source, elfOffset, size)
  {
    assert forall i :: 0 <= i < n ==> headers[..n + 1][i] == headers[..n][i];
  }

  /** When its turn comes, the pages of segment j are writable. */
  ghost predicate Writable(headers: seq<ProgramHeader>, j: nat, page: nat, source: seq<Byte>, elfOffset: nat, pages: nat)
    requires page > 0 && j < |headers| && Fits(headers[..j], page, source, elfOffset, pages * page)
  {
    forall p :: FirstPage(headers[j], page) <= p < EndPage(headers[j], page) && p < pages ==>
                  LoadFirst(Reserved(pages, page), headers, j, page, source, elfOffset).access[p] == ReadWrite
  }

  /** So it is for every segment that gets to be written. */
  ghost predicate AllWritable(headers: seq<ProgramHeader>, page: nat, source: seq<Byte>, elfOffset: nat, pages: nat)
    requires page > 0
  {
    forall j :: 0 <= j < |headers| && headers[j].isLoad && Fits(headers[..j + 1], page, source, elfOffset, pages * page) ==>
                  && Fits(headers[..j], page, source, elfOffset, pages * page)
                  && Writable(headers, j, page, source, elfOffset, pages)
  }

  /** A page that was made unwritable stays so as long as every segment finds its pages writable. */
  lemma {:induction false} StaysUnwritable(headers: seq<ProgramHeader>, i: nat, n: nat, page: nat, source: seq<Byte>, elfOffset: nat, pages: nat, p: nat)
    requires page > 0 && i < n <= |headers| && headers[i].isLoad && p < pages
    requires FirstPage(headers[i], page) <= p < EndPage(headers[i], page) && AccessOf(headers[i].flags) != Some(ReadWrite)
    requires Fits(headers[..n], page, source, elfOffset, pages * page) && AllWritable(headers, page, source, elfOffset, pages)
    ensures LoadFirst(Reserved(pages, page), headers, n, page, source, elfOffset).access[p] != ReadWrite
    decreases n
  {
    FitsShorter(headers, n, page, source, elfOffset, pages * page);
    if i < n - 1 {
      StaysUnwritable(headers, i, n - 1, page, source, elfOffset, pages, p);
      if headers[n - 1].isLoad {
        assert Writable(headers, n - 1, page, source, elfOffset, pages);
      }
    }
  }

  /** The condition under which no write faults is exact. */
  lemma NoFaultIff(headers: seq<ProgramHeader>, page: nat, source: seq<Byte>, elfOffset: nat, pages: nat)
    requires page > 0
    requires forall i :: 0 <= i < |headers| && headers[i].isLoad ==> headers[i].memoryOffset + headers[i].memorySize <= pages * page
    ensures NoFault(headers, page, elfOffset, |source|) <==> AllWritable(headers, page, source, elfOffset, pages)
  {
    hide LoadFirst, FirstPage, EndPage, Acceptable;
    if NoFault(headers, page, elfOffset, |source|) {
      forall j | 0 <= j < |headers| && headers[j].isLoad && Fits(headers[..j + 1], page, source, elfOffset, pages * page)
        ensures Fits(headers[..j], page, source, elfOffset, pages * page) && Writable(headers, j, page, source, elfOffset, pages)
      {
        FitsShorter(headers, j + 1, page, source, elfOffset, pages * page);
        StillWritable(headers, j, page, source, elfOffset, pages);
      }
    }
    if AllWritable(headers, page, source, elfOffset, pages) {
      forall i, j | 0 <= i < j < |headers| && headers[i].isLoad && headers[j].isLoad && SharePage(headers[i], headers[j], page)
                    && (forall k :: 0 <= k <= j && headers[k].isLoad ==> Acceptable(headers[k], page, elfOffset, |source|))
        ensures AccessOf(headers[i].flags) == Some(ReadWrite)
      {
        SharedPageIsWritable(headers, i, j, page, source, elfOffset, pages);
      }
    }
  }

  lemma FitsSoFar(headers: seq<ProgramHeader>, j: nat, page: nat, source: seq<Byte>, elfOffset: nat, size: nat)
    requires page > 0 && j < |headers|
    requires forall k :: 0 <= k < |headers| && headers[k].isLoad ==> headers[k].memoryOffset + headers[k].memorySize <= size
    requires forall k :: 0 <= k <= j && headers[k].isLoad ==> Acceptable(headers[k], page, elfOffset, |source|)
    ensures Fits(headers[..j + 1], page, source, elfOffset, size)
  {
    hide Acceptable;
  }

  lemma PagesWritable(headers: seq<ProgramHeader>, j: nat, page: nat, source: seq<Byte>, elfOffset: nat, pages: nat)
    requires page > 0 && j < |headers| && headers[j].isLoad && AllWritable(headers, page, source, elfOffset, pages)
    requires Fits(headers[..j + 1], page, source, elfOffset, pages * page)
    ensures Fits(headers[..j], page, source, elfOffset, pages * page)
    ensures forall p :: FirstPage(headers[j], page) <= p < EndPage(headers[j], page) && p < pages ==>
                          LoadFirst(Reserved(pages, page), headers, j, page, source, elfOffset).access[p] == ReadWrite
  {
    hide LoadFirst, FirstPage, EndPage, Fits;
    assert Writable(headers, j, page, source, elfOffset, pages);
  }

  lemma SharedPage(h: ProgramHeader, other: ProgramHeader, page: nat)
    requires page > 0 && SharePage(h, other, page)
    ensures var p := LaterFirst(h, other, page);
            FirstPage(h, page) <= p < EndPage(h, page) && FirstPage(other, page) <= p < EndPage(other, page)
  {
    hide FirstPage, EndPage;
  }

  lemma SharedPageIsWritable(headers: seq<ProgramHeader>, i: nat, j: nat, page: nat, source: seq<Byte>, elfOffset: nat, pages: nat)
    requires page > 0 && i < j < |headers| && headers[i].isLoad && headers[j].isLoad && SharePage(headers[i], headers[j], page)
    requires forall k :: 0 <= k < |headers| && headers[k].isLoad ==> headers[k].memoryOffset + headers[k].memorySize <= pages * page
    requires forall k :: 0 <= k <= j && headers[k].isLoad ==> Acceptable(headers[k], page, elfOffset, |source|)
    requires AllWritable(headers, page, source, elfOffset, pages)
    ensures AccessOf(headers[i].flags) == Some(ReadWrite)
  {
    SegmentFits(headers[j], page, pages, pages * page);
    SharedPage(headers[i], headers[j], page);
    FitsSoFar(headers, j, page, source, elfOffset, pages * page);
    hide *;
    PagesWritable(headers, j, page, source, elfOffset, pages);
    var p := LaterFirst(headers[i], headers[j], page);
    FitsShorter(headers, j + 1, page, source, elfOffset, pages * page);
    if AccessOf(headers[i].flags) != Some(ReadWrite) {
      StaysUnwritable(headers, i, j, page, source, elfOffset, pages, p);
      assert false;
    }
  }

  /** One byte at the start of memory. */
  function FirstByte(flags: nat): ProgramHeader {
    ProgramHeader(true, flags, 0, 0, 1, 1, 1)
  }

  /** Two segments on one page, of which only the second may be written. */
  lemma SharedPageFaults(page: nat, source: seq<Byte>)
    requires page > 0
    ensures var headers := [FirstByte(PF_R), FirstByte(PF_R + PF_W)];
            && FirstError(headers, 0, page, 0, |source|).None?
            && !AllWritable(headers, page, source, 0, 1) && !NoFault(headers, page, 0, |source|)
  {
    var headers := [FirstByte(PF_R), FirstByte(PF_R + PF_W)];
    DivModUnique(0, page, 0, 0);
    DivModUnique(page, page, 1, 0);
    assert forall k :: 0 <= k < 2 ==> Acceptable(headers[k], page, 0, |source|);
    assert SharePage(headers[0], headers[1], page);
    assert !NoFault(headers, page, 0, |source|);
    assert FirstError(headers, 2, page, 0, |source|).None?;
    hide AllWritable, NoFault;
    NoFaultIff(headers, page, source, 0, 1);
  }

  /** The total amount of memory needed, or None when an alignment is no power of two. */
  method TotalMemory(headers: seq<ProgramHeader>, page: nat) returns (total: Option<nat>)
    requires page > 0
    ensures total.Some? <==> AllAligned(headers, |headers|)
    ensures total.Some? ==> total.value == RoundUpWord(HighestEnd(headers, |headers|), page)
  {
    var highest := 0;
    for i := 0 to |headers|
      invariant highest == HighestEnd(headers, i) && AllAligned(headers, i)
    {
      var h := headers[i];
      if !h.isLoad { continue; }
      var end := Add(h.memoryOffset, h.memorySize);
      highest := if end > highest then end else highest;
      if !IsPowerOfTwo(h.alignment) {
        return None;
      }
    }
    return Some(RoundUpWord(highest, page));
  }

  /** Loads one segment into a reservation that holds those before it. */
  method LoadSegment(base: Reservation, headers: seq<ProgramHeader>, i: nat, source: seq<Byte>, elfOffset: nat, page: nat, ghost pages: nat)
    returns (e: Option<Error>)
    requires page > 0 && page == base.page && i < |headers| && headers[i].isLoad
    requires NoFault(headers, page, elfOffset, |source|) && NoOverflow(headers, elfOffset, page)
    requires headers[i].memoryOffset + headers[i].memorySize <= pages * page
    requires Fits(headers[..i], page, source, elfOffset, pages * page)
    requires base.View() == LoadFirst(Reserved(pages, page), headers, i, page, source, elfOffset)
    modifies base, base.memory
    ensures e == HeaderError(headers[i], page, elfOffset, |source|)
    ensures e.None? ==> Fits(headers[..i + 1], page, source, elfOffset, pages * page)
    ensures e.None? ==> base.View() == LoadFirst(Reserved(pages, page), headers, i + 1, page, source, elfOffset)
  {
    var h := headers[i];
    SegmentFacts(headers, i, elfOffset, page, pages);
    hide RoundUp, NoOverflow, NoFault, Fits, IsPowerOfTwo, Add;
    if h.memoryOffset % page != h.fileOffset % page {
      return Some(NotCongruent);
    }
    var adjustment := Adjustment(h, page);
    var memoryStart := h.memoryOffset - adjustment;
    var fileStart := Add(elfOffset, h.fileOffset) - adjustment;
    var length := Add(h.memorySize, adjustment);
    if AccessOf(h.flags).None? {
      return Some(UnsupportedFlags);
    }
    if fileStart <= |source| {
      StillWritable(headers, i, page, source, elfOffset, pages);
    }
    ghost var before := base.View();
    var ok := base.Map(AccessOf(h.flags).value, source, fileStart, length, memoryStart, FirstPage(h, page), EndPage(h, page));
    if !ok {
      return Some(CouldNotMap);
    }
    FitsLonger(headers, i, page, source, elfOffset, pages * page);
    return None;
  }

  /** The arithmetic behind loading one segment: nothing wraps, and the mapping lies on
      whole pages of the reservation. */
  lemma SegmentFacts(headers: seq<ProgramHeader>, i: nat, elfOffset: nat, page: nat, pages: nat)
    requires page > 0 && i < |headers| && headers[i].isLoad
    requires NoOverflow(headers, elfOffset, page) && headers[i].memoryOffset + headers[i].memorySize <= pages * page
    ensures var h, adjustment := headers[i], Adjustment(headers[i], page);
            && adjustment <= h.memoryOffset && adjustment < page
            && Add(elfOffset, h.fileOffset) == elfOffset + h.fileOffset && Add(h.memorySize, adjustment) == h.memorySize + adjustment
            && (h.memoryOffset % page == h.fileOffset % page ==> adjustment <= h.fileOffset)
            && elfOffset + h.fileOffset + h.memorySize < WORD
            && h.memoryOffset - adjustment + (h.memorySize + adjustment) <= pages * page
            && FirstPage(h, page) <= EndPage(h, page) <= pages
  {
    var h := headers[i];
    DivMod(h.memoryOffset, page);
    DivMod(h.fileOffset, page);
    NoWrap(elfOffset, h.fileOffset);
    NoWrap(h.memorySize, Adjustment(h, page));
    MappingGeometry(h, page, pages * page);
    WholePages(pages, page);
    ModAtMost(h.memoryOffset, page);
    ModAtMost(h.fileOffset, page);
  }

  /** The image is what loading all segments, one after the other, makes of a reservation. */
  ghost predicate IsLoaded(image: Image, headers: seq<ProgramHeader>, page: nat, source: seq<Byte>, elfOffset: nat)
    requires page > 0
  {
    var pages := |image.access|;
    && Fits(headers[..|headers|], page, source, elfOffset, pages * page)
    && image == LoadFirst(Reserved(pages, page), headers, |headers|, page, source, elfOffset)
  }

  /** Loads every segment. Succeeds exactly when every alignment is a power of two, memory
      can be reserved and every header passes its checks; then the memory is that of loading
      the segments one after the other, and every segment is in place with whose pages no
      later one interferes. Otherwise the error is that of the first check that failed. */
  method LoadSegments(headers: seq<ProgramHeader>, source: seq<Byte>, elfOffset: nat, page: nat, canReserve: bool)
    returns (r: Result<Reservation>)
    requires 0 < page < WORD && NoOverflow(headers, elfOffset, page) && NoFault(headers, page, elfOffset, |source|)
    ensures !AllAligned(headers, |headers|) ==> r == Err(BadAlignment)
    ensures AllAligned(headers, |headers|) && !canReserve ==> r == Err(CouldNotReserve)
    ensures AllAligned(headers, |headers|) && canReserve ==>
              match FirstError(headers, 0, page, elfOffset, |source|) case Some(e) => r == Err(e) case None => r.Ok?
    ensures r.Ok? ==>
              && r.value.memory.Length == RoundUp(HighestEnd(headers, |headers|), page)
              && IsLoaded(r.value.View(), headers, page, source, elfOffset)
              && forall i :: 0 <= i < |headers| && headers[i].isLoad && KeepsPages(headers, i, |headers|, page) ==>
                               InPlace(r.value.View(), headers[i], page, source, elfOffset)
  {
    hide Add, RoundUp, RoundUpWord, NoOverflow, NoFault, IsPowerOfTwo, HighestEnd, InPlace, KeepsPages, HeaderError;
    var total := TotalMemory(headers, page);
    if total.None? {
      return Err(BadAlignment);
    }
    if !canReserve {
      return Err(CouldNotReserve);
    }
    AllEndInside(headers, elfOffset, page, 0);
    RoundedUpIsPages(HighestEnd(headers, |headers|), page);
    var pages := total.value / page;
    var base := new Reservation(pages, page);
    for i := 0 to |headers|
      invariant page == base.page && fresh(base) && fresh(base.memory) && pages * page == total.value
      invariant Fits(headers[..i], page, source, elfOffset, pages * page)
      invariant base.View() == LoadFirst(Reserved(pages, page), headers, i, page, source, elfOffset)
      invariant FirstError(headers, 0, page, elfOffset, |source|) == FirstError(headers, i, page, elfOffset, |source|)
    {
      if !headers[i].isLoad {
        FitsLonger(headers, i, page, source, elfOffset, pages * page);
        continue;
      }
      AllEndInside(headers, elfOffset, page, i);
      var e := LoadSegment(base, headers, i, source, elfOffset, page, pages);
      if e.Some? {
        return Err(e.value);
      }
    }
    assert headers[..|headers|] == headers;
    forall i | 0 <= i < |headers| && headers[i].isLoad && KeepsPages(headers, i, |headers|, page)
      ensures InPlace(base.View(), headers[i], page, source, elfOffset)
    {
      SegmentsInPlace(Reserved(pages, page), headers, |headers|, page, source, elfOffset, i);
    }
    return Ok(base);
  }

  // ---- Uninitialised data.

  /** The gABI asks for zeros between a segment's file size and its memory size. The loader
      copies by memory size, so that holds exactly when the source has zeros there. */
  lemma UninitialisedDataIsZeroIff(image: Image, h: ProgramHeader, page: nat, source: seq<Byte>, elfOffset: nat)
    requires page > 0 && InPlace(image, h, page, source, elfOffset) && h.fileSize <= h.memorySize
    ensures (forall k :: h.memoryOffset + h.fileSize <= k < h.memoryOffset + h.memorySize ==> image.memory[k] == 0) <==>
            (forall q :: elfOffset + h.fileOffset + h.fileSize <= q < elfOffset + h.fileOffset + h.memorySize && q < |source| ==>
               source[q] == 0)
  {
    if forall k :: h.memoryOffset + h.fileSize <= k < h.memoryOffset + h.memorySize ==> image.memory[k] == 0 {
      forall q | elfOffset + h.fileOffset + h.fileSize <= q < elfOffset + h.fileOffset + h.memorySize && q < |source|
        ensures source[q] == 0
      {
        assert image.memory[q - elfOffset - h.fileOffset + h.memoryOffset] == 0;
      }
    }
  }

  /** A segment of one byte, none of it in the file. */
  function AllUninitialised(): ProgramHeader {
    ProgramHeader(true, PF_R, 0, 0, 0, 1, 1)
  }

  /** And so that byte may be anything but zero. */
  lemma UninitialisedDataMayNotBeZero(page: nat, garbage: Byte)
    requires page > 0 && garbage != 0
    ensures var h := AllUninitialised();
            && Acceptable(h, page, 0, 1) && h.fileSize == 0 && page >= h.memoryOffset + h.memorySize
            && LoadOne(Reserved(1, page), h, page, [garbage], 0).memory[h.memoryOffset] == garbage
  {
    var h := AllUninitialised();
    DivModUnique(0, page, 0, 0);
    assert 1 * page == page;
    hide IsPowerOfTwo;
    LoadOneInPlace(Reserved(1, page), h, page, [garbage], 0);
  }

  // ---- Pieces of the file.

  /** Maps a piece of the file that need not be aligned. On success `bytes[offset..]` starts
      with the piece asked for; it fails exactly when the page the piece starts in lies
      past the end of the source, or no memory is to be had. */
  method MapFilePiece(source: seq<Byte>, elfOffset: nat, fileStart: nat, fileLength: nat, page: nat, canAllocate: bool)
    returns (r: Option<(Reservation, nat)>)
    requires page > 0 && elfOffset % page == 0 && elfOffset + fileStart + fileLength + page < WORD
    ensures r.Some? <==> (elfOffset + fileStart) / page * page <= |source| && canAllocate
    ensures r.Some? ==> Holds(r.value.0.memory[..], r.value.1, source, elfOffset + fileStart, fileLength)
  {
    PieceGeometry(elfOffset, fileStart, fileLength, page);
    NoWrap(elfOffset, fileStart);
    NoWrap(elfOffset + fileStart, fileLength);
    var position := Add(elfOffset, fileStart);
    var mappingOffset := position - position % page;
    var mappingLength := RoundUp(Add(position, fileLength), page) - mappingOffset;
    if mappingOffset > |source| || !canAllocate {
      return None;
    }
    var mapping := MapPages(source, mappingOffset, mappingLength, mappingLength / page, page);
    HoldsPart(mapping.memory[..], source, mappingOffset, mappingLength, fileStart % page, fileLength);
    return Some((mapping, fileStart % page));
  }

  /** Maps whole pages of the source into a reservation of their own. */
  method MapPages(source: seq<Byte>, position: nat, length: nat, pages: nat, page: nat) returns (mapping: Reservation)
    requires page > 0 && position <= |source| && position + length < WORD && pages * page == length
    ensures Holds(mapping.memory[..], 0, source, position, length)
  {
    mapping := new Reservation(pages, page);
    var _ := mapping.Map(ReadOnly, source, position, length, 0, 0, pages);
  }

  lemma HoldsPart(memory: seq<Byte>, source: seq<Byte>, position: nat, length: nat, offset: nat, part: nat)
    requires Holds(memory, 0, source, position, length) && offset + part <= length
    ensures Holds(memory, offset, source, position + offset, part)
  {
  }

  /** `memory[offset..]` starts with `length` bytes of the source from `position` on. */
  ghost predicate Holds(memory: seq<Byte>, offset: nat, source: seq<Byte>, position: nat, length: nat) {
    && offset + length <= |memory|
    && forall a :: offset <= a < offset + length ==> memory[a] == SourceByte(source, position + (a - offset))
  }

  lemma PieceGeometry(elfOffset: nat, fileStart: nat, fileLength: nat, page: nat)
    requires page > 0 && elfOffset % page == 0
    ensures var position := elfOffset + fileStart;
            var mappingOffset := position - position % page;
            var mappingEnd := RoundUp(position + fileLength, page);
            && position % page == fileStart % page && position % page <= position
            && mappingOffset == position / page * page <= mappingEnd
            && (mappingEnd - mappingOffset) / page * page == mappingEnd - mappingOffset
            && fileStart % page + fileLength <= mappingEnd - mappingOffset
            && mappingEnd < position + fileLength + page
  {
    var position := elfOffset + fileStart;
    var mappingEnd := RoundUp(position + fileLength, page);
    SameOffsetInPage(elfOffset, fileStart, page);
    ModAtMost(position, page);
    DivMod(position, page);
    RoundUpIsLeast(position + fileLength, page);
    DivMod(mappingEnd, page);
    var q := mappingEnd / page - position / page;
    Multiples(q, page);
    assert q * page == mappingEnd / page * page - position / page * page;
    DivModUnique(q * page, page, q, 0);
  }

  lemma SameOffsetInPage(elfOffset: nat, fileStart: nat, page: nat)
    requires page > 0 && elfOffset % page == 0
    ensures (elfOffset + fileStart) % page == fileStart % page
  {
    DivMod(elfOffset, page);
    DivMod(fileStart, page);
    var q := elfOffset / page + fileStart / page;
    assert q * page == elfOffset / page * page + fileStart / page * page;
    DivModUnique(elfOffset + fileStart, page, q, fileStart % page);
  }
}
