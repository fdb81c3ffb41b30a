/** The segment loader of runtime/bin/elf_loader.cc, reading from memory: the arithmetic
    of page alignment and the loop that writes the loadable segments into one
    reservation. The congruence of a segment's file and memory offsets is the rule for
    p_offset and p_vaddr in chapter 5 (Program Header) of the System V gABI. */
module ElfLoader {
  import opened Common

  /** Machine words of the 64-bit targets wrap around. */
  const WORD: nat := 0x1_0000_0000_0000_0000

  function Add(a: nat, b: nat): nat {
    (a + b) % WORD
  }

  datatype Access = ReadOnly | ReadWrite | ReadExecute

  const PF_X := 1
  const PF_W := 2
  const PF_R := 4

  datatype ProgramHeader = ProgramHeader(
    isLoad: bool,
    flags: nat,
    fileOffset: nat,
    memoryOffset: nat,
    fileSize: nat,
    memorySize: nat,
    alignment: nat)

  predicate IsPowerOfTwo(x: nat) {
    x == 1 || (x > 1 && x % 2 == 0 && IsPowerOfTwo(x / 2))
  }

  /** The access a segment's flags ask for, if the loader supports them. */
  function AccessOf(flags: nat): Option<Access> {
    if flags == PF_R + PF_W then Some(ReadWrite)
    else if flags == PF_R + PF_X then Some(ReadExecute)
    else if flags == PF_R then Some(ReadOnly)
    else None
  }

  // ---- Page arithmetic.

  function RoundUp(x: nat, page: nat): nat
    requires page > 0
  {
    (x + page - 1) / page * page
  }

  function RoundDown(x: nat, page: nat): nat
    requires page > 0
  {
    x / page * page
  }

  /** Rounding up as machine words do it. */
  function RoundUpWord(x: nat, page: nat): nat
    requires page > 0
  {
    RoundDown(Add(x, page - 1), page)
  }

  /** A multiple of the page size is less than a page only if it is not positive. */
  lemma Multiples(d: int, page: nat)
    ensures d >= 1 ==> d * page >= page
    ensures d <= -1 ==> d * page <= 0 - page
  {
  }

  /** Division is determined by its defining equation. */
  lemma DivModUnique(x: nat, page: nat, q: nat, r: nat)
    requires page > 0 && x == q * page + r && r < page
    ensures x / page == q && x % page == r
  {
    var d := x / page - q;
    Multiples(d, page);
    assert d * page == x / page * page - q * page;
    DivMod(x, page);
  }

  lemma DivMod(x: nat, page: nat)
    requires page > 0
    ensures x == x / page * page + x % page && x % page < page
  {
  }

  lemma ModAtMost(x: nat, page: nat)
    requires page > 0
    ensures x % page <= x
  {
    DivMod(x, page);
    assert x / page * page >= 0;
  }

  /** Rounding up gives the least multiple of the page size that is not less. */
  lemma RoundUpIsLeast(x: nat, page: nat)
    requires page > 0
    ensures x <= RoundUp(x, page) < x + page && RoundUp(x, page) % page == 0
    ensures RoundUp(x, page) / page == (x + page - 1) / page
  {
    var q := (x + page - 1) / page;
    DivMod(x + page - 1, page);
    DivModUnique(RoundUp(x, page), page, q, 0);
  }

  lemma RoundUpMonotone(x: nat, y: nat, page: nat)
    requires page > 0 && x <= y
    ensures RoundUp(x, page) <= RoundUp(y, page)
  {
    var a, b := (x + page - 1) / page, (y + page - 1) / page;
    DivMod(x + page - 1, page);
    DivMod(y + page - 1, page);
    Multiples(a - b, page);
    assert (a - b) * page == a * page - b * page;
    PagesTimes(a, b, page);
  }

  /** Whole pages come out of rounding. */
  lemma RoundUpShift(n: nat, y: nat, page: nat)
    requires page > 0
    ensures RoundUp(n * page + y, page) == n * page + RoundUp(y, page)
  {
    var q, r := (y + page - 1) / page, (y + page - 1) % page;
    DivMod(y + page - 1, page);
    assert (n + q) * page == n * page + q * page;
    DivModUnique(n * page + y + page - 1, page, n + q, r);
  }

  // ---- Where a segment goes.

  /** The first page of a segment, and the page after its last. */
  function FirstPage(h: ProgramHeader, page: nat): nat
    requires page > 0
  {
    h.memoryOffset / page
  }

  function EndPage(h: ProgramHeader, page: nat): nat
    requires page > 0
  {
    RoundUp(h.memoryOffset + h.memorySize, page) / page
  }

  function Adjustment(h: ProgramHeader, page: nat): nat
    requires page > 0
  {
    h.memoryOffset % page
  }

  function LaterFirst(h: ProgramHeader, other: ProgramHeader, page: nat): nat
    requires page > 0
  {
    if FirstPage(h, page) < FirstPage(other, page) then FirstPage(other, page) else FirstPage(h, page)
  }

  /** Two segments have a page in common. */
  predicate SharePage(h: ProgramHeader, other: ProgramHeader, page: nat)
    requires page > 0
  {
    var p := LaterFirst(h, other, page); p < EndPage(h, page) && p < EndPage(other, page)
  }

  /** Segment i keeps its pages: no later one among the first n has a page in common with it. */
  ghost predicate KeepsPages(headers: seq<ProgramHeader>, i: nat, n: nat, page: nat)
    requires page > 0 && i < |headers| && n <= |headers|
  {
    forall j :: i < j < n && headers[j].isLoad ==> !SharePage(headers[i], headers[j], page)
  }

  /** No address computed for a segment wraps around. */
  ghost predicate NoOverflow(headers: seq<ProgramHeader>, elfOffset: nat, page: nat) {
    forall i :: 0 <= i < |headers| && headers[i].isLoad ==>
                  && headers[i].memoryOffset + headers[i].memorySize + page < WORD
                  && elfOffset + headers[i].fileOffset + headers[i].memorySize + page < WORD
  }

  /** The loader's checks on one header. */
  ghost predicate Acceptable(h: ProgramHeader, page: nat, elfOffset: nat, sourceSize: nat)
    requires page > 0
  {
    && h.memoryOffset % page == h.fileOffset % page
    && AccessOf(h.flags).Some?
    && elfOffset + h.fileOffset - Adjustment(h, page) <= sourceSize
  }

  /** No segment that gets to be written has a page in common with an earlier one that was made
      unwritable, so no write faults. */
  ghost predicate NoFault(headers: seq<ProgramHeader>, page: nat, elfOffset: nat, sourceSize: nat)
    requires page > 0
  {
    forall i, j :: 0 <= i < j < |headers| && headers[i].isLoad && headers[j].isLoad
                   && (forall k :: 0 <= k <= j && headers[k].isLoad ==> Acceptable(headers[k], page, elfOffset, sourceSize))
                   && SharePage(headers[i], headers[j], page) ==>
                     AccessOf(headers[i].flags) == Some(ReadWrite)
  }

  /** Every address a segment needs lies inside the reservation: its mapping starts on a
      page boundary, covers the segment, and ends with the segment's last page. */
  lemma MappingGeometry(h: ProgramHeader, page: nat, total: nat)
    requires page > 0 && h.memoryOffset + h.memorySize <= total
    ensures var start, length := h.memoryOffset - Adjustment(h, page), h.memorySize + Adjustment(h, page);
            && start == FirstPage(h, page) * page
            && start + RoundUp(length, page) == EndPage(h, page) * page == RoundUp(h.memoryOffset + h.memorySize, page)
            && start + length == h.memoryOffset + h.memorySize <= EndPage(h, page) * page <= RoundUp(total, page)
            && FirstPage(h, page) <= EndPage(h, page) <= RoundUp(total, page) / page
  {
    var end := h.memoryOffset + h.memorySize;
    DivMod(h.memoryOffset, page);
    RoundUpShift(FirstPage(h, page), h.memorySize + Adjustment(h, page), page);
    RoundUpIsLeast(end, page);
    DivMod(RoundUp(end, page), page);
    RoundUpMonotone(end, total, page);
    RoundUpIsLeast(total, page);
    DivMod(RoundUp(total, page), page);
    PagesInOrder(FirstPage(h, page), EndPage(h, page), page);
    PagesInOrder(EndPage(h, page), RoundUp(total, page) / page, page);
  }

  lemma PagesInOrder(a: nat, b: nat, page: nat)
    requires page > 0 && a * page <= b * page
    ensures a <= b
  {
    Multiples(a - b, page);
    assert (a - b) * page == a * page - b * page;
  }

  lemma PagesTimes(a: nat, b: nat, page: nat)
    requires a <= b
    ensures a * page <= b * page
  {
  }

  // ---- The reservation.

  /** The source read at a position: zero past its end. */
  function SourceByte(source: seq<Byte>, position: nat): Byte {
    if position < |source| then source[position] else 0
  }

  /** Memory after `length` bytes of the source have been copied to `start`. */
  ghost function Blit(memory: seq<Byte>, start: nat, length: nat, source: seq<Byte>, position: nat): (m: seq<Byte>)
    requires start + length <= |memory|
    ensures |m| == |memory|
    ensures forall a :: 0 <= a < |m| ==>
                          m[a] == if start <= a < start + length then SourceByte(source, position + (a - start)) else memory[a]
  {
    seq(|memory|, a requires 0 <= a < |memory| =>
      if start <= a < start + length then SourceByte(source, position + (a - start)) else memory[a])
  }

  ghost function Protect(access: seq<Access>, first: nat, end: nat, mode: Access): (r: seq<Access>)
    requires first <= end <= |access|
    ensures |r| == |access|
    ensures forall p :: 0 <= p < |r| ==> r[p] == if first <= p < end then mode else access[p]
  {
    seq(|access|, p requires 0 <= p < |access| => if first <= p < end then mode else access[p])
  }

  /** A reservation: its bytes, and the access of each of its pages. */
  datatype Image = Image(memory: seq<Byte>, access: seq<Access>)

  /** A segment that lies in the reservation has its mapping in it too. */
  lemma SegmentFits(h: ProgramHeader, page: nat, pages: nat, size: nat)
    requires page > 0 && pages * page == size && h.memoryOffset + h.memorySize <= size
    ensures Adjustment(h, page) <= h.memoryOffset && FirstPage(h, page) <= EndPage(h, page) <= pages
    ensures h.memoryOffset % page == h.fileOffset % page ==> Adjustment(h, page) <= h.fileOffset
    ensures h.memoryOffset - Adjustment(h, page) + (h.memorySize + Adjustment(h, page)) <= size
  {
    hide FirstPage, EndPage, RoundUp;
    MappingGeometry(h, page, size);
    WholePages(pages, page);
    ModAtMost(h.memoryOffset, page);
    ModAtMost(h.fileOffset, page);
  }

  /** One segment loaded. */
  ghost function LoadOne(image: Image, h: ProgramHeader, page: nat, source: seq<Byte>, elfOffset: nat): (r: Image)
    requires page > 0 && h.memoryOffset + h.memorySize <= |image.memory| && |image.access| * page == |image.memory|
    requires Acceptable(h, page, elfOffset, |source|)
    ensures |r.memory| == |image.memory| && |r.access| == |image.access|
  {
    SegmentFits(h, page, |image.access|, |image.memory|);
    Image(Blit(image.memory, h.memoryOffset - Adjustment(h, page), h.memorySize + Adjustment(h, page), source,
               elfOffset + h.fileOffset - Adjustment(h, page)),
          Protect(image.access, FirstPage(h, page), EndPage(h, page), AccessOf(h.flags).value))
  }

  lemma WholePages(n: nat, page: nat)
    requires page > 0
    ensures RoundUp(n * page, page) == n * page && n * page / page == n
  {
    RoundUpShift(n, 0, page);
    DivModUnique(page - 1, page, 0, page - 1);
    DivModUnique(n * page, page, n, 0);
  }

  ghost predicate Fits(headers: seq<ProgramHeader>, page: nat, source: seq<Byte>, elfOffset: nat, size: nat)
    requires page > 0
  {
    forall i :: 0 <= i < |headers| && headers[i].isLoad ==>
                  headers[i].memoryOffset + headers[i].memorySize <= size && Acceptable(headers[i], page, elfOffset, |source|)
  }

  /** The first n headers loaded. */
  ghost function LoadFirst(image: Image, headers: seq<ProgramHeader>, n: nat, page: nat, source: seq<Byte>, elfOffset: nat): (r: Image)
    requires page > 0 && n <= |headers| && |image.access| * page == |image.memory|
    requires Fits(headers[..n], page, source, elfOffset, |image.memory|)
    ensures |r.memory| == |image.memory| && |r.access| == |image.access|
  {
    if n == 0 then image
    else
      assert Fits(headers[..n - 1], page, source, elfOffset, |image.memory|) by {
        assert forall i :: 0 <= i < n - 1 ==> headers[..n - 1][i] == headers[..n][i];
      }
      var before := LoadFirst(image, headers, n - 1, page, source, elfOffset);
      assert headers[..n][n - 1] == headers[n - 1];
      if headers[n - 1].isLoad then LoadOne(before, headers[n - 1], page, source, elfOffset) else before
  }

  /** A segment is in place: each of its bytes is the source byte at its file offset, zero
      past the end of the source, and its pages have the access it asked for. */
  ghost predicate InPlace(image: Image, h: ProgramHeader, page: nat, source: seq<Byte>, elfOffset: nat)
    requires page > 0
  {
    && h.memoryOffset + h.memorySize <= |image.memory| && EndPage(h, page) <= |image.access|
    && (forall k :: h.memoryOffset <= k < h.memoryOffset + h.memorySize ==>
          image.memory[k] == SourceByte(source, elfOffset + h.fileOffset + (k - h.memoryOffset)))
    && (forall p :: FirstPage(h, page) <= p < EndPage(h, page) ==> Some(image.access[p]) == AccessOf(h.flags))
  }

  lemma LoadOneInPlace(image: Image, h: ProgramHeader, page: nat, source: seq<Byte>, elfOffset: nat)
    requires page > 0 && h.memoryOffset + h.memorySize <= |image.memory| && |image.access| * page == |image.memory|
    requires Acceptable(h, page, elfOffset, |source|)
    ensures InPlace(LoadOne(image, h, page, source, elfOffset), h, page, source, elfOffset)
  {
    MappingGeometry(h, page, |image.memory|);
    WholePages(|image.access|, page);
    DivMod(h.fileOffset, page);
  }

  /** Loading a segment leaves alone one that shares no page with it. */
  lemma LoadOneKeeps(image: Image, h: ProgramHeader, other: ProgramHeader, page: nat, source: seq<Byte>, elfOffset: nat)
    requires page > 0 && h.memoryOffset + h.memorySize <= |image.memory| && |image.access| * page == |image.memory|
    requires Acceptable(h, page, elfOffset, |source|) && InPlace(image, other, page, source, elfOffset)
    requires !SharePage(h, other, page)
    ensures InPlace(LoadOne(image, h, page, source, elfOffset), other, page, source, elfOffset)
  {
    MappingGeometry(h, page, |image.memory|);
    MappingGeometry(other, page, |image.memory|);
    WholePages(|image.access|, page);
    DivMod(other.memoryOffset, page);
    if EndPage(h, page) <= FirstPage(other, page) {
      PagesTimes(EndPage(h, page), FirstPage(other, page), page);
    } else if EndPage(other, page) <= FirstPage(h, page) {
      PagesTimes(EndPage(other, page), FirstPage(h, page), page);
    }
  }

  /** After the first n headers, every loadable one among them is in place, unless a later one
      has a page in common with it. */
  lemma {:induction false} SegmentsInPlace(image: Image, headers: seq<ProgramHeader>, n: nat, page: nat, source: seq<Byte>, elfOffset: nat, i: nat)
    requires page > 0 && n <= |headers| && |image.access| * page == |image.memory|
    requires Fits(headers[..n], page, source, elfOffset, |image.memory|)
    requires i < n && headers[i].isLoad && KeepsPages(headers, i, n, page)
    ensures InPlace(LoadFirst(image, headers, n, page, source, elfOffset), headers[i], page, source, elfOffset)
    decreases n
  {
    FitsShorter(headers, n, page, source, elfOffset, |image.memory|);
    var before := LoadFirst(image, headers, n - 1, page, source, elfOffset);
    if i == n - 1 {
      LoadOneInPlace(before, headers[i], page, source, elfOffset);
    } else {
      SegmentsInPlace(image, headers, n - 1, page, source, elfOffset, i);
      if headers[n - 1].isLoad {
        LoadOneKeeps(before, headers[n - 1], headers[i], page, source, elfOffset);
      }
    }
  }

  lemma FitsShorter(headers: seq<ProgramHeader>, n: nat, page: nat, source: seq<Byte>, elfOffset: nat, size: nat)
    requires page > 0 && 0 < n <= |headers| && Fits(headers[..n], page, source, elfOffset, size)
    ensures Fits(headers[..n - 1], page, source, elfOffset, size)
    ensures headers[n - 1].isLoad ==>
              headers[n - 1].memoryOffset + headers[n - 1].memorySize <= size && Acceptable(headers[n - 1], page, elfOffset, |source|)
  {
    assert forall i :: 0 <= i < n - 1 ==> headers[..n - 1][i] == headers[..n][i];
    assert headers[..n][n - 1] == headers[n - 1];
  }

  /** A writable page stays so as long as only writable segments cover it. */
  lemma {:induction false} WritablePages(image: Image, headers: seq<ProgramHeader>, n: nat, page: nat, source: seq<Byte>, elfOffset: nat, p: nat)
    requires page > 0 && n <= |headers| && |image.access| * page == |image.memory| && p < |image.access|
    requires Fits(headers[..n], page, source, elfOffset, |image.memory|) && image.access[p] == ReadWrite
    requires forall i :: 0 <= i < n && headers[i].isLoad && FirstPage(headers[i], page) <= p < EndPage(headers[i], page) ==>
                           AccessOf(headers[i].flags) == Some(ReadWrite)
    ensures LoadFirst(image, headers, n, page, source, elfOffset).access[p] == ReadWrite
    decreases n
  {
    if n > 0 {
      FitsShorter(headers, n, page, source, elfOffset, |image.memory|);
      WritablePages(image, headers, n - 1, page, source, elfOffset, p);
      if headers[n - 1].isLoad {
        MappingGeometry(headers[n - 1], page, |image.memory|);
        WholePages(|image.access|, page);
      }
    }
  }

  /** Pages no segment so far covers have the access they were reserved with. */
  lemma {:induction false} UntouchedPages(image: Image, headers: seq<ProgramHeader>, n: nat, page: nat, source: seq<Byte>, elfOffset: nat, p: nat)
    requires page > 0 && n <= |headers| && |image.access| * page == |image.memory| && p < |image.access|
    requires Fits(headers[..n], page, source, elfOffset, |image.memory|)
    requires forall i :: 0 <= i < n && headers[i].isLoad ==> !(FirstPage(headers[i], page) <= p < EndPage(headers[i], page))
    ensures LoadFirst(image, headers, n, page, source, elfOffset).access[p] == image.access[p]
    decreases n
  {
    if n > 0 {
      FitsShorter(headers, n, page, source, elfOffset, |image.memory|);
      UntouchedPages(image, headers, n - 1, page, source, elfOffset, p);
      if headers[n - 1].isLoad {
        MappingGeometry(headers[n - 1], page, |image.memory|);
        WholePages(|image.access|, page);
      }
    }
  }
}
