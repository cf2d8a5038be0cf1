/**
  Segments of an address space, the markers in them and the pages that `shrink` and `write` reach.
 */
module Segments {
  import opened Common
  import opened Paging

  // Segment placement of Assn1/context.h
  const CODE_START: nat := 0x1_0000_0000
  const RODATA_START: nat := 0x1_4000_0000
  const DATA_START: nat := 0x1_8000_0000
  const STACK_START: nat := 0x8_0000_0000
  const MAX_STACK_SIZE: nat := 0x100_0000
  const L3_SPAN: nat := 0x4000_0000
  const L4_SPAN: nat := 0x80_0000_0000

  const RW_FLAGS: nat := PR + RW + US
  const RO_FLAGS: nat := PR + US

  datatype Segment = Segment(start: nat, end: nat, nextFree: nat)

  datatype Prot = MapWr | MapRd | OtherProt

  datatype Outcome = Exit | Resume

  datatype Op =
    | FaultOp(address: nat, error: nat)
    | ExpandOp(size: nat, prot: Prot)
    | ShrinkOp(size: nat, prot: Prot)
    | TlbOp(page: nat)

  datatype Region = OsPtReg | UserReg

  lemma FlagBits(flags: nat)
    requires flags == RW_FLAGS || flags == RO_FLAGS
    ensures flags < 8 && Present(flags) && User(flags) && (Writable(flags) <==> flags == RW_FLAGS)
  {
  }

  /** `end - 1`, for a segment that is not empty. */
  function Top(s: Segment): nat { if s.end > 0 then s.end - 1 else 0 }

  // ---- u64 arithmetic ----

  function Add64(a: nat, b: nat): nat { (a + b) % U64 }

  /** The address reached after moving a marker down by `pages` pages, wrapping at 2^64. */
  function Back(marker: nat, pages: nat): nat { (marker - PAGE * pages) % U64 }

  // ---- Segments ----

  /**
    Segments are in the order of context.h, share level-4 entry 0, and no level-3 entry serves both a
    read-only and a writable segment.
   */
  predicate Layout(code: Segment, rodata: Segment, data: Segment, stack: Segment) {
    && U32 <= code.start <= code.end < rodata.start <= rodata.end < data.start
    && data.start <= data.end < stack.start < stack.end < L4_SPAN
    && code.start % PAGE == rodata.start % PAGE == data.start % PAGE == stack.start % PAGE == 0
    && rodata.end / L3_SPAN < data.start / L3_SPAN
  }

  predicate MarkerOk(s: Segment) {
    s.start <= s.nextFree <= s.end && s.nextFree % PAGE == 0
  }

  predicate InSegment(s: Segment, address: nat) { s.start <= address <= s.end }

  /** `next - (size * 4096) < start`, where the product is a `u32`. */
  predicate ShrinkRefused(s: Segment, size: nat) {
    (s.nextFree - size * PAGE % U32) % U64 < s.start
  }

  /**
    The marker stays inside the segment exactly when the request fits in it. The written guard looks at
    the request modulo 2^20 pages: within a segment of less than 4 GB it decides the same exactly when
    the request is below 2^20 pages or what is left of it modulo 2^20 does not fit either.
   */
  lemma ShrinkGuard(s: Segment, size: nat)
    requires MarkerOk(s) && U32 <= s.start && s.end < L4_SPAN && size < U32
    ensures MarkerOk(s.(nextFree := Back(s.nextFree, size))) <==> PAGE * size <= s.nextFree - s.start
    ensures ShrinkRefused(s, size) <==> PAGE * (size % MAX_FRAMES) > s.nextFree - s.start
    ensures s.end - s.start < U32 ==>
              ((ShrinkRefused(s, size) <==> PAGE * size > s.nextFree - s.start) <==>
               size < MAX_FRAMES || PAGE * (size % MAX_FRAMES) > s.nextFree - s.start)
  {
    var d := s.nextFree - PAGE * size;
    if d >= 0 {
      assert Back(s.nextFree, size) == d;
    } else {
      assert Back(s.nextFree, size) == d + U64;
    }
    assert d % PAGE == 0;
    assert size * PAGE % U32 == PAGE * (size % MAX_FRAMES);
  }

  /**
    A request for 2^20 pages on a segment with one page in use: the guard lets it through and the marker
    leaves the segment.
   */
  lemma ShrinkWrapWitness()
    ensures var s := Segment(DATA_START, DATA_START + 0xFFFF, DATA_START + PAGE);
            && MarkerOk(s) && !ShrinkRefused(s, MAX_FRAMES)
            && !MarkerOk(s.(nextFree := Back(s.nextFree, MAX_FRAMES)))
  {
    ShrinkGuard(Segment(DATA_START, DATA_START + 0xFFFF, DATA_START + PAGE), MAX_FRAMES);
  }

  /** Segments placed as in context.h are laid out as the tables need, with stack and data in different 1 GB slots. */
  lemma ContextLayout(code: Segment, rodata: Segment, data: Segment, stack: Segment)
    requires code.start == CODE_START <= code.end < RODATA_START == rodata.start <= rodata.end < DATA_START
    requires data.start == DATA_START <= data.end < stack.start == STACK_START - MAX_STACK_SIZE
    requires stack.end == STACK_START
    ensures Layout(code, rodata, data, stack) && Top(stack) / L3_SPAN != data.start / L3_SPAN
  {
  }

  /** Below 2^39 the level-4 index is 0 and the level-3 index is the 1 GB slot. */
  lemma TopIndices(address: nat)
    requires address < L4_SPAN
    ensures Indices(address)[0] == 0 && Indices(address)[1] == address / L3_SPAN
  {
    var q := address / PAGE;
    FourDigits(q);
    DivDiv(address, PAGE, ENTRIES);
    DivDiv(address, 0x20_0000, ENTRIES);
    assert q / ENTRIES / ENTRIES == address / L3_SPAN;
  }

  lemma SlotsOf(code: Segment, rodata: Segment, data: Segment, stack: Segment, address: nat)
    requires Layout(code, rodata, data, stack)
    ensures InSegment(data, address) || InSegment(stack, address) ==> address / L3_SPAN > rodata.end / L3_SPAN
    ensures InSegment(rodata, address) ==> address / L3_SPAN <= rodata.end / L3_SPAN
  {
  }

  lemma SamePage(a: nat, b: nat)
    requires a < L4_SPAN && b < L4_SPAN
    ensures Indices(a) == Indices(b) <==> a / PAGE == b / PAGE
    ensures PageOf(a) == a / PAGE
  {
    if Indices(a) == Indices(b) { PagePathInjective(a / PAGE, b / PAGE); }
  }

  lemma PreparedAddresses(code: Segment, rodata: Segment, data: Segment, stack: Segment)
    requires Layout(code, rodata, data, stack)
    ensures Top(stack) < L4_SPAN && Top(stack) / PAGE != data.start / PAGE
    ensures code.start / L3_SPAN <= rodata.end / L3_SPAN < Top(stack) / L3_SPAN
            && rodata.end / L3_SPAN < data.start / L3_SPAN
  {
  }

  /** The three pages that `prepare_context_mm` maps have different paths, in slots of the right kind. */
  lemma PreparedPaths(code: Segment, rodata: Segment, data: Segment, stack: Segment)
    requires Layout(code, rodata, data, stack)
    ensures var s, c, d := Indices(Top(stack)), Indices(code.start), Indices(data.start);
            && s != d && s[0] == c[0] == d[0] == 0
            && c[1] <= rodata.end / L3_SPAN < s[1] && rodata.end / L3_SPAN < d[1]
  {
    PreparedAddresses(code, rodata, data, stack);
    TopIndices(Top(stack));
    TopIndices(code.start);
    TopIndices(data.start);
    SamePage(Top(stack), data.start);
  }

  /** The fault is for an address the handler admits; `error` is the processor's error code. */
  predicate Admits(rodata: Segment, data: Segment, stack: Segment, fault: nat, error: nat) {
    && error % 2 == 0
    && if InSegment(data, fault) then fault <= data.nextFree
       else if InSegment(rodata, fault) then fault <= rodata.nextFree && error / 2 % 2 == 0
       else InSegment(stack, fault)
  }

  /**
    Segment by segment: DATA up to its marker, RODATA up to its marker for reads, all of STACK, and nothing
    else; an odd error code, a fault on a page that is present, never.
   */
  lemma AdmitsIff(code: Segment, rodata: Segment, data: Segment, stack: Segment, fault: nat, error: nat)
    requires Layout(code, rodata, data, stack)
    ensures Admits(rodata, data, stack, fault, error) <==>
            && error % 2 == 0
            && (|| (data.start <= fault <= data.end && fault <= data.nextFree)
                || (rodata.start <= fault <= rodata.end && fault <= rodata.nextFree && error / 2 % 2 == 0)
                || stack.start <= fault <= stack.end)
  {
  }

  // ---- Paths visited by shrink ----

  ghost predicate Visited(marker: nat, pages: nat, path: Path) {
    exists j: nat :: 1 <= j <= pages && path == Indices(Back(marker, j))
  }

  lemma VisitedOneMore(marker: nat, n: nat, path: Path)
    ensures Visited(marker, n + 1, path) <==> Visited(marker, n, path) || path == Indices(Back(marker, n + 1))
  {
  }

  /** Without wrap-around, `shrink` visits exactly the pages between the new marker and the old one. */
  lemma VisitedPages(marker: nat, pages: nat, page: nat)
    requires marker % PAGE == 0 && PAGE * pages <= marker < L4_SPAN && page < PAGES
    ensures Visited(marker, pages, PagePath(page)) <==> marker - PAGE * pages <= PAGE * page < marker
  {
    var q := marker / PAGE;
    forall j: nat | 1 <= j <= pages
      ensures PagePath(page) == Indices(Back(marker, j)) <==> page == q - j
    {
      assert Back(marker, j) == PAGE * (q - j);
      IndicesArePagePath(Back(marker, j));
      assert PageOf(Back(marker, j)) == q - j;
      if PagePath(page) == PagePath(q - j) { PagePathInjective(page, q - j); }
    }
    if q - pages <= page < q {
      assert PagePath(page) == Indices(Back(marker, q - page));
    }
  }

  // ---- write ----

  /** The address of the last of `n` bytes. */
  function LastByte(buff: nat, n: nat): nat
    requires n > 0
  {
    buff + n - 1
  }

  /** Two bytes from the last one of the first data page on: the page after it is none of the prepared ones. */
  lemma AcrossPages(code: Segment, rodata: Segment, data: Segment, stack: Segment)
    requires Layout(code, rodata, data, stack) && data.start + PAGE <= data.end
    ensures var b, q := LastByte(data.start, PAGE), data.start / PAGE;
            && b > 0 && PageOf(b) == q && PageOf(LastByte(b, 2)) == q + 1 < PAGES
            && q + 1 != Top(stack) / PAGE && q + 1 != code.start / PAGE
  {
  }

  /** A buffer of at most 1024 bytes touches no page but those of its first and its last byte. */
  lemma FirstOrLastPage(buff: nat, n: int, a: int)
    requires buff <= a < buff + n && n <= 1024
    ensures PageOf(a) == PageOf(buff) || PageOf(a) == PageOf(buff + n - 1)
  {
    var last := buff + n - 1;
    assert buff / PAGE <= a / PAGE <= last / PAGE <= buff / PAGE + 1;
  }
}
