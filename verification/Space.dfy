/**
  An address space as a set of mapped pages, which the tables are proved to implement.
 */
module Spaces {
  import opened Common
  import opened Paging
  import opened Segments
  import opened Growth
  import opened Pruning

  // ---- The address space as a set of pages ----

  /** What a process can tell of its address space: the pages mapped and the segments. */
  datatype Space = Space(pages: set<nat>, rodata: Segment, data: Segment, stack: Segment)

  function SegOf(s: Space, prot: Prot): Segment {
    if prot == MapWr then s.data else s.rodata
  }

  function WithMarker(s: Space, prot: Prot, marker: nat): Space {
    if prot == MapWr then s.(data := s.data.(nextFree := marker)) else s.(rodata := s.rodata.(nextFree := marker))
  }

  predicate ExpandRefused(s: Space, size: nat, prot: Prot) {
    size > 512 || prot == OtherProt || Add64(SegOf(s, prot).nextFree, PAGE * size) > SegOf(s, prot).end
  }

  ghost function Next(s: Space, op: Op): Space {
    match op
    case FaultOp(fault, error) =>
      if Admits(s.rodata, s.data, s.stack, fault, error) then s.(pages := s.pages + {PageOf(fault)}) else s
    case ExpandOp(size, prot) =>
      if ExpandRefused(s, size, prot) then s else WithMarker(s, prot, Add64(SegOf(s, prot).nextFree, PAGE * size))
    case ShrinkOp(size, prot) =>
      if prot == OtherProt || ShrinkRefused(SegOf(s, prot), size) then s
      else
        WithMarker(s, prot, Back(SegOf(s, prot).nextFree, size))
          .(pages := set p | p in s.pages && !Visited(SegOf(s, prot).nextFree, size, PagePath(p)))
    case TlbOp(_) => s
  }

  lemma NextExpanded(s: Space, size: nat, prot: Prot)
    ensures var t, seg := Next(s, ExpandOp(size, prot)), SegOf(s, prot);
            var moved := seg.(nextFree := Add64(seg.nextFree, PAGE * size));
            && t.pages == s.pages && t.stack == s.stack
            && t.data == (if ExpandRefused(s, size, prot) || prot != MapWr then s.data else moved)
            && t.rodata == (if ExpandRefused(s, size, prot) || prot == MapWr then s.rodata else moved)
  {
  }

  lemma NextShrunk(s: Space, size: nat, prot: Prot)
    ensures var t, seg := Next(s, ShrinkOp(size, prot)), SegOf(s, prot);
            var refused := prot == OtherProt || ShrinkRefused(seg, size);
            var moved := seg.(nextFree := Back(seg.nextFree, size));
            && t.stack == s.stack && t.data == (if refused || prot != MapWr then s.data else moved)
            && t.rodata == (if refused || prot == MapWr then s.rodata else moved)
  {
  }

  /** What the call returns; for a fault, 1 if the process goes on. */
  function Answer(s: Space, op: Op): nat {
    match op
    case FaultOp(fault, error) => if Admits(s.rodata, s.data, s.stack, fault, error) then 1 else 0
    case ExpandOp(size, prot) => if ExpandRefused(s, size, prot) then 0 else SegOf(s, prot).nextFree
    case ShrinkOp(size, prot) =>
      if prot == OtherProt || ShrinkRefused(SegOf(s, prot), size) then 0 else Back(SegOf(s, prot).nextFree, size)
    case TlbOp(_) => 0
  }

  ghost function SpaceAfter(s: Space, ops: seq<Op>): Space {
    if |ops| == 0 then s else Next(SpaceAfter(s, ops[..|ops| - 1]), ops[|ops| - 1])
  }

  ghost predicate AnswersOk(s: Space, ops: seq<Op>, answers: seq<nat>) {
    |answers| == |ops| && forall i :: 0 <= i < |ops| ==> answers[i] == Answer(SpaceAfter(s, ops[..i]), ops[i])
  }

  lemma AnswersMore(s: Space, ops: seq<Op>, answers: seq<nat>, i: nat)
    requires i < |ops| && AnswersOk(s, ops[..i], answers)
    ensures SpaceAfter(s, ops[..i + 1]) == Next(SpaceAfter(s, ops[..i]), ops[i])
    ensures AnswersOk(s, ops[..i + 1], answers + [Answer(SpaceAfter(s, ops[..i]), ops[i])])
  {
    assert ops[..i + 1][..i] == ops[..i];
    forall j | 0 <= j < i ensures ops[..i + 1][..j] == ops[..i][..j] {}
  }

  /**
    Expanding and then shrinking by as many pages restores the address space when mapped pages lie below the
    marker.
   */
  lemma ShrinkUndoesExpand(s: Space, size: nat, prot: Prot)
    requires !ExpandRefused(s, size, prot) && MarkerOk(SegOf(s, prot)) && U32 <= SegOf(s, prot).start
    requires SegOf(s, prot).end < L4_SPAN && forall p :: p in s.pages ==> p < PAGES
    requires forall p :: p in s.pages && InSegment(SegOf(s, prot), PAGE * p) ==> PAGE * p < SegOf(s, prot).nextFree
    ensures Next(Next(s, ExpandOp(size, prot)), ShrinkOp(size, prot)) == s
  {
    var seg := SegOf(s, prot);
    var grown := Next(s, ExpandOp(size, prot));
    ExpandMarker(seg, size);
    ShrinkGuard(SegOf(grown, prot), size);
    forall p | p in s.pages ensures !Visited(seg.nextFree + PAGE * size, size, PagePath(p)) {
      VisitedPages(seg.nextFree + PAGE * size, size, p);
    }
  }

  /** The operation meets neither gap: no access at a marker, no shrink beyond the segment. */
  predicate Clean(s: Space, op: Op) {
    match op
    case FaultOp(fault, error) =>
      Admits(s.rodata, s.data, s.stack, fault, error) ==> fault != s.data.nextFree && fault != s.rodata.nextFree
    case ShrinkOp(size, prot) =>
      prot == OtherProt || ShrinkRefused(SegOf(s, prot), size)
        || PAGE * size <= SegOf(s, prot).nextFree - SegOf(s, prot).start
    case _ => true
  }

  ghost predicate CleanRun(s: Space, ops: seq<Op>) {
    |ops| == 0 || (CleanRun(s, ops[..|ops| - 1]) && Clean(SpaceAfter(s, ops[..|ops| - 1]), ops[|ops| - 1]))
  }

  ghost predicate Below(pages: set<nat>, s: Segment) {
    forall p :: p in pages && InSegment(s, PAGE * p) ==> PAGE * p < s.nextFree
  }

  /** Both markers are right and every page mapped in their segments lies below them. */
  ghost predicate Closed(s: Space) {
    MarkerOk(s.rodata) && MarkerOk(s.data) && Below(s.pages, s.rodata) && Below(s.pages, s.data)
  }

  /** A space that some code segment completes to a layout. */
  ghost predicate Placed(s: Space, code: Segment) {
    Layout(code, s.rodata, s.data, s.stack) && forall p :: p in s.pages ==> p < PAGES
  }

  lemma NextPlaced(s: Space, op: Op, code: Segment)
    requires Placed(s, code)
    ensures Placed(Next(s, op), code)
  {
  }

  lemma FaultClosedIff(s: Space, fault: nat, error: nat, code: Segment)
    requires Placed(s, code) && Closed(s) && Admits(s.rodata, s.data, s.stack, fault, error)
    ensures Closed(Next(s, FaultOp(fault, error))) <==> fault != s.data.nextFree && fault != s.rodata.nextFree
  {
    var t := Next(s, FaultOp(fault, error));
    var page := fault / PAGE;
    assert PageOf(fault) == page && page in t.pages;
    PageAtMarker(code, s.rodata, s.data, s.stack, fault);
  }

  lemma ShrinkClosedIff(s: Space, size: nat, prot: Prot, code: Segment)
    requires Placed(s, code) && Closed(s) && size < U32
    requires prot != OtherProt && !ShrinkRefused(SegOf(s, prot), size)
    ensures Closed(Next(s, ShrinkOp(size, prot))) <==> PAGE * size <= SegOf(s, prot).nextFree - SegOf(s, prot).start
  {
    var seg := SegOf(s, prot);
    ShrinkGuard(seg, size);
    if PAGE * size <= seg.nextFree - seg.start {
      assert Back(seg.nextFree, size) == seg.nextFree - PAGE * size;
      forall p | p in s.pages ensures Visited(seg.nextFree, size, PagePath(p)) <==>
                                      seg.nextFree - PAGE * size <= PAGE * p < seg.nextFree
      {
        VisitedPages(seg.nextFree, size, p);
      }
    }
  }

  /** From a closed space, an operation leaves a closed one exactly when it meets neither gap. */
  lemma NextClosedIff(s: Space, op: Op, code: Segment)
    requires Placed(s, code) && Closed(s) && (op.ExpandOp? || op.ShrinkOp? ==> op.size < U32)
    ensures Closed(Next(s, op)) <==> Clean(s, op)
  {
    match op
    case FaultOp(fault, error) =>
      if Admits(s.rodata, s.data, s.stack, fault, error) { FaultClosedIff(s, fault, error, code); }
    case ExpandOp(size, prot) =>
      if !ExpandRefused(s, size, prot) { ExpandMarker(SegOf(s, prot), size); }
    case ShrinkOp(size, prot) =>
      if prot != OtherProt && !ShrinkRefused(SegOf(s, prot), size) { ShrinkClosedIff(s, size, prot, code); }
    case TlbOp(_) =>
  }

  ghost predicate Sizes(ops: seq<Op>) {
    forall i :: 0 <= i < |ops| && (ops[i].ExpandOp? || ops[i].ShrinkOp?) ==> ops[i].size < U32
  }

  lemma {:induction false} SpacePlaced(s: Space, ops: seq<Op>, code: Segment)
    requires Placed(s, code)
    ensures Placed(SpaceAfter(s, ops), code)
    decreases |ops|
  {
    if |ops| > 0 {
      SpacePlaced(s, ops[..|ops| - 1], code);
      NextPlaced(SpaceAfter(s, ops[..|ops| - 1]), ops[|ops| - 1], code);
    }
  }

  /** The space is closed after the operations so far, after each prefix of them. */
  ghost predicate StaysClosed(s: Space, ops: seq<Op>) {
    forall i :: 0 <= i <= |ops| ==> Closed(SpaceAfter(s, ops[..i]))
  }

  lemma StaysClosedStep(s: Space, ops: seq<Op>)
    requires |ops| > 0
    ensures StaysClosed(s, ops) <==> StaysClosed(s, ops[..|ops| - 1]) && Closed(SpaceAfter(s, ops))
  {
    var before := ops[..|ops| - 1];
    assert ops[..|ops|] == ops;
    assert forall i :: 0 <= i <= |before| ==> before[..i] == ops[..i];
  }

  /**
    Over a whole run, the markers are right and pages lie below them at every moment exactly when no operation
    meets a gap.
   */
  lemma {:induction false} ClosedRunIff(s: Space, ops: seq<Op>, code: Segment)
    requires Placed(s, code) && Closed(s) && Sizes(ops)
    ensures StaysClosed(s, ops) <==> CleanRun(s, ops)
    decreases |ops|
  {
    if |ops| > 0 {
      var before := ops[..|ops| - 1];
      StaysClosedStep(s, ops);
      ClosedRunIff(s, before, code);
      SpacePlaced(s, before, code);
      assert before[..|before|] == before;
      if Closed(SpaceAfter(s, before)) { NextClosedIff(SpaceAfter(s, before), ops[|ops| - 1], code); }
    } else {
      assert ops[..0] == ops;
    }
  }

  ghost predicate Mapped(m: seq<nat>, root: nat, pages: set<nat>) {
    && (forall p :: p in pages ==> p < PAGES)
    && (forall p: nat :: p < PAGES ==> (p in pages <==> Translate(m, root, p).Some?))
  }

  lemma MappedOne(m: seq<nat>, m': seq<nat>, root: nat, pages: set<nat>, page: nat)
    requires Mapped(m, root, pages) && OthersKept(m, m', root, page) && page < PAGES && Translate(m', root, page).Some?
    ensures Mapped(m', root, pages + {page})
  {
  }

  lemma FaultMapped(m: seq<nat>, m': seq<nat>, root: nat, s: Space, fault: nat, error: nat)
    requires Mapped(m, root, s.pages)
    requires if Admits(s.rodata, s.data, s.stack, fault, error) then
               OthersKept(m, m', root, PageOf(fault)) && Translate(m', root, PageOf(fault)).Some?
             else m' == m
    ensures var t := Next(s, FaultOp(fault, error));
            Mapped(m', root, t.pages) && t.rodata == s.rodata && t.data == s.data && t.stack == s.stack
  {
    if Admits(s.rodata, s.data, s.stack, fault, error) { MappedOne(m, m', root, s.pages, PageOf(fault)); }
  }

  lemma MappedPruned(m: seq<nat>, m': seq<nat>, root: nat, pages: set<nat>, marker: nat, size: nat)
    requires Mapped(m, root, pages) && Pruned(m, m', root, marker, size)
    ensures Mapped(m', root, set p | p in pages && !Visited(marker, size, PagePath(p)))
  {
    forall p: nat | p < PAGES
      ensures Translate(m', root, p) == if Visited(marker, size, PagePath(p)) then None else Translate(m, root, p)
    {
      assert Asked(PagePath(p));
    }
  }

  lemma ShrinkMapped(m: seq<nat>, m': seq<nat>, root: nat, s: Space, size: nat, prot: Prot)
    requires Mapped(m, root, s.pages)
    requires if prot == OtherProt || ShrinkRefused(SegOf(s, prot), size) then m' == m
             else Pruned(m, m', root, SegOf(s, prot).nextFree, size)
    ensures Mapped(m', root, Next(s, ShrinkOp(size, prot)).pages)
  {
    if !(prot == OtherProt || ShrinkRefused(SegOf(s, prot), size)) {
      MappedPruned(m, m', root, s.pages, SegOf(s, prot).nextFree, size);
    }
  }

  function FrameRange(lo: nat, hi: nat): (s: set<nat>)
    requires lo <= hi
    ensures forall f :: f in s <==> lo <= f < hi
    decreases hi - lo
  {
    if lo == hi then {} else {lo} + FrameRange(lo + 1, hi)
  }

  /** The space of a prepared context. */
  function AtStart(code: Segment, rodata: Segment, data: Segment, stack: Segment): Space
  {
    Space({Top(stack) / PAGE, code.start / PAGE, data.start / PAGE}, rodata, data, stack)
  }
}
