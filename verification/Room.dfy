/**
  How many frames are enough for every run.
 */
module Room {
  import opened Common
  import opened Paging
  import opened Segments
  import opened Growth
  import opened Pruning
  import opened Spaces

  // ---- Frames that suffice for every run ----

  /** The paths of the upper tables, the root's among them, that translating these pages can take. */
  ghost function TablePaths(pages: set<nat>): set<Path> {
    set p, k | p in pages && 0 <= k < 4 :: PagePath(p)[..k]
  }

  ghost function LeafPaths(pages: set<nat>): set<Path> {
    set p | p in pages :: PagePath(p)
  }

  /** Only the pages of this set and their tables are walked. */
  ghost predicate Inside(m: seq<nat>, root: nat, pages: set<nat>) {
    forall path {:trigger Asked(path)} :: Asked(path) && Walk(m, root, path).Some? ==>
      path in TablePaths(pages) || path in LeafPaths(pages)
  }

  lemma AlongInside(pages: set<nat>, p: nat, path: Path)
    requires p in pages && Along(path, PagePath(p))
    ensures path in TablePaths(pages) || path in LeafPaths(pages)
  {
    assert PagePath(p)[..4] == PagePath(p);
    if |path| < 4 { assert path == PagePath(p)[..|path|]; }
  }

  lemma InsideMore(m: seq<nat>, m': seq<nat>, root: nat, pages: set<nat>, address: nat)
    requires Inside(m, root, pages) && NewOnlyAlong(m, m', root, Indices(address)) && PageOf(address) in pages
    ensures Inside(m', root, pages)
  {
    IndicesArePagePath(address);
    forall path | Asked(path) && Walk(m', root, path).Some?
      ensures path in TablePaths(pages) || path in LeafPaths(pages)
    {
      if Walk(m, root, path).None? { AlongInside(pages, PageOf(address), path); }
    }
  }

  lemma InsidePruned(m: seq<nat>, m': seq<nat>, root: nat, pages: set<nat>, marker: nat, n: nat)
    requires Inside(m, root, pages) && Pruned(m, m', root, marker, n)
    ensures Inside(m', root, pages)
  {
  }

  lemma InsidePrepared(m: seq<nat>, root: nat, pages: set<nat>, a: nat, b: nat, c: nat)
    requires Prepared(m, root, Indices(a), Indices(b), Indices(c))
    requires PageOf(a) in pages && PageOf(b) in pages && PageOf(c) in pages
    ensures Inside(m, root, pages)
  {
    IndicesArePagePath(a);
    IndicesArePagePath(b);
    IndicesArePagePath(c);
    forall path | Asked(path) && Walk(m, root, path).Some?
      ensures path in TablePaths(pages) || path in LeafPaths(pages)
    {
      PreparedAt(m, root, Indices(a), Indices(b), Indices(c), path);
      if |path| == 0 {
        assert path == PagePath(PageOf(a))[..0];
      } else if Along(path, Indices(a)) {
        AlongInside(pages, PageOf(a), path);
      } else if Along(path, Indices(b)) {
        AlongInside(pages, PageOf(b), path);
      } else {
        AlongInside(pages, PageOf(c), path);
      }
    }
  }

  /** Frames with different paths are at most as many as the paths. */
  lemma {:induction false} Injected(owner: map<nat, Path>, fs: set<nat>, ps: set<Path>)
    requires forall f :: f in fs ==> f in owner && owner[f] in ps
    requires forall f, g :: f in fs && g in fs && f != g ==> owner[f] != owner[g]
    ensures |fs| <= |ps|
    decreases |fs|
  {
    if fs != {} {
      var f :| f in fs;
      Injected(owner, fs - {f}, ps - {owner[f]});
    }
  }

  lemma {:induction false} RangeSize(lo: nat, hi: nat)
    requires lo <= hi
    ensures |FrameRange(lo, hi)| == hi - lo
    decreases hi - lo
  {
    if lo < hi { RangeSize(lo + 1, hi); }
  }

  lemma RangeSizes(frames: nat, split: nat, argPfn: nat)
    requires split <= argPfn < frames
    ensures |FrameRange(0, split)| == split && |FrameRange(split, frames) - {argPfn}| == frames - split - 1
    ensures FrameRange(0, frames) - {argPfn} + {argPfn} == FrameRange(0, frames)
  {
    RangeSize(0, split);
    RangeSize(split, frames);
  }

  /** A range of frames that are free or in use, the latter with paths among `ps` but not among `missing`. */
  lemma FreeEnough(owner: map<nat, Path>, free: set<nat>, lo: nat, hi: nat, ps: set<Path>, missing: set<Path>)
    requires lo <= hi && forall f :: lo <= f < hi ==> f in free || f in owner
    requires forall f :: f in owner && lo <= f < hi ==> owner[f] in ps && owner[f] !in missing
    requires forall f, g :: f in owner && g in owner && f != g ==> owner[f] != owner[g]
    requires missing <= ps && |ps| <= hi - lo
    ensures |missing| <= |free|
  {
    var used := set f | f in owner && lo <= f < hi;
    Injected(owner, used, ps - missing);
    RangeSize(lo, hi);
    CardGrows(FrameRange(lo, hi), free + used);
    assert |free + used| <= |free| + |used|;
    assert |ps - missing| == |ps| - |missing|;
  }

  ghost function MissingPaths(m: seq<nat>, root: nat, x: Path): set<Path>
    requires |x| == 4
  {
    set k | 1 <= k < 4 && Walk(m, root, x[..k]).None? :: x[..k]
  }

  lemma MissingSize(m: seq<nat>, root: nat, x: Path)
    requires |x| == 4
    ensures |MissingPaths(m, root, x)| == Missing(m, root, x)
  {
    var a := if Walk(m, root, x[..1]).None? then {x[..1]} else {};
    var b := if Walk(m, root, x[..2]).None? then {x[..2]} else {};
    var c := if Walk(m, root, x[..3]).None? then {x[..3]} else {};
    assert |x[..1]| != |x[..2]| && |x[..2]| != |x[..3]|;
    assert a !! b && a + b !! c;
    assert |a + b + c| == |a| + |b| + |c|;
    assert MissingPaths(m, root, x) == a + b + c;
  }

  lemma {:induction false} LeafPathsSize(pages: set<nat>)
    ensures |LeafPaths(pages)| <= |pages|
    decreases |pages|
  {
    if pages != {} {
      var p :| p in pages;
      LeafPathsSize(pages - {p});
      assert LeafPaths(pages) == LeafPaths(pages - {p}) + {PagePath(p)};
    }
  }

  /** The tables below the root. */
  ghost function LowerTables(pages: set<nat>): set<Path> {
    set p, k | p in pages && 1 <= k < 4 :: PagePath(p)[..k]
  }

  lemma {:induction false} LowerTablesSize(pages: set<nat>)
    ensures |LowerTables(pages)| <= 3 * |pages|
    decreases |pages|
  {
    if pages != {} {
      var p :| p in pages;
      var x := PagePath(p);
      LowerTablesSize(pages - {p});
      assert LowerTables(pages) == LowerTables(pages - {p}) + {x[..1], x[..2], x[..3]};
    }
  }

  /** Three tables a page and the root are always enough. */
  lemma TablePathsSize(pages: set<nat>)
    ensures |TablePaths(pages)| <= 3 * |pages| + 1
  {
    LowerTablesSize(pages);
    var all := LowerTables(pages) + {[]};
    forall y | y in TablePaths(pages) ensures y in all {
      var p, k :| p in pages && 0 <= k < 4 && y == PagePath(p)[..k];
      if k > 0 { assert y in LowerTables(pages); }
    }
    CardGrows(TablePaths(pages), all);
  }

  ghost function PagesOf(s: Segment): set<nat>
    requires s.start <= s.end
  {
    FrameRange(s.start / PAGE, s.end / PAGE + 1)
  }

  /** Every page that a segment reaches into. */
  ghost function SegmentPages(code: Segment, rodata: Segment, data: Segment, stack: Segment): set<nat>
    requires Layout(code, rodata, data, stack)
  {
    PagesOf(code) + PagesOf(rodata) + PagesOf(data) + PagesOf(stack)
  }

  /** The pages of the segments do not depend on the markers. */
  lemma MarkersKeepPages(code: Segment, rodata: Segment, data: Segment, stack: Segment, rodata': Segment,
                         data': Segment)
    requires Layout(code, rodata, data, stack)
    requires rodata' == rodata.(nextFree := rodata'.nextFree) && data' == data.(nextFree := data'.nextFree)
    ensures SegmentPages(code, rodata', data', stack) == SegmentPages(code, rodata, data, stack)
  {
  }

  lemma PageInSegments(code: Segment, rodata: Segment, data: Segment, stack: Segment, address: nat)
    requires Layout(code, rodata, data, stack)
    requires InSegment(code, address) || InSegment(rodata, address) || InSegment(data, address)
             || InSegment(stack, address)
    ensures PageOf(address) == address / PAGE < PAGES && PageOf(address) in SegmentPages(code, rodata, data, stack)
  {
  }

  /** `split` frames hold the tables of these pages, the other frames the pages. */
  ghost predicate Enough(frames: nat, split: nat, pages: set<nat>) {
    |TablePaths(pages)| <= split && |pages| <= frames - split
  }

  function PageCount(s: Segment): nat
    requires s.start <= s.end
  {
    s.end / PAGE + 1 - s.start / PAGE
  }

  lemma PagesOfSize(s: Segment)
    requires s.start <= s.end
    ensures |PagesOf(s)| == PageCount(s)
  {
    RangeSize(s.start / PAGE, s.end / PAGE + 1);
  }

  /** A count of the segments' pages that a user of the machine can check. */
  lemma EnoughIf(frames: nat, split: nat, code: Segment, rodata: Segment, data: Segment, stack: Segment)
    requires Layout(code, rodata, data, stack)
    requires var n := PageCount(code) + PageCount(rodata) + PageCount(data) + PageCount(stack);
             3 * n + 1 <= split && n <= frames - split
    ensures Enough(frames, split, SegmentPages(code, rodata, data, stack))
  {
    PagesOfSize(code);
    PagesOfSize(rodata);
    PagesOfSize(data);
    PagesOfSize(stack);
    TablePathsSize(SegmentPages(code, rodata, data, stack));
  }
}
