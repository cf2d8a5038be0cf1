/**
  What mapping pages does to the four-level tables: walks gained, rights, cached translations, frames taken.
 */
module Growth {
  import opened Common
  import opened Paging
  import opened Segments

  // ---- Growth of the tree along one path ----

  predicate Along(path: Path, target: Path) {
    0 < |path| <= |target| && path == target[..|path|]
  }

  ghost predicate NewAlong(m: seq<nat>, root: nat, path: Path, target: Path, flags: nat) {
    && Along(path, target)
    && Walk(m, root, path).Some?
    && Walk(m, root, path[..|path| - 1]).Some?
    && Walk(m, root, path).value.write == (Walk(m, root, path[..|path| - 1]).value.write && Writable(flags))
    && Walk(m, root, path).value.user == (Walk(m, root, path[..|path| - 1]).value.user && User(flags))
  }

  ghost predicate GrownAt(m: seq<nat>, m': seq<nat>, root: nat, path: Path, target: Path, flags: nat) {
    || Walk(m', root, path) == Walk(m, root, path)
    || (Walk(m, root, path).None? && NewAlong(m', root, path, target, flags))
  }

  /** `m'` has every walk of `m`, and new ones only along `target`, with `flags` at each new entry. */
  ghost predicate Grown(m: seq<nat>, m': seq<nat>, root: nat, target: Path, flags: nat) {
    forall path {:trigger Asked(path)} ::
      Asked(path) ==> GrownAt(m, m', root, path, target, flags)
  }

  lemma GrownTrans(m: seq<nat>, m1: seq<nat>, m2: seq<nat>, root: nat, target: Path, flags: nat)
    requires Grown(m, m1, root, target, flags) && Grown(m1, m2, root, target, flags)
    ensures Grown(m, m2, root, target, flags)
  {
    forall path | Asked(path)
      ensures GrownAt(m, m2, root, path, target, flags)
    {
      assert GrownAt(m, m1, root, path, target, flags) && GrownAt(m1, m2, root, path, target, flags);
      if Walk(m1, root, path) != Walk(m, root, path) {
        assert Asked(path[..|path| - 1]);
      }
    }
  }

  /** Installing one entry at the end of a walked prefix of `target` is growth along it. */
  lemma InstallGrows(m: seq<nat>, m': seq<nat>, root: nat, owner: map<nat, Path>, t: nat, i: nat, f: nat, target: Path,
                     flags: nat)
    requires Target(m, root, owner, t, i) && !Present(Word(m, t, i))
    requires Fresh(m, owner, t, f) && flags < 8 && Present(flags)
    requires Along(owner[t] + [i], target)
    requires m' == m[ENTRIES * t + i := Encode(f, flags)]
    ensures Owns(m', root, owner[f := owner[t] + [i]])
    ensures Grown(m, m', root, target, flags)
  {
    Install(m, m', root, owner, t, i, f, flags);
    WalkAbsent(m, root, owner, t, i);
    EncodeDecode(f, flags);
    var new_ := owner[t] + [i];
    assert new_[..|new_| - 1] == owner[t];
    assert Leads(m, root, owner[t], t);
    assert owner[t] != new_ && Asked(owner[t]);
    forall path | Asked(path) ensures GrownAt(m, m', root, path, target, flags) {
    }
  }

  // ---- Frames that a mapping takes ----

  function Absent(m: seq<nat>, root: nat, path: Path): nat {
    if Walk(m, root, path).None? then 1 else 0
  }

  /** How many of the three upper tables on the way along `x` have to be allocated. */
  function Missing(m: seq<nat>, root: nat, x: Path): nat
    requires |x| >= 3
  {
    Absent(m, root, x[..1]) + Absent(m, root, x[..2]) + Absent(m, root, x[..3])
  }

  lemma AbsentGrown(m: seq<nat>, m': seq<nat>, root: nat, target: Path, flags: nat, path: Path)
    requires Grown(m, m', root, target, flags) && Bounded(path)
    ensures Absent(m', root, path) <= Absent(m, root, path)
  {
    assert Asked(path) && GrownAt(m, m', root, path, target, flags);
  }

  lemma SameThenGrown(m: seq<nat>, m1: seq<nat>, m2: seq<nat>, root: nat, target: Path, flags: nat)
    requires SameWalks(m, m1, root) && Grown(m1, m2, root, target, flags)
    ensures Grown(m, m2, root, target, flags)
  {
    forall path | Asked(path) ensures GrownAt(m, m2, root, path, target, flags) {
      assert GrownAt(m1, m2, root, path, target, flags);
    }
  }

  lemma GrownWiden(m: seq<nat>, m': seq<nat>, root: nat, x: Path, flags: nat)
    requires |x| == 4 && Grown(m, m', root, x[..3], flags) && Bounded(x)
    ensures Grown(m, m', root, x, flags) && Walk(m', root, x) == Walk(m, root, x)
  {
    forall path | Asked(path) ensures GrownAt(m, m', root, path, x, flags) {
      assert GrownAt(m, m', root, path, x[..3], flags);
      if Along(path, x[..3]) { assert x[..3][..|path|] == x[..|path|]; }
    }
    assert Asked(x) && GrownAt(m, m', root, x, x[..3], flags);
  }

  ghost predicate ShapeAt(m: seq<nat>, root: nat, path: Path, targets: seq<Path>) {
    Walk(m, root, path).Some? <==> |path| == 0 || exists k :: 0 <= k < |targets| && Along(path, targets[k])
  }

  /** Exactly the root and the prefixes of `targets` are walked. */
  ghost predicate OnlyAlong(m: seq<nat>, root: nat, targets: seq<Path>) {
    forall path {:trigger Asked(path)} :: Asked(path) ==> ShapeAt(m, root, path, targets)
  }

  /** The tables of a prepared context: those of three pages. */
  ghost predicate Prepared(m: seq<nat>, root: nat, a: Path, b: Path, c: Path) {
    OnlyAlong(m, root, [a] + [b] + [c])
  }

  lemma PreparedAt(m: seq<nat>, root: nat, a: Path, b: Path, c: Path, path: Path)
    requires Prepared(m, root, a, b, c) && Bounded(path)
    ensures Walk(m, root, path).Some? <==> |path| == 0 || Along(path, a) || Along(path, b) || Along(path, c)
  {
    var ts := [a] + [b] + [c];
    assert ts[0] == a && ts[1] == b && ts[2] == c;
    assert Asked(path) && ShapeAt(m, root, path, ts);
  }

  lemma {:induction false} PrefixWalked(m: seq<nat>, root: nat, path: Path, k: nat)
    requires Walk(m, root, path).Some? && k <= |path|
    ensures Walk(m, root, path[..k]).Some?
    decreases |path|
  {
    if k == |path| {
      assert path[..k] == path;
    } else {
      assert path[..|path| - 1][..k] == path[..k];
      PrefixWalked(m, root, path[..|path| - 1], k);
    }
  }

  lemma PrefixesWalked(m: seq<nat>, root: nat, x: Path)
    requires |x| >= 3
    ensures Walk(m, root, x).Some? ==> Walk(m, root, x[..3]).Some?
    ensures Walk(m, root, x[..3]).Some? ==> Walk(m, root, x[..2]).Some? && Walk(m, root, x[..1]).Some?
  {
    if Walk(m, root, x).Some? { PrefixWalked(m, root, x, 3); }
    if Walk(m, root, x[..3]).Some? {
      PrefixWalked(m, root, x[..3], 1);
      PrefixWalked(m, root, x[..3], 2);
      assert x[..3][..1] == x[..1] && x[..3][..2] == x[..2];
    }
  }

  lemma {:induction false} RootOnly(m: seq<nat>, root: nat, path: Path)
    requires Blank(m, root) && Bounded(path)
    ensures Walk(m, root, path).Some? <==> |path| == 0
    decreases |path|
  {
    if |path| > 0 {
      RootOnly(m, root, path[..|path| - 1]);
    }
  }

  lemma NotAlong(m: seq<nat>, root: nat, targets: seq<Path>, x: Path)
    requires OnlyAlong(m, root, targets) && Bounded(x) && |x| == 4
    requires forall k :: 0 <= k < |targets| ==> |targets[k]| == 4 && targets[k] != x
    ensures Walk(m, root, x).None?
  {
    forall k | 0 <= k < |targets| ensures !Along(x, targets[k]) {
      assert targets[k][..4] == targets[k];
    }
    assert Asked(x) && ShapeAt(m, root, x, targets);
  }

  lemma OnlyAlongMore(m: seq<nat>, m': seq<nat>, root: nat, targets: seq<Path>, target: Path, flags: nat)
    requires OnlyAlong(m, root, targets) && Grown(m, m', root, target, flags) && Walk(m', root, target).Some?
    requires Bounded(target)
    ensures OnlyAlong(m', root, targets + [target])
  {
    forall path | Asked(path)
      ensures ShapeAt(m', root, path, targets + [target])
    {
      assert ShapeAt(m, root, path, targets);
      assert GrownAt(m, m', root, path, target, flags);
      if Along(path, target) {
        PrefixWalked(m', root, target, |path|);
        assert (targets + [target])[|targets|] == target;
      }
      if k :| 0 <= k < |targets| && Along(path, targets[k]) {
        assert (targets + [target])[k] == targets[k];
      }
    }
  }

  lemma LeafEntry(m: seq<nat>, root: nat, owner: map<nat, Path>, t: nat, x: Path)
    requires Owns(m, root, owner) && t in owner && |x| == 4 && Bounded(x) && owner[t] == x[..3]
    ensures Walk(m, root, x).Some? <==> Present(Word(m, t, x[3]))
    ensures Walk(m, root, x).Some? ==> Walk(m, root, x).value.frame == Frame(Word(m, t, x[3]))
  {
    assert x == owner[t] + [x[3]];
    assert Leads(m, root, owner[t], t);
    WalkAbsent(m, root, owner, t, x[3]);
  }

  ghost predicate RightOf(m: seq<nat>, root: nat, path: Path, roTop: nat) {
    |path| > 0 && Walk(m, root, path).Some? ==>
      && path[0] == 0 && Walk(m, root, path).value.user
      && (|path| == 1 ==> Walk(m, root, path).value.write)
      && (|path| >= 2 ==> (Walk(m, root, path).value.write <==> path[1] > roTop))
  }

  /**
    Every walk is user-accessible and under L4 entry 0; below L3 it is writable exactly outside the read-only
    slots.
   */
  ghost predicate Rights(m: seq<nat>, root: nat, roTop: nat) {
    forall path {:trigger Asked(path)} :: Asked(path) ==> RightOf(m, root, path, roTop)
  }

  /** The tree that holds its root only gives no rights. */
  lemma EmptyRights(m: seq<nat>, root: nat, roTop: nat)
    requires OnlyAlong(m, root, [])
    ensures Rights(m, root, roTop)
  {
    forall path | Asked(path) ensures RightOf(m, root, path, roTop) {
      assert ShapeAt(m, root, path, []);
    }
  }

  // ---- Access rights ----

  lemma {:induction false} RightsGrownAt(m: seq<nat>, m': seq<nat>, root: nat, roTop: nat, target: Path, flags: nat,
                                         path: Path)
    requires Rights(m, root, roTop) && Grown(m, m', root, target, flags)
    requires Bounded(target) && |target| == 4 && target[0] == 0 && User(flags)
    requires Writable(flags) <==> target[1] > roTop
    requires Writable(flags) || Walk(m, root, target[..1]).Some?
    requires Bounded(path)
    ensures RightOf(m', root, path, roTop)
    decreases |path|
  {
    assert Asked(path) && GrownAt(m, m', root, path, target, flags);
    assert RightOf(m, root, path, roTop);
    if |path| > 0 && Walk(m', root, path) != Walk(m, root, path) {
      var q := path[..|path| - 1];
      assert NewAlong(m', root, path, target, flags);
      if |path| > 1 {
        assert Bounded(q) && Walk(m', root, q).Some?;
        RightsGrownAt(m, m', root, roTop, target, flags, q);
      }
    }
  }

  lemma RightsGrown(m: seq<nat>, m': seq<nat>, root: nat, roTop: nat, target: Path, flags: nat)
    requires Rights(m, root, roTop) && Grown(m, m', root, target, flags)
    requires Bounded(target) && |target| == 4 && target[0] == 0 && User(flags)
    requires Writable(flags) <==> target[1] > roTop
    requires Writable(flags) || Walk(m, root, target[..1]).Some?
    ensures Rights(m', root, roTop)
  {
    forall path | Asked(path)
      ensures RightOf(m', root, path, roTop)
    {
      RightsGrownAt(m, m', root, roTop, target, flags, path);
    }
  }

  // ---- The TLB ----

  ghost predicate Coherent(tlb: map<nat, Hit>, m: seq<nat>, root: nat) {
    forall p :: p in tlb ==> p < PAGES && Translate(m, root, p) == Some(tlb[p])
  }

  /** Growth along the path of an address changes the translation of no other page. */
  lemma GrownPages(m: seq<nat>, m': seq<nat>, root: nat, address: nat, flags: nat, p: nat)
    requires Grown(m, m', root, Indices(address), flags) && p < PAGES
    ensures Translate(m', root, p) == Translate(m, root, p) ||
            (p == PageOf(address) && Translate(m, root, p).None?)
  {
    var path := PagePath(p);
    assert Asked(path) && GrownAt(m, m', root, path, Indices(address), flags);
    IndicesArePagePath(address);
    if Along(path, Indices(address)) {
      assert path == Indices(address);
      PagePathInjective(p, PageOf(address));
    }
  }

  /** Growth adds translations and changes none, so cached ones stay right. */
  lemma GrownCoherent(tlb: map<nat, Hit>, m: seq<nat>, m': seq<nat>, root: nat, target: Path, flags: nat)
    requires Coherent(tlb, m, root) && Grown(m, m', root, target, flags)
    ensures Coherent(tlb, m', root)
  {
    forall p | p in tlb ensures Translate(m', root, p) == Some(tlb[p]) {
      assert Asked(PagePath(p)) && GrownAt(m, m', root, PagePath(p), target, flags);
    }
  }

  lemma SameCoherent(tlb: map<nat, Hit>, m: seq<nat>, m': seq<nat>, root: nat)
    requires Coherent(tlb, m, root) && SameWalks(m, m', root)
    ensures Coherent(tlb, m', root)
  {
    forall p | p in tlb ensures Translate(m', root, p) == Some(tlb[p]) {
      assert Asked(PagePath(p));
    }
  }

  /** `t` holds what `tlb` holds, and possibly more. */
  ghost predicate Fills(tlb: map<nat, Hit>, t: map<nat, Hit>) {
    forall p :: p in tlb ==> p in t && t[p] == tlb[p]
  }

  /** No translation changed, except that `page` may have gained one. */
  ghost predicate OthersKept(m: seq<nat>, m': seq<nat>, root: nat, page: nat) {
    forall p: nat :: p < PAGES ==>
      Translate(m', root, p) == Translate(m, root, p) || (p == page && Translate(m, root, p).None?)
  }

  /** What mapping the page of an address does to rights and translations. */
  lemma MappedPage(m: seq<nat>, m': seq<nat>, root: nat, address: nat, flags: nat, roTop: nat)
    requires Rights(m, root, roTop) && Walk(m, root, [0]).Some?
    requires Grown(m, m', root, Indices(address), flags) && Walk(m', root, Indices(address)).Some?
    requires address < L4_SPAN && User(flags) && (Writable(flags) <==> address / L3_SPAN > roTop)
    ensures Rights(m', root, roTop) && Walk(m', root, [0]).Some?
    ensures var t := Translate(m', root, PageOf(address));
            t == Walk(m', root, Indices(address)) && t.value.user && t.value.write == Writable(flags)
    ensures OthersKept(m, m', root, PageOf(address))
  {
    var x := Indices(address);
    IndicesArePagePath(address);
    TopIndices(address);
    assert x[..1] == [0];
    RightsGrown(m, m', root, roTop, x, flags);
    assert Asked([0]) && GrownAt(m, m', root, [0], x, flags);
    assert Asked(x) && RightOf(m', root, x, roTop);
    forall p: nat | p < PAGES
      ensures Translate(m', root, p) == Translate(m, root, p) ||
              (p == PageOf(address) && Translate(m, root, p).None?)
    {
      GrownPages(m, m', root, address, flags, p);
    }
  }

  /** No walk is new but along `x`. */
  ghost predicate NewOnlyAlong(m: seq<nat>, m': seq<nat>, root: nat, x: Path) {
    forall path {:trigger Asked(path)} ::
      Asked(path) && Walk(m', root, path).Some? ==> Walk(m, root, path).Some? || Along(path, x)
  }

  /** The same for the path `x` of the address. */
  lemma MappedUser(m: seq<nat>, m': seq<nat>, root: nat, address: nat, x: Path, flags: nat, roTop: nat)
    requires x == Indices(address) && Rights(m, root, roTop) && Walk(m, root, [0]).Some?
    requires Grown(m, m', root, x, flags) && Walk(m', root, x).Some?
    requires address < L4_SPAN && User(flags) && (Writable(flags) <==> address / L3_SPAN > roTop)
    ensures Rights(m', root, roTop) && Walk(m', root, [0]).Some? && NewOnlyAlong(m, m', root, x)
    ensures Translate(m, root, PageOf(address)) == Walk(m, root, x)
    ensures var t := Translate(m', root, PageOf(address));
            t == Walk(m', root, x) && t.value.user && t.value.write == Writable(flags)
    ensures OthersKept(m, m', root, PageOf(address))
  {
    IndicesArePagePath(address);
    MappedPage(m, m', root, address, flags, roTop);
    forall path | Asked(path) && Walk(m', root, path).Some? ensures Walk(m, root, path).Some? || Along(path, x) {
      assert GrownAt(m, m', root, path, x, flags);
    }
  }

  /** Every mapped page of the segment lies below its marker. */
  ghost predicate ConfinedTo(m: seq<nat>, root: nat, s: Segment) {
    forall p: nat :: p < PAGES && Translate(m, root, p).Some? && InSegment(s, PAGE * p) ==> PAGE * p < s.nextFree
  }

  lemma MappedConfined(m: seq<nat>, m': seq<nat>, root: nat, s: Segment, fault: nat)
    requires ConfinedTo(m, root, s) && fault < L4_SPAN && Translate(m', root, PageOf(fault)).Some?
    requires OthersKept(m, m', root, PageOf(fault))
    ensures ConfinedTo(m', root, s) <==> (InSegment(s, PAGE * (fault / PAGE)) ==> PAGE * (fault / PAGE) < s.nextFree)
  {
    assert PageOf(fault) == fault / PAGE;
  }

  lemma PathOfPage(a: nat, p: nat)
    requires a < L4_SPAN && p < PAGES
    ensures PagePath(p) == Indices(a) <==> p == a / PAGE
  {
    IndicesArePagePath(a);
    assert PageOf(a) == a / PAGE;
    if PagePath(p) == Indices(a) { PagePathInjective(p, a / PAGE); }
  }

  /** The pages mapped straight after `prepare_context_mm`. */
  lemma PreparedPages(m: seq<nat>, root: nat, a: nat, b: nat, c: nat, p: nat)
    requires a < L4_SPAN && b < L4_SPAN && c < L4_SPAN && p < PAGES
    requires Prepared(m, root, Indices(a), Indices(b), Indices(c))
    ensures Translate(m, root, p).Some? <==> p == a / PAGE || p == b / PAGE || p == c / PAGE
  {
    var x, i, j, k := PagePath(p), Indices(a), Indices(b), Indices(c);
    PreparedAt(m, root, i, j, k, x);
    assert x[..4] == x && i[..4] == i && j[..4] == j && k[..4] == k;
    PathOfPage(a, p);
    PathOfPage(b, p);
    PathOfPage(c, p);
  }

  lemma StackPageApart(data: Segment, stack: Segment)
    requires data.end < stack.start < stack.end && stack.start % PAGE == 0
    ensures PAGE * (Top(stack) / PAGE) > data.end
  {
  }

  /**
    Straight after `prepare_context_mm` the used parts hold every mapped page exactly when the data segment
    starts with one in use.
   */
  lemma PreparedConfined(m: seq<nat>, root: nat, code: Segment, rodata: Segment, data: Segment, stack: Segment)
    requires Layout(code, rodata, data, stack)
    requires Prepared(m, root, Indices(Top(stack)), Indices(code.start), Indices(data.start))
    ensures ConfinedTo(m, root, data) && ConfinedTo(m, root, rodata) <==> data.start < data.nextFree
  {
    forall p: nat | p < PAGES
      ensures Translate(m, root, p).Some? <==>
              p == Top(stack) / PAGE || p == code.start / PAGE || p == data.start / PAGE
    {
      PreparedPages(m, root, Top(stack), code.start, data.start, p);
    }
    StackPageApart(data, stack);
    var q := data.start / PAGE;
    assert PAGE * q == data.start && InSegment(data, PAGE * q);
  }

  /** The first byte of the page at the marker is the only admitted address that lies outside a segment's used part. */
  lemma PageAtMarker(code: Segment, rodata: Segment, data: Segment, stack: Segment, fault: nat)
    requires Layout(code, rodata, data, stack) && MarkerOk(rodata) && MarkerOk(data)
    ensures InSegment(data, fault) && fault <= data.nextFree ==>
              && (InSegment(data, PAGE * (fault / PAGE)) && PAGE * (fault / PAGE) >= data.nextFree <==>
                fault == data.nextFree)
              && !InSegment(rodata, PAGE * (fault / PAGE)) && fault != rodata.nextFree
    ensures InSegment(rodata, fault) && fault <= rodata.nextFree ==>
              && (InSegment(rodata, PAGE * (fault / PAGE)) && PAGE * (fault / PAGE) >= rodata.nextFree <==>
                fault == rodata.nextFree)
              && !InSegment(data, PAGE * (fault / PAGE)) && fault != data.nextFree
    ensures InSegment(stack, fault) ==>
              && !InSegment(data, PAGE * (fault / PAGE)) && !InSegment(rodata, PAGE * (fault / PAGE))
              && fault != data.nextFree && fault != rodata.nextFree
  {
  }

  /** After an admitted fault the used parts still hold every mapped page exactly when it was not at a marker. */
  lemma FaultConfined(m: seq<nat>, m': seq<nat>, root: nat, code: Segment, rodata: Segment, data: Segment,
                      stack: Segment, fault: nat, error: nat)
    requires Layout(code, rodata, data, stack) && MarkerOk(rodata) && MarkerOk(data)
    requires ConfinedTo(m, root, data) && ConfinedTo(m, root, rodata) && Admits(rodata, data, stack, fault, error)
    requires Translate(m', root, PageOf(fault)).Some? && OthersKept(m, m', root, PageOf(fault))
    ensures ConfinedTo(m', root, data) && ConfinedTo(m', root, rodata) <==>
            fault != data.nextFree && fault != rodata.nextFree
  {
    MappedConfined(m, m', root, data, fault);
    MappedConfined(m, m', root, rodata, fault);
    PageAtMarker(code, rodata, data, stack, fault);
  }
}
