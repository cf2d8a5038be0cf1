/**
  What unmapping pages does to them, and to the frames in use.
 */
module Pruning {
  import opened Common
  import opened Paging
  import opened Segments
  import opened Growth

  // ---- Removal of leaves ----

  lemma RemovedRights(m: seq<nat>, m': seq<nat>, root: nat, x: Path, roTop: nat)
    requires Rights(m, root, roTop) && Walk(m, root, [0]).Some? && Removed(m, m', root, x) && |x| == 4
    ensures Rights(m', root, roTop) && Walk(m', root, [0]).Some?
  {
    assert Asked([0]);
    forall path | Asked(path) ensures RightOf(m', root, path, roTop) {
      assert RightOf(m, root, path, roTop);
    }
  }

  /** After `invlpg` no cached translation goes through the removed entry. */
  lemma RemovedCoherent(tlb: map<nat, Hit>, m: seq<nat>, m': seq<nat>, root: nat, address: nat)
    requires Coherent(tlb, m, root) && Removed(m, m', root, Indices(address))
    ensures Coherent(tlb - {PageOf(address)}, m', root)
  {
    IndicesArePagePath(address);
    var tlb' := tlb - {PageOf(address)};
    forall p | p in tlb' ensures p < PAGES && Translate(m', root, p) == Some(tlb'[p]) {
      assert p in tlb && Asked(PagePath(p));
      if PagePath(p) == Indices(address) { PagePathInjective(p, PageOf(address)); }
    }
  }

  /** Exactly the leaves on visited paths are gone. */
  ghost predicate Pruned(m: seq<nat>, m': seq<nat>, root: nat, marker: nat, n: nat) {
    forall path {:trigger Asked(path)} :: Asked(path) ==>
      Walk(m', root, path) == if Visited(marker, n, path) then None else Walk(m, root, path)
  }

  lemma PrunedMore(m: seq<nat>, m1: seq<nat>, m2: seq<nat>, root: nat, marker: nat, n: nat)
    requires Pruned(m, m1, root, marker, n) && Removed(m1, m2, root, Indices(Back(marker, n + 1)))
    ensures Pruned(m, m2, root, marker, n + 1)
  {
    forall path | Asked(path)
      ensures Walk(m2, root, path) == if Visited(marker, n + 1, path) then None else Walk(m, root, path)
    {
      VisitedOneMore(marker, n, path);
    }
  }

  lemma BackStep(marker: nat, n: nat)
    ensures Back(Back(marker, n), 1) == Back(marker, n + 1)
  {
    assert PAGE * (n + 1) == PAGE * n + PAGE;
  }

  /** The frames that left the tree are those on visited paths. */
  lemma PrunedOwner(m: seq<nat>, m': seq<nat>, root: nat, owner: map<nat, Path>, owner': map<nat, Path>, marker: nat,
                    n: nat, f: nat)
    requires Owns(m, root, owner) && Owns(m', root, owner') && Pruned(m, m', root, marker, n)
    requires f in owner && (f in owner' ==> owner'[f] == owner[f])
    ensures f in owner' <==> !Visited(marker, n, owner[f])
  {
    assert Asked(owner[f]) && Leads(m, root, owner[f], f);
    if f in owner' {
      assert Leads(m', root, owner'[f], f);
    }
    if !Visited(marker, n, owner[f]) {
      WalkOwned(m', root, owner', owner[f]);
    }
  }

  /** One leaf, the one at path `x`, went from the tree to the pool and to the log of freed frames. */
  ghost predicate Released(owner: map<nat, Path>, userFree: set<nat>, freed: seq<nat>,
                           owner': map<nat, Path>, userFree': set<nat>, freed': seq<nat>, x: Path) {
    exists f :: f in owner && owner[f] == x && owner' == owner - {f}
                && userFree' == userFree + {f} && freed' == freed + [f]
  }

  /** `log` lists, each once, the frames that went from the tree to the pool. */
  ghost predicate Moved(owner: map<nat, Path>, userFree: set<nat>, owner': map<nat, Path>, userFree': set<nat>,
                        log: seq<nat>) {
    && Distinct(log)
    && (forall f :: f in owner' ==> f in owner && owner'[f] == owner[f])
    && (forall f :: f in log <==> f in owner && f !in owner')
    && (forall f :: f in userFree' <==> f in userFree || f in log)
  }

  lemma MovedMore(owner: map<nat, Path>, userFree: set<nat>, freed0: seq<nat>,
                  owner1: map<nat, Path>, userFree1: set<nat>, freed1: seq<nat>, log: seq<nat>,
                  owner2: map<nat, Path>, userFree2: set<nat>, freed2: seq<nat>, x: Path)
    returns (log': seq<nat>)
    requires Moved(owner, userFree, owner1, userFree1, log) && freed1 == freed0 + log
    requires || (freed2 == freed1 && owner2 == owner1 && userFree2 == userFree1)
             || Released(owner1, userFree1, freed1, owner2, userFree2, freed2, x)
    ensures Moved(owner, userFree, owner2, userFree2, log') && freed2 == freed0 + log'
  {
    log' := log;
    if freed2 != freed1 {
      var f :| f in owner1 && owner1[f] == x && owner2 == owner1 - {f}
               && userFree2 == userFree1 + {f} && freed2 == freed1 + [f];
      log' := log + [f];
    }
  }

  /** A request that fits moves the marker down by its bytes and unmaps the pages passed, and no other. */
  lemma PrunedFits(m: seq<nat>, m': seq<nat>, root: nat, s: Segment, size: nat)
    requires Pruned(m, m', root, s.nextFree, size)
    requires MarkerOk(s) && s.end < L4_SPAN && PAGE * size <= s.nextFree - s.start
    ensures Back(s.nextFree, size) == s.nextFree - PAGE * size
    ensures forall p: nat :: p < PAGES ==>
              Translate(m', root, p) ==
              if s.nextFree - PAGE * size <= PAGE * p < s.nextFree then None else Translate(m, root, p)
  {
    forall p: nat | p < PAGES
      ensures Translate(m', root, p) ==
              if s.nextFree - PAGE * size <= PAGE * p < s.nextFree then None else Translate(m, root, p)
    {
      assert Asked(PagePath(p));
      VisitedPages(s.nextFree, size, p);
    }
  }

  /** Shrinking within the segment keeps mapped pages below the marker, and does not reach the other segment. */
  lemma PrunedConfined(m: seq<nat>, m': seq<nat>, root: nat, s: Segment, size: nat, other: Segment)
    requires Pruned(m, m', root, s.nextFree, size) && ConfinedTo(m, root, s) && ConfinedTo(m, root, other)
    requires MarkerOk(s) && s.end < L4_SPAN && PAGE * size <= s.nextFree - s.start
    ensures ConfinedTo(m', root, s.(nextFree := Back(s.nextFree, size)))
    ensures ConfinedTo(m', root, other)
  {
    PrunedFits(m, m', root, s, size);
  }

  /** What an accepted shrink of the segment `s` does to its marker and to the pages of both segments. */
  lemma PrunedMarkers(m: seq<nat>, m': seq<nat>, root: nat, s: Segment, size: nat, other: Segment)
    requires Pruned(m, m', root, s.nextFree, size) && MarkerOk(s) && U32 <= s.start && s.end < L4_SPAN && size < U32
    ensures var t := s.(nextFree := Back(s.nextFree, size));
            && (MarkerOk(t) <==> PAGE * size <= s.nextFree - s.start)
            && (MarkerOk(t) && ConfinedTo(m, root, s) && ConfinedTo(m, root, other) ==>
                  ConfinedTo(m', root, t) && ConfinedTo(m', root, other))
            && (MarkerOk(t) ==> t.nextFree == s.nextFree - PAGE * size)
            && (MarkerOk(t) ==> forall p: nat :: p < PAGES ==>
                  Translate(m', root, p) == if t.nextFree <= PAGE * p < s.nextFree then None else Translate(m, root, p))
  {
    ShrinkGuard(s, size);
    if PAGE * size <= s.nextFree - s.start {
      PrunedFits(m, m', root, s, size);
      if ConfinedTo(m, root, s) && ConfinedTo(m, root, other) { PrunedConfined(m, m', root, s, size, other); }
    }
  }

  lemma ExpandMarker(s: Segment, size: nat)
    requires MarkerOk(s) && s.end < L4_SPAN && size <= 512
    ensures Add64(s.nextFree, PAGE * size) == s.nextFree + PAGE * size
    ensures s.nextFree + PAGE * size <= s.end ==> MarkerOk(s.(nextFree := s.nextFree + PAGE * size))
  {
  }

  lemma ExpandKeeps(m: seq<nat>, root: nat, s: Segment, size: nat)
    requires MarkerOk(s) && s.end < L4_SPAN && size <= 512 && Add64(s.nextFree, PAGE * size) <= s.end
    ensures var t := s.(nextFree := Add64(s.nextFree, PAGE * size));
            MarkerOk(t) && (ConfinedTo(m, root, s) ==> ConfinedTo(m, root, t))
  {
    ExpandMarker(s, size);
  }
}
