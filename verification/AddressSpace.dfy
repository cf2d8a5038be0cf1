/**
  One context's address space: the four-level tables built by `prepare_context_mm`, grown by page
  faults and pruned by `shrink`, with the frame allocator and the TLB they act on.
 */
module AddressSpaces {
  import opened Common
  import opened Paging
  import opened Segments
  import opened Growth
  import opened Pruning
  import opened Teardown
  import opened Spaces
  import opened Room

  class AddressSpace {
    const frames: nat
    const split: nat       // frames below it form OS_PT_REG, the others USER_REG
    const mem: array<nat>
    var argPfn: nat
    var pgd: nat
    var code: Segment
    var rodata: Segment
    var data: Segment
    var stack: Segment
    var osFree: set<nat>
    var userFree: set<nat>
    ghost var tlb: map<nat, Hit>   // the processor's cached translations
    ghost var freed: seq<nat>
    ghost var owner: map<nat, Path>
    ghost var accounted: set<nat>

    /**
      A machine before any context: `split` frames for tables, the others but the argument page for users,
      nothing mapped.
     */
    constructor (frames: nat, split: nat, argPfn: nat, code: Segment, rodata: Segment, data: Segment, stack: Segment)
      requires split <= argPfn < frames <= MAX_FRAMES && Layout(code, rodata, data, stack)
      requires rodata.nextFree < U64 && data.nextFree < U64
      ensures Booted() && Conserved() && freed == [] && fresh(mem)
      ensures this.frames == frames && this.split == split && this.argPfn == argPfn
      ensures this.code == code && this.rodata == rodata && this.data == data && this.stack == stack
      ensures osFree == FrameRange(0, split) && userFree == FrameRange(split, frames) - {argPfn}
      ensures |osFree| == split && |userFree| == frames - split - 1
      ensures accounted == FrameRange(0, frames) - {argPfn} && accounted + {argPfn} == FrameRange(0, frames)
    {
      this.frames, this.split, this.argPfn, pgd := frames, split, argPfn, 0;
      this.code, this.rodata, this.data, this.stack := code, rodata, data, stack;
      mem := new nat[ENTRIES * frames];
      osFree, userFree := FrameRange(0, split), FrameRange(split, frames) - {argPfn};
      tlb, freed, owner := map[], [], map[];
      accounted := FrameRange(0, frames) - {argPfn};
      RangeSizes(frames, split, argPfn);
    }

    ghost predicate Sized()
      reads `argPfn
    {
      mem.Length == ENTRIES * frames && split <= frames <= MAX_FRAMES && split <= argPfn < frames
    }

    /** The allocator's pools, the tree and the frames in use are consistent with each other. */
    ghost predicate Tree()
      reads `pgd, `argPfn, `osFree, `userFree, `owner, mem
    {
      && Sized()
      && (forall f :: f in osFree ==> f < split)
      && (forall f :: f in userFree ==> split <= f < frames)
      && osFree !! owner.Keys && userFree !! owner.Keys
      && (forall f :: f in owner ==> f < frames && (|owner[f]| < 4 <==> f < split))
      && Owns(mem[..], pgd, owner)
    }

    /** What a walk that writes nothing relies on. */
    ghost predicate Readable()
      reads `pgd, `argPfn, `owner, mem
    {
      Sized() && Owns(mem[..], pgd, owner)
    }

    /** No frame is lost and none appears: the accounted frames are those in the pools and in the tree. */
    ghost predicate Conserved()
      reads `osFree, `userFree, `owner, `accounted
    {
      forall f: nat :: f in accounted <==> f in osFree || f in userFree || f in owner
    }

    ghost function At(path: Path): Option<Hit>
      reads `pgd, mem
    {
      Walk(mem[..], pgd, path)
    }

    ghost function Page(page: nat): Option<Hit>
      reads `pgd, mem
    {
      Translate(mem[..], pgd, page)
    }

    /** The invariant of every run after `PrepareContextMm`. */
    ghost predicate Valid()
      reads this, mem
    {
      && Tree()
      && Layout(code, rodata, data, stack) && rodata.nextFree < U64 && data.nextFree < U64
      && Rights(mem[..], pgd, rodata.end / L3_SPAN)
      && At([0]).Some?
      && Coherent(tlb, mem[..], pgd)
    }

    lemma Whole()
      requires Tree() && Layout(code, rodata, data, stack) && rodata.nextFree < U64 && data.nextFree < U64
      requires Rights(mem[..], pgd, rodata.end / L3_SPAN) && At([0]).Some? && Coherent(tlb, mem[..], pgd)
      ensures Valid()
    {
    }

    /** Every translation the processor has cached is that of the tables. */
    ghost predicate Warm()
      reads `tlb, `pgd, mem
    {
      Coherent(tlb, mem[..], pgd)
    }

    ghost predicate Markers()
      reads `rodata, `data
    {
      MarkerOk(rodata) && MarkerOk(data)
    }

    /** Every mapped RODATA or DATA page lies below its segment's marker. */
    ghost predicate Confined()
      reads this, mem
    {
      ConfinedTo(mem[..], pgd, data) && ConfinedTo(mem[..], pgd, rodata)
    }

    // ---- The allocator ----

    method ZeroFill(f: nat)
      requires ENTRIES * f + ENTRIES <= mem.Length
      modifies mem
      ensures Blank(mem[..], f)
      ensures forall k: nat :: k < mem.Length && !(ENTRIES * f <= k < ENTRIES * f + ENTRIES) ==> mem[k] == old(mem[k])
      ensures forall k :: ENTRIES * f <= k < ENTRIES * f + ENTRIES ==> mem[k] == 0
    {
      for i := 0 to ENTRIES
        invariant forall k :: ENTRIES * f <= k < ENTRIES * f + i ==> mem[k] == 0
        invariant forall k: nat :: k < mem.Length && !(ENTRIES * f <= k < ENTRIES * f + ENTRIES) ==>
                  mem[k] == old(mem[k])
      {
        mem[ENTRIES * f + i] := 0;
      }
    }

    /** `os_pfn_alloc(OS_PT_REG)`: some free frame, filled with zeros. */
    method AllocTable() returns (f: nat)
      requires Warm()
      requires Tree() && osFree != {}
      modifies `osFree, mem
      ensures Warm()
      ensures Tree()
      ensures f in old(osFree) && osFree == old(osFree) - {f}
      ensures Blank(mem[..], f)
      ensures SameTables(old(mem[..]), mem[..], owner)
      ensures SameWalks(old(mem[..]), mem[..], pgd)
    {
      ghost var m := mem[..];
      f :| f in osFree;
      osFree := osFree - {f};
      ZeroFill(f);
      ZeroFilled(m, mem[..], owner, f);
      Outside(m, mem[..], pgd, owner);
      SameCoherent(tlb, m, mem[..], pgd);
    }

    /** `os_pfn_free`: the frame returns to its pool, and the call is recorded. */
    method PfnFree(region: Region, pfn: nat)
      modifies `osFree, `userFree, `freed
      ensures freed == old(freed) + [pfn]
      ensures osFree == if region == OsPtReg then old(osFree) + {pfn} else old(osFree)
      ensures userFree == if region == UserReg then old(userFree) + {pfn} else old(userFree)
    {
      freed := freed + [pfn];
      if region == OsPtReg {
        osFree := osFree + {pfn};
      } else {
        userFree := userFree + {pfn};
      }
    }

    // ---- The TLB ----

    /** The processor may cache the translation of a present page at any time. */
    ghost method TlbFill(page: nat)
      requires Valid() && page < PAGES && Page(page).Some?
      modifies `tlb
      ensures Valid()
      ensures tlb == old(tlb)[page := Page(page).value]
    {
      tlb := tlb[page := Page(page).value];
    }

    /** Between any two steps of a handler, the processor may have cached translations that are present. */
    ghost method MayFill()
      requires Warm()
      modifies `tlb
      ensures Warm() && Fills(old(tlb), tlb)
    {
      assert Fills(tlb, tlb);
      var t: map<nat, Hit> :| Coherent(t, mem[..], pgd) && Fills(tlb, t);
      tlb := t;
    }

    /** The same while the entry of `page` is cleared and its cached translation not yet dropped. */
    ghost method MayFillBut(page: nat)
      requires Coherent(tlb - {page}, mem[..], pgd)
      modifies `tlb
      ensures Coherent(tlb - {page}, mem[..], pgd) && Fills(old(tlb), tlb)
    {
      assert Fills(tlb, tlb);
      var t: map<nat, Hit> :| Coherent(t - {page}, mem[..], pgd) && Fills(tlb, t);
      tlb := t;
    }

    // ---- Mapping ----

    /** `*(table + i) = (f << PTEoffset) | flags` at an absent entry, with `f` taken from outside the tree. */
    method WriteEntry(t: nat, i: nat, f: nat, flags: nat, ghost target: Path)
      requires Warm()
      requires Tree() && t in owner && |owner[t]| < 4 && i < ENTRIES && !Present(Word(mem[..], t, i))
      requires f < frames && f !in osFree && f !in userFree && Fresh(mem[..], owner, t, f)
      requires |owner[t]| < 3 <==> f < split
      requires flags < 8 && Present(flags) && Along(owner[t] + [i], target)
      modifies `tlb, `owner, mem
      ensures Warm()
      ensures Tree()
      ensures owner == old(owner)[f := old(owner)[t] + [i]]
      ensures Word(mem[..], t, i) == 4096 * f + flags
      ensures Grown(old(mem[..]), mem[..], pgd, target, flags)
    {
      ghost var m := mem[..];
      EncodeDecode(f, flags);
      MayFill();
      mem[ENTRIES * t + i] := Encode(f, flags);
      assert mem[..] == m[ENTRIES * t + i := Encode(f, flags)];
      assert Leads(m, pgd, owner[t], t);
      InstallGrows(m, mem[..], pgd, owner, t, i, f, target, flags);
      owner := owner[f := owner[t] + [i]];
      GrownCoherent(tlb, m, mem[..], pgd, target, flags);
    }

    /** The `else` branch of one upper level: `pfn = os_pfn_alloc(OS_PT_REG)` and the entry written to it. */
    method NewTable(t: nat, i: nat, flags: nat, ghost target: Path) returns (child: nat)
      requires Warm()
      requires Conserved()
      requires Tree() && t in owner && |owner[t]| < 3 && i < ENTRIES && osFree != {}
      requires !Present(Word(mem[..], t, i))
      requires flags < 8 && Present(flags) && Along(owner[t] + [i], target)
      modifies `tlb, `osFree, `owner, mem
      ensures Warm()
      ensures Conserved()
      ensures Tree()
      ensures child in old(osFree) && osFree == old(osFree) - {child}
      ensures owner == old(owner)[child := old(owner)[t] + [i]] && child !in old(owner)
      ensures Grown(old(mem[..]), mem[..], pgd, target, flags)
    {
      ghost var m := mem[..];
      child := AllocTable();
      ghost var m1 := mem[..];
      WriteEntry(t, i, child, flags, target);
      SameThenGrown(m, m1, mem[..], pgd, target, flags);
    }

    /** One upper level, `k` indices into `x`: follow the entry, or point it at a new table. */
    method NextTable(t: nat, x: Path, k: nat, flags: nat) returns (child: nat)
      requires Warm()
      requires Conserved()
      requires Tree() && Bounded(x) && k < |x| <= 3 && t in owner && owner[t] == x[..k]
      requires At(x[..k + 1]).None? ==> osFree != {}
      requires flags < 8 && Present(flags)
      modifies `tlb, `osFree, `owner, mem
      ensures Warm()
      ensures Tree()
      ensures child in owner && owner[child] == x[..k + 1]
      ensures Grown(old(mem[..]), mem[..], pgd, x, flags)
      ensures |osFree| + Absent(old(mem[..]), pgd, x[..k + 1]) == |old(osFree)|
      ensures Conserved()
    {
      assert owner[t] + [x[k]] == x[..k + 1];
      var e := mem[ENTRIES * t + x[k]];
      assert Word(mem[..], t, x[k]) == e;
      WalkAbsent(mem[..], pgd, owner, t, x[k]);
      if Present(e) {
        child := Frame(e);
      } else {
        child := NewTable(t, x[k], flags, x);
      }
    }

    /** Levels 4 and 3. */
    method WalkUpper(x: Path, flags: nat) returns (pfnL2: nat)
      requires Warm()
      requires Conserved()
      requires Tree() && flags < 8 && Present(flags) && Bounded(x) && |x| == 3
      requires |osFree| >= Absent(mem[..], pgd, x[..1]) + Absent(mem[..], pgd, x[..2])
      modifies `tlb, `osFree, `owner, mem
      ensures Warm()
      ensures Tree()
      ensures pfnL2 in owner && owner[pfnL2] == x[..2]
      ensures Grown(old(mem[..]), mem[..], pgd, x, flags)
      ensures |osFree| + Absent(old(mem[..]), pgd, x[..1]) + Absent(old(mem[..]), pgd, x[..2]) >= |old(osFree)|
      ensures Conserved()
    {
      ghost var m := mem[..];
      assert x[..0] == owner[pgd];
      var pfnL3 := NextTable(pgd, x, 0, flags);
      ghost var m1 := mem[..];
      AbsentGrown(m, m1, pgd, x, flags, x[..2]);
      pfnL2 := NextTable(pfnL3, x, 1, flags);
      GrownTrans(m, m1, mem[..], pgd, x, flags);
    }

    /** Levels 4, 3 and 2 of the walk along the indices `x`. */
    method WalkTables(x: Path, flags: nat) returns (pfnL1: nat)
      requires Warm()
      requires Conserved()
      requires Tree() && flags < 8 && Present(flags) && Bounded(x) && |x| == 3
      requires |osFree| >= Missing(mem[..], pgd, x)
      modifies `tlb, `osFree, `owner, mem
      ensures Warm()
      ensures Tree()
      ensures pfnL1 in owner && owner[pfnL1] == x
      ensures Grown(old(mem[..]), mem[..], pgd, x, flags)
      ensures |osFree| + Missing(old(mem[..]), pgd, x) >= |old(osFree)|
      ensures Conserved()
    {
      ghost var m := mem[..];
      assert x[..3] == x;
      var pfnL2 := WalkUpper(x, flags);
      ghost var m2 := mem[..];
      AbsentGrown(m, m2, pgd, x, flags, x);
      pfnL1 := NextTable(pfnL2, x, 2, flags);
      GrownTrans(m, m2, mem[..], pgd, x, flags);
    }

    /** `*(l1addr + offsetL1) = (dataPFN << PTEoffset) | flags`, with `dataPfn` already taken from USER_REG. */
    method WriteLeaf(pfnL1: nat, x: Path, dataPfn: nat, flags: nat)
      requires Warm()
      requires Tree() && |x| == 4 && Bounded(x) && pfnL1 in owner && owner[pfnL1] == x[..3]
      requires !Present(Word(mem[..], pfnL1, x[3]))
      requires split <= dataPfn < frames && dataPfn !in userFree && dataPfn !in owner
      requires flags < 8 && Present(flags)
      modifies `tlb, `owner, mem
      ensures Warm()
      ensures Tree()
      ensures owner == old(owner)[dataPfn := x]
      ensures Grown(old(mem[..]), mem[..], pgd, x, flags)
      ensures Leads(mem[..], pgd, x, dataPfn)
    {
      assert owner[pfnL1] + [x[3]] == x;
      WriteEntry(pfnL1, x[3], dataPfn, flags, x);
      assert Leads(mem[..], pgd, owner[dataPfn], dataPfn);
    }

    /** Level 1: keep a present leaf, otherwise install one from `os_pfn_alloc(USER_REG)`. */
    method NextLeaf(pfnL1: nat, x: Path, flags: nat)
      requires Warm()
      requires Conserved()
      requires Tree() && |x| == 4 && Bounded(x) && pfnL1 in owner && owner[pfnL1] == x[..3]
      requires At(x).None? ==> userFree != {}
      requires flags < 8 && Present(flags)
      modifies `tlb, `userFree, `owner, mem
      ensures Warm()
      ensures Conserved()
      ensures Tree()
      ensures Grown(old(mem[..]), mem[..], pgd, x, flags)
      ensures At(x).Some?
      ensures old(At(x)).None? ==> At(x).value.frame in old(userFree) && At(x).value.frame !in userFree
      ensures |old(userFree)| - 1 <= |userFree|
    {
      LeafEntry(mem[..], pgd, owner, pfnL1, x);
      var e := mem[ENTRIES * pfnL1 + x[3]];
      assert Word(mem[..], pfnL1, x[3]) == e;
      if !Present(e) {
        var dataPfn :| dataPfn in userFree;
        userFree := userFree - {dataPfn};
        WriteLeaf(pfnL1, x, dataPfn, flags);
      }
    }

    /** The pools hold the frames that mapping the page along `x` takes. */
    predicate Serves(x: Path)
      requires |x| == 4
      reads `pgd, `osFree, `userFree, mem
    {
      |osFree| >= Missing(mem[..], pgd, x) && (Walk(mem[..], pgd, x).None? ==> userFree != {})
    }

    /** The four-level block that the source repeats for each segment: walk, and fill in what is missing. */
    method MapPage(x: Path, flags: nat)
      requires Warm()
      requires Conserved()
      requires Tree() && flags < 8 && Present(flags) && Bounded(x) && |x| == 4 && Serves(x)
      modifies `tlb, `osFree, `userFree, `owner, mem
      ensures Warm()
      ensures Tree()
      ensures Grown(old(mem[..]), mem[..], pgd, x, flags)
      ensures At(x).Some?
      ensures old(At(x)).None? ==> At(x).value.frame in old(userFree) && At(x).value.frame !in userFree
      ensures |osFree| + Missing(old(mem[..]), pgd, x) >= |old(osFree)| && |old(userFree)| - 1 <= |userFree|
      ensures Conserved()
    {
      ghost var m := mem[..];
      assert x[..3][..1] == x[..1] && x[..3][..2] == x[..2] && x[..3][..3] == x[..3];
      var pfnL1 := WalkTables(x[..3], flags);
      ghost var m1 := mem[..];
      GrownWiden(m, m1, pgd, x, flags);
      NextLeaf(pfnL1, x, flags);
      GrownTrans(m, m1, mem[..], pgd, x, flags);
    }

    // ---- prepare_context_mm ----

    ghost predicate Booted()
      reads this
    {
      && Sized() && Layout(code, rodata, data, stack) && rodata.nextFree < U64 && data.nextFree < U64
      && owner == map[] && tlb == map[]
      && (forall f :: f in osFree ==> f < split)
      && (forall f :: f in userFree ==> split <= f < frames && f != argPfn)
    }

    /** `ctx->pgd = os_pfn_alloc(OS_PT_REG)`: the tree that holds its root only. */
    method AllocRoot()
      requires Booted() && osFree != {}
      modifies `pgd, `osFree, `owner, mem
      ensures Warm()
      ensures Tree() && OnlyAlong(mem[..], pgd, [])
      ensures pgd in old(osFree) && osFree == old(osFree) - {pgd} && owner == map[pgd := []]
    {
      var f :| f in osFree;
      pgd := f;
      osFree := osFree - {f};
      ZeroFill(f);
      owner := map[pgd := []];
      assert Leads(mem[..], pgd, owner[pgd], pgd);
      forall path | Asked(path)
        ensures ShapeAt(mem[..], pgd, path, [])
      {
        RootOnly(mem[..], pgd, path);
      }
    }

    /** The data block of `prepare_context_mm`: the leaf is the argument page, which is not allocated here. */
    method MapArgument(x: Path)
      requires Warm()
      requires Conserved()
      requires Tree() && Bounded(x) && |x| == 4 && |osFree| >= Missing(mem[..], pgd, x)
      requires split <= argPfn < frames && argPfn !in accounted
      modifies `tlb, `argPfn, `accounted, `osFree, `owner, mem
      ensures Warm()
      ensures Tree() && Conserved()
      ensures accounted == old(accounted) + {argPfn}
      ensures Grown(old(mem[..]), mem[..], pgd, x, RW_FLAGS)
      ensures Leads(mem[..], pgd, x, argPfn)
      ensures old(At(x)).None? ==> argPfn == old(argPfn)
      ensures |osFree| + Missing(old(mem[..]), pgd, x) >= |old(osFree)|
    {
      ghost var m := mem[..];
      assert x[..3][..1] == x[..1] && x[..3][..2] == x[..2] && x[..3][..3] == x[..3];
      var pfnL1 := WalkTables(x[..3], RW_FLAGS);
      ghost var m1 := mem[..];
      GrownWiden(m, m1, pgd, x, RW_FLAGS);
      LeafEntry(m1, pgd, owner, pfnL1, x);
      var e := mem[ENTRIES * pfnL1 + x[3]];
      assert Word(m1, pfnL1, x[3]) == e;
      if Present(e) {
        argPfn := Frame(e);
      } else {
        accounted := accounted + {argPfn};
        WriteLeaf(pfnL1, x, argPfn, RW_FLAGS);
        GrownTrans(m, m1, mem[..], pgd, x, RW_FLAGS);
      }
    }

    /** The argument page: a user frame handed in from outside, not yet mapped. */
    ghost predicate ArgumentFree()
      reads this
    {
      split <= argPfn < frames && argPfn !in accounted
    }

    /** The tree is what mapping the pages of `targets` in turn gives, with the rights of their segments. */
    ghost predicate Shaped(targets: seq<Path>, roTop: nat)
      reads this, mem
    {
      Tree() && OnlyAlong(mem[..], pgd, targets) && Rights(mem[..], pgd, roTop)
    }

    /** One segment's block of `prepare_context_mm`, with what it adds to the shape and the rights of the tree. */
    method PreparePage(x: Path, flags: nat, ghost targets: seq<Path>, ghost roTop: nat)
      requires Warm()
      requires Conserved()
      requires Shaped(targets, roTop) && ArgumentFree()
      requires |x| == 4 && Serves(x) && flags < 8 && Present(flags) && User(flags)
      requires Bounded(x) && x[0] == 0 && (Writable(flags) <==> x[1] > roTop)
      requires Writable(flags) || At(x[..1]).Some?
      modifies `tlb, `osFree, `userFree, `owner, mem
      ensures Warm()
      ensures Shaped(targets + [x], roTop) && ArgumentFree()
      ensures At([0]).Some?
      ensures |osFree| + Missing(old(mem[..]), pgd, x) >= |old(osFree)| && |old(userFree)| - 1 <= |userFree|
      ensures Conserved()
    {
      ghost var m := mem[..];
      MapPage(x, flags);
      OnlyAlongMore(m, mem[..], pgd, targets, x, flags);
      RightsGrown(m, mem[..], pgd, roTop, x, flags);
      PrefixWalked(mem[..], pgd, x, 1);
      assert x[..1] == [0];
    }

    /** The root and the stack's block. */
    method PrepareStack(x: Path, ghost roTop: nat)
      requires Conserved()
      requires Booted() && |osFree| >= 4 && userFree != {}
      requires Bounded(x) && |x| == 4 && x[0] == 0 && x[1] > roTop
      modifies `tlb, `pgd, `osFree, `userFree, `owner, mem
      ensures Warm()
      ensures Shaped([x], roTop) && ArgumentFree() && At([0]).Some?
      ensures |old(osFree)| - 4 <= |osFree| && |old(userFree)| - 1 <= |userFree|
      ensures Conserved()
    {
      AllocRoot();
      EmptyRights(mem[..], pgd, roTop);
      assert [] + [x] == [x];
      PreparePage(x, RW_FLAGS, [], roTop);
    }

    /** The data segment's block. */
    method PrepareArgument(x: Path, ghost targets: seq<Path>, ghost roTop: nat)
      requires Warm()
      requires Conserved()
      requires Shaped(targets, roTop) && ArgumentFree() && |osFree| >= 2 && At([0]).Some?
      requires Bounded(x) && |x| == 4 && x[0] == 0 && x[1] > roTop
      requires forall k :: 0 <= k < |targets| ==> |targets[k]| == 4 && targets[k] != x
      modifies `tlb, `accounted, `argPfn, `osFree, `owner, mem
      ensures Warm()
      ensures Shaped(targets + [x], roTop)
      ensures At([0]).Some?
      ensures argPfn == old(argPfn) && Leads(mem[..], pgd, x, argPfn)
      ensures Conserved() && accounted == old(accounted) + {argPfn}
      ensures |old(osFree)| - 2 <= |osFree|
    {
      ghost var m := mem[..];
      assert x[..1] == [0];
      FlagBits(RW_FLAGS);
      NotAlong(m, pgd, targets, x);
      MapArgument(x);
      OnlyAlongMore(m, mem[..], pgd, targets, x, RW_FLAGS);
      RightsGrown(m, mem[..], pgd, roTop, x, RW_FLAGS);
      assert Asked([0]) && GrownAt(m, mem[..], pgd, [0], x, RW_FLAGS);
    }

    method PreparePages(stackPath: Path, codePath: Path, dataPath: Path, ghost roTop: nat)
      requires Conserved()
      requires Booted() && |osFree| >= 8 && |userFree| >= 2
      requires Bounded(stackPath) && Bounded(codePath) && Bounded(dataPath)
      requires |stackPath| == |codePath| == |dataPath| == 4 && dataPath != stackPath
      requires stackPath[0] == codePath[0] == dataPath[0] == 0
      requires codePath[1] <= roTop < stackPath[1] && roTop < dataPath[1]
      modifies `tlb, `accounted, `pgd, `argPfn, `osFree, `userFree, `owner, mem
      ensures Warm()
      ensures Tree() && Rights(mem[..], pgd, roTop) && At([0]).Some?
      ensures Prepared(mem[..], pgd, stackPath, codePath, dataPath)
      ensures argPfn == old(argPfn) && Leads(mem[..], pgd, dataPath, argPfn)
      ensures Conserved() && accounted == old(accounted) + {argPfn}
      ensures |old(osFree)| - 8 <= |osFree| && |old(userFree)| - 2 <= |userFree|
    {
      assert codePath[..1] == [0];
      PrepareStack(stackPath, roTop);
      PreparePage(codePath, RO_FLAGS, [stackPath], roTop);
      PrepareArgument(dataPath, [stackPath] + [codePath], roTop);
    }

    method PreparedOffsets() returns (a: Path, b: Path, c: Path)
      requires Layout(code, rodata, data, stack)
      ensures a == Indices(Top(stack)) && b == Indices(code.start) && c == Indices(data.start)
      ensures Bounded(a) && Bounded(b) && Bounded(c) && |a| == |b| == |c| == 4 && a != c && a[0] == b[0] == c[0] == 0
      ensures b[1] <= rodata.end / L3_SPAN < a[1] && rodata.end / L3_SPAN < c[1]
    {
      PreparedPaths(code, rodata, data, stack);
      a := ExtractOffsets(Top(stack));
      b := ExtractOffsets(code.start);
      c := ExtractOffsets(data.start);
    }

    /** The pages of a prepared context, in plain numbers. */
    lemma StartPages()
      requires Layout(code, rodata, data, stack)
      requires Prepared(mem[..], pgd, Indices(Top(stack)), Indices(code.start), Indices(data.start))
      ensures forall p: nat :: p < PAGES ==>
                (Page(p).Some? <==> p == (stack.end - 1) / PAGE || p == code.start / PAGE || p == data.start / PAGE)
    {
      var top := stack.end - 1;
      forall p: nat | p < PAGES
        ensures Page(p).Some? <==> p == top / PAGE || p == code.start / PAGE || p == data.start / PAGE
      {
        PreparedPages(mem[..], pgd, Top(stack), code.start, data.start, p);
      }
    }

    /** A mapped page of a segment is writable, over all four levels, exactly in DATA and STACK. */
    lemma WriteRights(address: nat)
      requires Valid() && Page(PageOf(address)).Some?
      requires InSegment(code, address) || InSegment(rodata, address) || InSegment(data, address)
               || InSegment(stack, address)
      ensures Page(PageOf(address)).value.user
      ensures Page(PageOf(address)).value.write <==> InSegment(data, address) || InSegment(stack, address)
    {
      var x := Indices(address);
      IndicesArePagePath(address);
      TopIndices(address);
      assert Asked(x) && RightOf(mem[..], pgd, x, rodata.end / L3_SPAN);
    }

    /** The page of an address below 2^39 that is mapped, with the rights of the segment it is in. */
    lemma StartRights(address: nat)
      requires Valid() && address < L4_SPAN && Page(address / PAGE).Some?
      requires InSegment(code, address) || InSegment(data, address) || InSegment(stack, address)
      ensures Page(address / PAGE).value.write <==> InSegment(data, address) || InSegment(stack, address)
    {
      assert PageOf(address) == address / PAGE;
      WriteRights(address);
    }

    /** `prepare_context_mm`: the stack's last page, the code's first and the data's first, in that order. */
    method PrepareContextMm()
      requires Conserved()
      requires Booted() && |osFree| >= 8 && |userFree| >= 2
      modifies `tlb, `accounted, `pgd, `argPfn, `osFree, `userFree, `owner, mem
      ensures Valid()
      ensures Prepared(mem[..], pgd, Indices(Top(stack)), Indices(code.start), Indices(data.start))
      // mapped are the pages of the stack's last address, the code's first and the data's first, and no other
      ensures forall p: nat :: p < PAGES ==>
                (Page(p).Some? <==> p == (stack.end - 1) / PAGE || p == code.start / PAGE || p == data.start / PAGE)
      ensures forall p: nat :: stack.start / PAGE <= p < (stack.end - 1) / PAGE ==> Page(p).None?
      ensures Page((stack.end - 1) / PAGE).Some? && Page((stack.end - 1) / PAGE).value.write
      ensures !Page(code.start / PAGE).value.write && Page(data.start / PAGE).value.write
      ensures argPfn == old(argPfn) && Leads(mem[..], pgd, Indices(data.start), argPfn)
      ensures Conserved() && accounted == old(accounted) + {argPfn}
      ensures |old(osFree)| - 8 <= |osFree| && |old(userFree)| - 2 <= |userFree|
    {
      var a, b, c := PreparedOffsets();
      PreparePages(a, b, c, rodata.end / L3_SPAN);
      Whole();
      StartPages();
      StartRights(stack.end - 1);
      StartRights(code.start);
      StartRights(data.start);
    }

    /**
      Right after `PrepareContextMm`, the invariant on mapped pages holds exactly when the data segment starts
      with one in use.
     */
    lemma ConfinedAtStart()
      requires Layout(code, rodata, data, stack)
      requires Prepared(mem[..], pgd, Indices(Top(stack)), Indices(code.start), Indices(data.start))
      ensures Confined() <==> data.start < data.nextFree
    {
      PreparedConfined(mem[..], pgd, code, rodata, data, stack);
    }

    // ---- handle_page_fault ----

    /** Map the page of `address` in a prepared context. */
    method MapUser(address: nat, flags: nat)
      requires Valid() && Conserved() && address < L4_SPAN && Serves(Indices(address))
      requires flags == RW_FLAGS || flags == RO_FLAGS
      requires flags == RW_FLAGS <==> address / L3_SPAN > rodata.end / L3_SPAN
      modifies `tlb, `osFree, `userFree, `owner, mem
      ensures Valid() && Conserved()
      ensures |old(osFree)| - Missing(old(mem[..]), pgd, Indices(address)) <= |osFree|
      ensures |old(userFree)| - 1 <= |userFree|
      ensures Page(PageOf(address)).Some?
      ensures Page(PageOf(address)).value.user && Page(PageOf(address)).value.write == (flags == RW_FLAGS)
      ensures old(Page(PageOf(address))).None? ==>
                Page(PageOf(address)).value.frame in old(userFree) && Page(PageOf(address)).value.frame !in userFree
      ensures OthersKept(old(mem[..]), mem[..], pgd, PageOf(address))
      ensures NewOnlyAlong(old(mem[..]), mem[..], pgd, Indices(address))
    {
      ghost var m := mem[..];
      FlagBits(flags);
      var x := ExtractOffsets(address);
      MapPage(x, flags);
      MappedUser(m, mem[..], pgd, address, x, flags, rodata.end / L3_SPAN);
      Whole();
    }

    predicate Admitted(fault: nat, error: nat)
      reads this
    {
      Admits(rodata, data, stack, fault, error)
    }

    /** The block of an admitted fault's segment, and what it does to the marker invariant. */
    method MapFault(fault: nat, flags: nat, ghost error: nat)
      requires Valid() && Conserved() && Admitted(fault, error) && Serves(Indices(fault))
      requires flags == (if InSegment(rodata, fault) then RO_FLAGS else RW_FLAGS)
      modifies `tlb, `osFree, `userFree, `owner, mem
      ensures Valid() && Conserved()
      ensures |old(osFree)| - Missing(old(mem[..]), pgd, Indices(fault)) <= |osFree|
      ensures |old(userFree)| - 1 <= |userFree|
      ensures Page(PageOf(fault)).Some? && Page(PageOf(fault)).value.user
      ensures Page(PageOf(fault)).value.write <==> !InSegment(rodata, fault)
      ensures old(Page(PageOf(fault))).None? ==>
                Page(PageOf(fault)).value.frame in old(userFree) && Page(PageOf(fault)).value.frame !in userFree
      ensures OthersKept(old(mem[..]), mem[..], pgd, PageOf(fault))
      ensures NewOnlyAlong(old(mem[..]), mem[..], pgd, Indices(fault))
      ensures old(Confined()) && Markers() ==>
                (Confined() <==> fault != data.nextFree && fault != rodata.nextFree)
    {
      ghost var m := mem[..];
      SlotsOf(code, rodata, data, stack, fault);
      MapUser(fault, flags);
      if old(Confined()) && Markers() { FaultConfined(m, mem[..], pgd, code, rodata, data, stack, fault, error); }
    }

    method HandlePageFault(fault: nat, error: nat) returns (r: Outcome)
      requires Valid() && Conserved() && (Admitted(fault, error) ==> Serves(Indices(fault)))
      modifies `tlb, `osFree, `userFree, `owner, mem
      ensures Valid() && Conserved()
      // one table frame for each upper table that was missing, and one user frame, are taken at most
      ensures |old(osFree)| - Missing(old(mem[..]), pgd, Indices(fault)) <= |osFree|
      ensures |old(userFree)| - 1 <= |userFree|
      ensures r == Resume <==> Admitted(fault, error)
      // segment by segment: STACK throughout, DATA up to its marker, RODATA up to its marker when read
      ensures error % 2 == 0 && stack.start <= fault <= stack.end ==>
                r == Resume && Page(PageOf(fault)).Some? && Page(PageOf(fault)).value.write
      ensures error % 2 == 0 && data.start <= fault <= data.end ==>
                (r == Resume <==> fault <= data.nextFree)
                && (r == Resume ==> Page(PageOf(fault)).Some? && Page(PageOf(fault)).value.write)
      ensures error % 2 == 0 && rodata.start <= fault <= rodata.end ==>
                (r == Resume <==> fault <= rodata.nextFree && error / 2 % 2 == 0)
                && (r == Resume ==> Page(PageOf(fault)).Some? && !Page(PageOf(fault)).value.write)
      ensures error % 2 == 1 ==> r == Exit
      ensures r == Resume ==> data.start <= fault <= data.end || rodata.start <= fault <= rodata.end
                              || stack.start <= fault <= stack.end
      // a terminated process leaves the tables and the pools as they were
      ensures r == Exit ==>
              mem[..] == old(mem[..]) && owner == old(owner) && osFree == old(osFree) && userFree == old(userFree)
      // a resumed one finds its page mapped, with the rights of its segment, on a frame fresh from USER_REG
      ensures r == Resume ==> Page(PageOf(fault)).Some? && Page(PageOf(fault)).value.user
      ensures r == Resume ==> (Page(PageOf(fault)).value.write <==> !InSegment(rodata, fault))
      ensures r == Resume && old(Page(PageOf(fault))).None? ==>
                Page(PageOf(fault)).value.frame in old(userFree) && Page(PageOf(fault)).value.frame !in userFree
      // and no translation that existed, or of another page, has changed
      ensures OthersKept(old(mem[..]), mem[..], pgd, PageOf(fault))
      ensures NewOnlyAlong(old(mem[..]), mem[..], pgd, Indices(fault))
      // the used parts of the segments stay closed exactly when the fault is not at a marker itself
      ensures old(Confined()) && Markers() ==>
                (Confined() <==> !(r == Resume && (fault == data.nextFree || fault == rodata.nextFree)))
    {
      AdmitsIff(code, rodata, data, stack, fault, error);
      r := Exit;
      var writeBit := error / 2 % 2;
      if error % 2 == 1 {
        return;
      }
      if fault <= data.end && fault >= data.start {
        if fault > data.nextFree {
          return;
        }
        MapFault(fault, RW_FLAGS, error);
      } else if fault <= rodata.end && fault >= rodata.start {
        if fault > rodata.nextFree {
          return;
        } else if writeBit == 1 {
          return;
        }
        MapFault(fault, RO_FLAGS, error);
      } else if fault <= stack.end && fault >= stack.start {
        MapFault(fault, RW_FLAGS, error);
      } else {
        return;
      }
      r := Resume;
    }

    /** The gap: a fault at the data marker itself maps the page there, which is outside the used part. */
    method TouchAtMarker()
      requires Valid() && Conserved() && Serves(Indices(data.nextFree)) && Markers() && Confined()
      modifies `tlb, `osFree, `userFree, `owner, mem
      ensures data.start <= data.nextFree <= data.end
      ensures Page(PageOf(data.nextFree)).Some? && !Confined()
    {
      var r := HandlePageFault(data.nextFree, 0);
    }

    // ---- The walk of shrink and write ----

    /** One level of a walk that allocates nothing. */
    method NextPresent(t: nat, x: Path, k: nat) returns (child: Option<nat>)
      requires Readable() && Bounded(x) && |x| == 4 && k < 3 && t in owner && owner[t] == x[..k]
      ensures child.Some? ==> child.value in owner && owner[child.value] == x[..k + 1]
      ensures child.Some? <==> At(x[..k + 1]).Some?
    {
      assert owner[t] + [x[k]] == x[..k + 1];
      var e := mem[ENTRIES * t + x[k]];
      assert Word(mem[..], t, x[k]) == e;
      assert Leads(mem[..], pgd, owner[t], t);
      WalkAbsent(mem[..], pgd, owner, t, x[k]);
      child := if Present(e) then Some(Frame(e)) else None;
    }

    /** Follow levels 4, 3 and 2; stop where an entry is absent. */
    method FindLeafTable(x: Path) returns (t: Option<nat>)
      requires Readable() && Bounded(x) && |x| == 4
      ensures t.Some? ==> t.value in owner && owner[t.value] == x[..3]
      ensures t.None? ==> At(x).None?
    {
      PrefixesWalked(mem[..], pgd, x);
      var pfnL3 := NextPresent(pgd, x, 0);
      if pfnL3.None? {
        return None;
      }
      var pfnL2 := NextPresent(pfnL3.value, x, 1);
      if pfnL2.None? {
        return None;
      }
      t := NextPresent(pfnL2.value, x, 2);
    }

    // ---- shrink ----

    /** The leaf entry of a mapped page: `*(l1addr + offsetL1) &= ~1`. */
    method ClearLeaf(pfnL1: nat, x: Path) returns (dataPfn: nat)
      requires Tree() && Bounded(x) && |x| == 4 && pfnL1 in owner && owner[pfnL1] == x[..3] && At(x).Some?
      modifies mem, `owner
      ensures Tree()
      ensures dataPfn in old(owner) && old(owner)[dataPfn] == x && owner == old(owner) - {dataPfn}
      ensures Removed(old(mem[..]), mem[..], pgd, x)
    {
      ghost var m := mem[..];
      LeafEntry(m, pgd, owner, pfnL1, x);
      assert x == owner[pfnL1] + [x[3]];
      assert Leads(m, pgd, owner[pfnL1], pfnL1);
      var e := mem[ENTRIES * pfnL1 + x[3]];
      assert e == Word(m, pfnL1, x[3]);
      dataPfn := Frame(e);
      mem[ENTRIES * pfnL1 + x[3]] := ClearPresent(e);
      assert mem[..] == m[ENTRIES * pfnL1 + x[3] := ClearPresent(e)];
      Clear(m, mem[..], pgd, owner, pfnL1, x[3]);
      owner := owner - {dataPfn};
    }

    /** The entry is cleared; until `invlpg` the processor may still hold the translation it had. */
    method Unmap(pfnL1: nat, x: Path, address: nat) returns (dataPfn: nat)
      requires Tree() && Warm() && x == Indices(address) && At(x).Some?
      requires pfnL1 in owner && owner[pfnL1] == x[..3]
      modifies mem, `owner, `tlb
      ensures Tree() && Coherent(tlb - {PageOf(address)}, mem[..], pgd)
      ensures dataPfn in old(owner) && old(owner)[dataPfn] == x && owner == old(owner) - {dataPfn}
      ensures Removed(old(mem[..]), mem[..], pgd, x)
    {
      ghost var m := mem[..];
      MayFill();
      ghost var t := tlb;
      dataPfn := ClearLeaf(pfnL1, x);
      RemovedCoherent(t, m, mem[..], pgd, address);
      MayFillBut(PageOf(address));
    }

    /** A present leaf: clear its entry, free its frame, `invlpg`. */
    method ReleaseLeaf(pfnL1: nat, x: Path, address: nat)
      requires Valid() && Conserved() && x == Indices(address) && At(x).Some?
      requires pfnL1 in owner && owner[pfnL1] == x[..3]
      modifies mem, `owner, `osFree, `userFree, `freed, `tlb
      ensures Valid() && Conserved() && osFree == old(osFree)
      ensures Removed(old(mem[..]), mem[..], pgd, x)
      ensures Released(old(owner), old(userFree), old(freed), owner, userFree, freed, x)
    {
      ghost var m := mem[..];
      var dataPfn := Unmap(pfnL1, x, address);
      PfnFree(UserReg, dataPfn);
      MayFillBut(PageOf(address));
      tlb := tlb - {PageOf(address)};
      RemovedRights(m, mem[..], pgd, x, rodata.end / L3_SPAN);
      Whole();
    }

    /** One round of the loop of `shrink`, after the marker has moved to `address`. */
    method ShrinkPage(address: nat)
      requires Valid() && Conserved()
      modifies mem, `owner, `osFree, `userFree, `freed, `tlb
      ensures Valid() && Conserved() && osFree == old(osFree)
      ensures Removed(old(mem[..]), mem[..], pgd, Indices(address))
      ensures || (freed == old(freed) && owner == old(owner) && userFree == old(userFree))
              || Released(old(owner), old(userFree), old(freed), owner, userFree, freed, Indices(address))
    {
      var x := ExtractOffsets(address);
      var t := FindLeafTable(x);
      if t.Some? {
        LeafEntry(mem[..], pgd, owner, t.value, x);
        var e := mem[ENTRIES * t.value + x[3]];
        assert e == Word(mem[..], t.value, x[3]);
        if Present(e) {
          ReleaseLeaf(t.value, x, address);
        }
      }
    }

    function Seg(prot: Prot): Segment
      reads `rodata, `data
    {
      if prot == MapWr then data else rodata
    }

    method SetMarker(prot: Prot, marker: nat)
      modifies `rodata, `data
      ensures data == if prot == MapWr then old(data).(nextFree := marker) else old(data)
      ensures rodata == if prot == MapWr then old(rodata) else old(rodata).(nextFree := marker)
    {
      if prot == MapWr {
        data := data.(nextFree := marker);
      } else {
        rodata := rodata.(nextFree := marker);
      }
    }

    /** What `n` rounds of the loop of `shrink` have done, starting from the given state. */
    ghost predicate ShrunkBy(n: nat, prot: Prot, s: Segment, m0: seq<nat>, owner0: map<nat, Path>, userFree0: set<nat>,
                             freed0: seq<nat>, log: seq<nat>)
      reads `pgd, `rodata, `data, `owner, `userFree, `freed, mem
    {
      && Seg(prot) == s.(nextFree := Back(s.nextFree, n))
      && Pruned(m0, mem[..], pgd, s.nextFree, n)
      && freed == freed0 + log && Moved(owner0, userFree0, owner, userFree, log)
    }

    /** One round of the loop: move the marker down a page, then unmap the page it now names. */
    method ShrinkRound(ghost n: nat, prot: Prot, ghost s: Segment, ghost m0: seq<nat>, ghost owner0: map<nat, Path>,
                       ghost userFree0: set<nat>, ghost freed0: seq<nat>, ghost log: seq<nat>)
      returns (ghost log': seq<nat>)
      requires Valid() && Conserved() && ShrunkBy(n, prot, s, m0, owner0, userFree0, freed0, log)
      modifies `rodata, `data, mem, `owner, `osFree, `userFree, `freed, `tlb
      ensures Valid() && Conserved() && osFree == old(osFree)
      ensures if prot == MapWr then rodata == old(rodata) else data == old(data)
      ensures ShrunkBy(n + 1, prot, s, m0, owner0, userFree0, freed0, log')
    {
      ghost var m, o, u, fr := mem[..], owner, userFree, freed;
      BackStep(s.nextFree, n);
      SetMarker(prot, Back(Seg(prot).nextFree, 1));
      ShrinkPage(Seg(prot).nextFree);
      PrunedMore(m0, m, mem[..], pgd, s.nextFree, n);
      log' := MovedMore(owner0, userFree0, freed0, o, u, fr, log, owner, userFree, freed, Indices(Seg(prot).nextFree));
    }

    /** The loop of `shrink`. */
    method ShrinkLoop(prot: Prot, size: nat) returns (ghost log: seq<nat>)
      requires Valid() && Conserved()
      modifies `rodata, `data, mem, `owner, `osFree, `userFree, `freed, `tlb
      ensures Valid() && Conserved() && osFree == old(osFree)
      ensures if prot == MapWr then rodata == old(rodata) else data == old(data)
      ensures ShrunkBy(size, prot, old(Seg(prot)), old(mem[..]), old(owner), old(userFree), old(freed), log)
    {
      log := [];
      var i := 0;
      while i < size
        invariant i <= size
        invariant Valid() && Conserved() && osFree == old(osFree)
        invariant if prot == MapWr then rodata == old(rodata) else data == old(data)
        invariant ShrunkBy(i, prot, old(Seg(prot)), old(mem[..]), old(owner), old(userFree), old(freed), log)
      {
        log := ShrinkRound(i, prot, old(Seg(prot)), old(mem[..]), old(owner), old(userFree), old(freed), log);
        i := i + 1;
      }
    }

    /** The loop, and which frames it gave back. */
    method ShrinkAll(prot: Prot, size: nat) returns (ghost log: seq<nat>)
      requires Valid() && Conserved()
      modifies `rodata, `data, mem, `owner, `osFree, `userFree, `freed, `tlb
      ensures Valid() && Conserved() && osFree == old(osFree) && old(userFree) <= userFree
      ensures if prot == MapWr then rodata == old(rodata) else data == old(data)
      ensures ShrunkBy(size, prot, old(Seg(prot)), old(mem[..]), old(owner), old(userFree), old(freed), log)
      ensures forall f :: f in log <==> f in old(owner) && Visited(old(Seg(prot)).nextFree, size, old(owner)[f])
    {
      ghost var m := mem[..];
      log := ShrinkLoop(prot, size);
      forall f ensures f in log <==> f in old(owner) && Visited(old(Seg(prot)).nextFree, size, old(owner)[f]) {
        if f in old(owner) {
          PrunedOwner(m, mem[..], pgd, old(owner), owner, old(Seg(prot)).nextFree, size, f);
        }
      }
    }

    method Shrink(size: nat, prot: Prot) returns (r: nat, ghost log: seq<nat>)
      requires Valid() && Conserved() && size < U32
      modifies `rodata, `data, mem, `owner, `osFree, `userFree, `freed, `tlb
      ensures Valid() && Conserved() && osFree == old(osFree) && old(userFree) <= userFree
      // refused: nothing changes
      ensures old(prot == OtherProt || ShrinkRefused(Seg(prot), size)) ==>
                r == 0 && data == old(data) && rodata == old(rodata) && mem[..] == old(mem[..]) && freed == old(freed)
                && owner == old(owner) && userFree == old(userFree)
      // accepted: the pages walked over are unmapped and no other translation changes; their frames are freed once each
      ensures !old(prot == OtherProt || ShrinkRefused(Seg(prot), size)) ==>
                && r == Seg(prot).nextFree
                && ShrunkBy(size, prot, old(Seg(prot)), old(mem[..]), old(owner), old(userFree), old(freed), log)
                && (if prot == MapWr then rodata == old(rodata) else data == old(data))
                && forall f :: f in log <==> f in old(owner) && Visited(old(Seg(prot)).nextFree, size, old(owner)[f])
      // the markers stay in their segments exactly when the request fits, in unbounded arithmetic
      ensures old(Markers()) && !old(prot == OtherProt || ShrinkRefused(Seg(prot), size)) ==>
                (Markers() <==> PAGE * size <= old(Seg(prot).nextFree - Seg(prot).start))
      // and then mapped pages stay below them
      ensures old(Markers() && Confined()) && Markers() ==> Confined()
    {
      log := [];
      if prot == OtherProt {
        return 0, [];
      }
      if ShrinkRefused(Seg(prot), size) {
        return 0, [];
      }
      ghost var m := mem[..];
      log := ShrinkAll(prot, size);
      r := Seg(prot).nextFree;
      if old(Markers()) {
        PrunedMarkers(m, mem[..], pgd, old(Seg(prot)), size, old(if prot == MapWr then rodata else data));
      }
    }

    /** In plain numbers: a request that fits takes that many bytes off its own segment and unmaps their pages. */
    method ShrinkFitting(size: nat, prot: Prot) returns (r: nat)
      requires Valid() && Conserved() && size < U32 && Markers() && prot != OtherProt
      requires prot == MapWr ==> PAGE * size <= data.nextFree - data.start
      requires prot == MapRd ==> PAGE * size <= rodata.nextFree - rodata.start
      modifies `rodata, `data, mem, `owner, `osFree, `userFree, `freed, `tlb
      ensures prot == MapWr ==> r == data.nextFree == old(data.nextFree) - PAGE * size && rodata == old(rodata)
      ensures prot == MapRd ==> r == rodata.nextFree == old(rodata.nextFree) - PAGE * size && data == old(data)
      ensures forall p: nat :: p < PAGES ==>
                Page(p) == if r <= PAGE * p < r + PAGE * size then None else old(Page(p))
    {
      ghost var m, s := mem[..], Seg(prot);
      assert !ShrinkRefused(s, size) by { ShrinkGuard(s, size); }
      ghost var log;
      r, log := Shrink(size, prot);
      PrunedFits(m, mem[..], pgd, s, size);
    }

    /** The marker moves; no invariant of the tables depends on it. */
    method Advance(prot: Prot, marker: nat)
      requires Valid() && Conserved() && marker < U64
      modifies `rodata, `data
      ensures Valid() && Conserved()
      ensures data == if prot == MapWr then old(data).(nextFree := marker) else old(data)
      ensures rodata == if prot == MapWr then old(rodata) else old(rodata).(nextFree := marker)
    {
      SetMarker(prot, marker);
      Whole();
    }

    method Expand(size: nat, prot: Prot) returns (r: nat)
      requires Valid() && Conserved() && size < U32
      modifies `rodata, `data
      ensures Valid() && Conserved()
      ensures old(size > 512 || prot == OtherProt || Add64(Seg(prot).nextFree, PAGE * size) > Seg(prot).end) ==>
                r == 0 && data == old(data) && rodata == old(rodata)
      ensures !old(size > 512 || prot == OtherProt || Add64(Seg(prot).nextFree, PAGE * size) > Seg(prot).end) ==>
                && r == old(Seg(prot).nextFree)
                && Seg(prot) == old(Seg(prot)).(nextFree := Add64(r, PAGE * size))
                && (if prot == MapWr then rodata == old(rodata) else data == old(data))
      ensures old(Markers()) ==> Markers()
      ensures old(Markers() && Confined()) ==> Confined()
      // in plain numbers: at most 512 pages, and no further than the end of the segment named
      ensures old(Markers()) && prot == MapWr ==>
                if size <= 512 && old(data.nextFree) + PAGE * size <= old(data.end)
                then r == old(data.nextFree) && data.nextFree == r + PAGE * size && rodata == old(rodata)
                else r == 0 && data == old(data) && rodata == old(rodata)
      ensures old(Markers()) && prot == MapRd ==>
                if size <= 512 && old(rodata.nextFree) + PAGE * size <= old(rodata.end)
                then r == old(rodata.nextFree) && rodata.nextFree == r + PAGE * size && data == old(data)
                else r == 0 && data == old(data) && rodata == old(rodata)
    {
      if size <= 512 && Markers() { ExpandMarker(Seg(prot), size); }
      if size > 512 || prot == OtherProt {
        return 0;
      }
      if Add64(Seg(prot).nextFree, PAGE * size) > Seg(prot).end {
        return 0;
      }
      r := Seg(prot).nextFree;
      if old(Markers()) { ExpandKeeps(mem[..], pgd, Seg(prot), size); }
      Advance(prot, Add64(r, PAGE * size));
    }

    // ---- write ----

    /** The walk of `write`. */
    method LookUp(address: nat) returns (present: bool)
      requires Readable()
      ensures present <==> Page(PageOf(address)).Some?
    {
      var x := ExtractOffsets(address);
      IndicesArePagePath(address);
      var t := FindLeafTable(x);
      if t.None? {
        return false;
      }
      LeafEntry(mem[..], pgd, owner, t.value, x);
      assert Word(mem[..], t.value, x[3]) == mem[ENTRIES * t.value + x[3]];
      present := Present(mem[ENTRIES * t.value + x[3]]);
    }

    ghost predicate AllMapped(buff: nat, n: nat)
      reads `pgd, mem
    {
      forall a :: buff <= a < buff + n ==> Page(PageOf(a)).Some?
    }

    lemma LastByteDecides(buff: nat, n: nat)
      requires 0 < n <= 1024 && Page(PageOf(buff)).Some?
      ensures AllMapped(buff, n) <==> Page(PageOf(LastByte(buff, n))).Some?
    {
      forall a | buff <= a < buff + n ensures PageOf(a) == PageOf(buff) || PageOf(a) == PageOf(LastByte(buff, n)) {
        FirstOrLastPage(buff, n, a);
      }
    }

    /** `write`, for a string of `strlen` characters at `buff`. */
    method SysWrite(buff: nat, length: int, strlen: nat) returns (r: int)
      requires Valid()
      ensures r == -1 <==> Page(PageOf(buff)).None? || length <= 0 || length > 1024 || buff == 0
      ensures r != -1 ==> 0 <= r <= length && r <= strlen && (r == length || r == strlen)
      // only the first page is looked up: the bytes written are all mapped exactly when the last one is
      ensures r > 0 ==> (AllMapped(buff, r) <==> Page(PageOf(LastByte(buff, r))).Some?)
    {
      var present := LookUp(buff);
      if !present || length <= 0 || length > 1024 || buff == 0 {
        return -1;
      }
      r := if length > strlen then strlen else length;
      if r > 0 { LastByteDecides(buff, r); }
    }

    /**
      The gap: in a prepared context, a write of two bytes across the end of the first data page is accepted,
      and its second byte is not mapped.
     */
    method WriteAcrossPages() returns (r: int)
      requires Valid() && data.start + PAGE <= data.end
      requires Prepared(mem[..], pgd, Indices(Top(stack)), Indices(code.start), Indices(data.start))
      ensures r == 2 && !AllMapped(LastByte(data.start, PAGE), 2)
    {
      AcrossPages(code, rodata, data, stack);
      PreparedPages(mem[..], pgd, Top(stack), code.start, data.start, data.start / PAGE);
      PreparedPages(mem[..], pgd, Top(stack), code.start, data.start, data.start / PAGE + 1);
      r := SysWrite(LastByte(data.start, PAGE), 2, 2);
    }

    // ---- cleanup_context_mm ----

    /** The tables met along a path. */
    method ReadPath(x: Path) returns (pfnL3: nat, pfnL2: nat, pfnL1: nat)
      requires Readable() && Bounded(x) && |x| == 4 && At(x[..3]).Some?
      ensures pfnL3 in owner && pfnL2 in owner && pfnL1 in owner
      ensures owner[pfnL3] == x[..1] && owner[pfnL2] == x[..2] && owner[pfnL1] == x[..3]
    {
      PrefixesWalked(mem[..], pgd, x);
      var l3 := NextPresent(pgd, x, 0);
      pfnL3 := l3.value;
      var l2 := NextPresent(pfnL3, x, 1);
      pfnL2 := l2.value;
      var l1 := NextPresent(pfnL2, x, 2);
      pfnL1 := l1.value;
    }

    /** The start of such a block: the L3 table, if it is this block's to free, and the L2 table. */
    method FreeTables(x: Path, freeL3: bool, pfnL3: nat, pfnL2: nat) returns (ghost log: seq<nat>)
      requires Readable() && |x| == 4 && pfnL3 in owner && pfnL2 in owner && owner[pfnL3] == x[..1]
               && owner[pfnL2] == x[..2]
      modifies `osFree, `userFree, `freed
      ensures freed == old(freed) + log && Lists(owner, log, FreedTables(x, freeL3))
      ensures Returned(owner, old(osFree), old(userFree), osFree, userFree, log)
    {
      log := if freeL3 then [pfnL3, pfnL2] else [pfnL2];
      if freeL3 {
        PfnFree(OsPtReg, pfnL3);
      }
      PfnFree(OsPtReg, pfnL2);
    }

    /** The end of such a block: the L1 table, if it holds the leaf, and the frame in `dataPFN`. */
    method FreeLeaf(x: Path, pfnL1: nat, last: nat, ghost lastPath: Path) returns (dataPfn: nat, ghost log: seq<nat>)
      requires Readable() && Bounded(x) && |x| == 4 && pfnL1 in owner && owner[pfnL1] == x[..3]
      requires At(x).None? ==> last in owner && owner[last] == lastPath && |lastPath| == 4
      modifies `osFree, `userFree, `freed
      ensures freed == old(freed) + log && Lists(owner, log, FreedLeaf(x, At(x).Some?, lastPath))
      ensures dataPfn in owner && owner[dataPfn] == if At(x).Some? then x else lastPath
      ensures Returned(owner, old(osFree), old(userFree), osFree, userFree, log)
    {
      LeafEntry(mem[..], pgd, owner, pfnL1, x);
      if At(x).Some? { WalkOwned(mem[..], pgd, owner, x); }
      dataPfn, log := last, [];
      var e := mem[ENTRIES * pfnL1 + x[3]];
      assert Word(mem[..], pfnL1, x[3]) == e;
      if Present(e) {
        dataPfn := Frame(e);
        PfnFree(OsPtReg, pfnL1);
        log := [pfnL1];
      }
      PfnFree(UserReg, dataPfn);
      log := log + [dataPfn];
    }

    /**
      One segment's block of teardown; the code segment's block leaves the L3 table alone. `last` is what
      `dataPFN` holds from the blocks before, the frame at path `lastPath`; the first block needs its leaf.
     */
    method FreePath(x: Path, freeL3: bool, last: nat, ghost lastPath: Path) returns (dataPfn: nat, ghost log: seq<nat>)
      requires Readable() && Bounded(x) && |x| == 4 && At(x[..3]).Some?
      requires At(x).None? ==> last in owner && owner[last] == lastPath && |lastPath| == 4
      modifies `osFree, `userFree, `freed
      ensures freed == old(freed) + log && Lists(owner, log, FreedPaths(x, freeL3, At(x).Some?, lastPath))
      ensures dataPfn in owner && owner[dataPfn] == if At(x).Some? then x else lastPath
      ensures Returned(owner, old(osFree), old(userFree), osFree, userFree, log)
    {
      var pfnL3, pfnL2, pfnL1 := ReadPath(x);
      ghost var tables := FreeTables(x, freeL3, pfnL3, pfnL2);
      ghost var os, user := osFree, userFree;
      ghost var rest;
      dataPfn, rest := FreeLeaf(x, pfnL1, last, lastPath);
      log := tables + rest;
      Joined(old(freed), tables, rest);
      ListsAppend(owner, tables, FreedTables(x, freeL3), rest, FreedLeaf(x, At(x).Some?, lastPath));
      ReturnedMore(owner, old(osFree), old(userFree), os, user, tables, osFree, userFree, rest);
    }

    /** The three blocks of teardown in the order of the source: stack, code, data. */
    method FreeBlocks(s: Path, c: Path, d: Path) returns (ghost log: seq<nat>)
      requires Readable() && Bounded(s) && Bounded(c) && Bounded(d) && |s| == |c| == |d| == 4
      requires At(s).Some? && At(c[..3]).Some? && At(d[..3]).Some?
      modifies `osFree, `userFree, `freed
      ensures freed == old(freed) + log && Lists(owner, log, CleanupOrder(s, c, d, At(c).Some?, At(d).Some?))
      ensures Returned(owner, old(osFree), old(userFree), osFree, userFree, log)
    {
      PrefixesWalked(mem[..], pgd, s);
      ghost var cl, dl := At(c).Some?, At(d).Some?;
      var dataPfn, sLog := FreePath(s, true, 0, s);
      ghost var cLog, dLog;
      ghost var os1, user1 := osFree, userFree;
      dataPfn, cLog := FreePath(c, false, dataPfn, s);
      ghost var os2, user2 := osFree, userFree;
      ReturnedMore(owner, old(osFree), old(userFree), os1, user1, sLog, os2, user2, cLog);
      dataPfn, dLog := FreePath(d, true, dataPfn, if cl then c else s);
      log := sLog + cLog + dLog;
      ReturnedMore(owner, old(osFree), old(userFree), os2, user2, sLog + cLog, osFree, userFree, dLog);
      Regrouped(old(freed), sLog, cLog, dLog);
      ListsAppend(owner, sLog, FreedPaths(s, true, true, s), cLog, FreedPaths(c, false, cl, s));
      ListsAppend(owner, sLog + cLog, FreedPaths(s, true, true, s) + FreedPaths(c, false, cl, s),
                  dLog, FreedPaths(d, true, dl, if cl then c else s));
    }

    /** The page of an address below 2^39. */
    lemma PageAt(address: nat)
      requires address < L4_SPAN
      ensures Page(address / PAGE) == At(Indices(address))
    {
      IndicesArePagePath(address);
      assert PageOf(address) == address / PAGE;
    }

    /** A mapped page whose path teardown goes along has its frame freed. */
    lemma PageFreed(log: seq<nat>, x: Path)
      requires Readable() && Bounded(x) && |x| == 4 && At(x).Some?
      requires forall f :: f in owner && FreedAlong(owner[f], x, true) ==> f in log
      ensures At(x).value.frame in log
    {
      WalkOwned(mem[..], pgd, owner, x);
      assert x[..4] == x;
    }

    lemma PagesFreed(log: seq<nat>)
      requires Readable() && Layout(code, rodata, data, stack) && At(Indices(Top(stack))).Some?
      requires var s, c, d := Indices(Top(stack)), Indices(code.start), Indices(data.start);
               forall f :: f in log <==>
                 f in owner && (FreedAlong(owner[f], s, true) || FreedAlong(owner[f], c, At(c).Some?)
                                || FreedAlong(owner[f], d, At(d).Some?))
      ensures Page((stack.end - 1) / PAGE).Some? && Page((stack.end - 1) / PAGE).value.frame in log
      ensures Page(code.start / PAGE).Some? ==> Page(code.start / PAGE).value.frame in log
      ensures Page(data.start / PAGE).Some? ==> Page(data.start / PAGE).value.frame in log
    {
      var s, c, d := Indices(Top(stack)), Indices(code.start), Indices(data.start);
      assert Top(stack) == stack.end - 1 && Top(stack) < L4_SPAN;
      PageAt(Top(stack));
      PageAt(code.start);
      PageAt(data.start);
      PageFreed(log, s);
      if At(c).Some? { PageFreed(log, c); }
      if At(d).Some? { PageFreed(log, d); }
    }

    /**
      Teardown, for segments in three different 1 GB slots as in context.h, in any state in which the
      stack's last page is mapped and the code's and the data's first pages have their tables.
     */
    method CleanupContextMm() returns (ghost log: seq<nat>)
      requires Readable() && Layout(code, rodata, data, stack) && Top(stack) / L3_SPAN != data.start / L3_SPAN
      requires At(Indices(Top(stack))).Some?
      requires At(Indices(code.start)[..3]).Some? && At(Indices(data.start)[..3]).Some?
      modifies `osFree, `userFree, `freed
      ensures freed == old(freed) + log && Returned(owner, old(osFree), old(userFree), osFree, userFree, log)
      ensures var s, c, d := Indices(Top(stack)), Indices(code.start), Indices(data.start);
              var cl, dl := At(c).Some?, At(d).Some?;
              // freed are the frames along the three paths; a page that faults mapped elsewhere, and its
              // tables, are not
              && (forall f :: f in log <==>
                    f in owner
                      && (FreedAlong(owner[f], s, true) || FreedAlong(owner[f], c, cl) || FreedAlong(owner[f], d, dl)))
              // freed twice is the shared L3 table, always, and the last leaf found when a later one was unmapped
              && (forall f :: Twice(log, f) <==>
                    f in owner
                      && (owner[f] == s[..1] || (!cl && owner[f] == s) || (!dl && owner[f] == if cl then c else s)))
              // in four calls for the stack, three for the code and four for the data, one less for a leaf not there
              && |log| == 11 - (if cl then 0 else 1) - if dl then 0 else 1
      // in plain numbers: the frame of the page of the stack's last address, and those of the first code
      // and data pages if they are mapped
      ensures Page((stack.end - 1) / PAGE).Some? && Page((stack.end - 1) / PAGE).value.frame in log
      ensures Page(code.start / PAGE).Some? ==> Page(code.start / PAGE).value.frame in log
      ensures Page(data.start / PAGE).Some? ==> Page(data.start / PAGE).value.frame in log
      ensures forall f :: f in log ==> f in owner && if |owner[f]| < 4 then f in osFree else f in userFree
    {
      var s := ExtractOffsets(Top(stack));
      var c := ExtractOffsets(code.start);
      var d := ExtractOffsets(data.start);
      CleanupIndices(code, rodata, data, stack);
      log := FreeBlocks(s, c, d);
      CleanupLog(mem[..], pgd, owner, log, s, c, d, At(c).Some?, At(d).Some?);
      PagesFreed(log);
    }

    /** Straight after `PrepareContextMm`, teardown's three paths are there and take in all frames but the root. */
    lemma AlongPrepared()
      requires Readable() && Layout(code, rodata, data, stack) && Top(stack) / L3_SPAN != data.start / L3_SPAN
      requires Prepared(mem[..], pgd, Indices(Top(stack)), Indices(code.start), Indices(data.start))
      ensures var s, c, d := Indices(Top(stack)), Indices(code.start), Indices(data.start);
              && s[..1] == [0] && At(s).Some? && At(c).Some? && At(c[..3]).Some? && At(d).Some? && At(d[..3]).Some?
              && forall f :: f in owner ==>
                   (FreedAlong(owner[f], s, true) || FreedAlong(owner[f], c, true) || FreedAlong(owner[f], d, true) <==>
                    f != pgd)
    {
      ghost var s, c, d := Indices(Top(stack)), Indices(code.start), Indices(data.start);
      CleanupIndices(code, rodata, data, stack);
      ThreeWalked(mem[..], pgd, s, c, d);
      PrefixesWalked(mem[..], pgd, c);
      PrefixesWalked(mem[..], pgd, d);
      assert s[..1] == [0];
      forall f | f in owner ensures Along(owner[f], s) || Along(owner[f], c) || Along(owner[f], d) <==> f != pgd {
        PreparedOwners(mem[..], pgd, owner, s, c, d, f);
      }
    }

    /** Straight after `PrepareContextMm`, teardown frees every frame of the tree but the root. */
    method CleanupPrepared() returns (ghost log: seq<nat>)
      requires Readable() && Layout(code, rodata, data, stack) && Top(stack) / L3_SPAN != data.start / L3_SPAN
      requires Prepared(mem[..], pgd, Indices(Top(stack)), Indices(code.start), Indices(data.start))
      modifies `osFree, `userFree, `freed
      ensures freed == old(freed) + log && Returned(owner, old(osFree), old(userFree), osFree, userFree, log)
      ensures forall f :: f in log <==> f in owner && f != pgd
      ensures Page((stack.end - 1) / PAGE).Some? && Page((stack.end - 1) / PAGE).value.frame in log
      ensures forall f :: Twice(log, f) <==> f in owner && owner[f] == [0]
    {
      AlongPrepared();
      log := CleanupContextMm();
    }

    // ---- Whole runs ----

    /** In every valid state the frames of different paths, tables and leaves alike, are different. */
    lemma Unshared(p: Path, q: Path)
      requires Valid() && Bounded(p) && Bounded(q) && At(p).Some? && At(q).Some?
      ensures At(p).value.frame == At(q).value.frame <==> p == q
    {
      WalkOwned(mem[..], pgd, owner, p);
      WalkOwned(mem[..], pgd, owner, q);
    }

    /** Different pages translate to different frames, none of which is a table or free. */
    lemma FramesApart(p: nat, q: nat)
      requires Valid() && p < PAGES && q < PAGES && Page(p).Some? && Page(q).Some?
      ensures Page(p).value.frame == Page(q).value.frame <==> p == q
      ensures split <= Page(p).value.frame < frames && Page(p).value.frame !in userFree
    {
      Unshared(PagePath(p), PagePath(q));
      WalkOwned(mem[..], pgd, owner, PagePath(p));
      if PagePath(p) == PagePath(q) { PagePathInjective(p, q); }
    }

    /** There are as many frames as these pages and their tables, each accounted for, and only those are in use. */
    ghost predicate RoomFor(m: seq<nat>, pages: set<nat>)
      reads `pgd, `accounted
    {
      && accounted == FrameRange(0, frames)
      && Inside(m, pgd, pages) && Enough(frames, split, pages)
    }

    /** There is room for every page of the segments. */
    ghost predicate Roomy()
      reads this, mem
    {
      Layout(code, rodata, data, stack) && RoomFor(mem[..], SegmentPages(code, rodata, data, stack))
    }

    lemma RoomyServes(pages: set<nat>, p: nat)
      requires Tree() && Conserved() && Inside(mem[..], pgd, pages) && p in pages
      requires accounted == FrameRange(0, frames)
      requires Enough(frames, split, pages)
      ensures Serves(PagePath(p))
    {
      var m, x := mem[..], PagePath(p);
      forall f, g | f in owner && g in owner && f != g ensures owner[f] != owner[g] {
        OwnerInjective(m, pgd, owner, f, g);
      }
      forall f | f in owner ensures Walk(m, pgd, owner[f]).Some?
                                    && owner[f] in if f < split then TablePaths(pages) else LeafPaths(pages)
      {
        assert Leads(m, pgd, owner[f], f) && Asked(owner[f]);
      }
      MissingSize(m, pgd, x);
      forall k | 0 <= k < 4 ensures x[..k] in TablePaths(pages) {}
      FreeEnough(owner, osFree, 0, split, TablePaths(pages), MissingPaths(m, pgd, x));
      LeafPathsSize(pages);
      if Walk(m, pgd, x).None? { FreeEnough(owner, userFree, split, frames, LeafPaths(pages), {x}); }
    }

    /** The pools hold what the operation takes; only an admitted fault takes any. */
    predicate Suffices(op: Op)
      reads this, mem
    {
      op.FaultOp? && Admitted(op.address, op.error) ==> Serves(Indices(op.address))
    }

    /** Then no operation runs out of frames. */
    lemma RoomySuffices(op: Op)
      requires Valid() && Conserved() && Roomy()
      ensures Suffices(op)
    {
      if op.FaultOp? && Admitted(op.address, op.error) {
        var pages := SegmentPages(code, rodata, data, stack);
        PageInSegments(code, rodata, data, stack, op.address);
        IndicesArePagePath(op.address);
        RoomyServes(pages, PageOf(op.address));
      }
    }

    /** The address space looks like `s`. */
    ghost predicate Shows(s: Space)
      reads `pgd, `rodata, `data, `stack, mem
    {
      rodata == s.rodata && data == s.data && stack == s.stack && Mapped(mem[..], pgd, s.pages)
    }

    /** What a prepared context looks like. */
    lemma ShownAtStart()
      requires Layout(code, rodata, data, stack)
      requires Prepared(mem[..], pgd, Indices(Top(stack)), Indices(code.start), Indices(data.start))
      ensures Shows(AtStart(code, rodata, data, stack))
    {
      forall p: nat | p < PAGES
        ensures Translate(mem[..], pgd, p).Some? <==>
                p == Top(stack) / PAGE || p == code.start / PAGE || p == data.start / PAGE
      {
        PreparedPages(mem[..], pgd, Top(stack), code.start, data.start, p);
      }
      assert Top(stack) / PAGE < PAGES && code.start / PAGE < PAGES && data.start / PAGE < PAGES;
    }

    /** A space shown is placed by the layout, and closed exactly when the machine is. */
    lemma ShownClosed(s: Space)
      requires Valid() && Shows(s)
      ensures Placed(s, code) && (Closed(s) <==> Markers() && Confined())
    {
    }

    lemma InsideAtStart()
      requires Layout(code, rodata, data, stack)
      requires Prepared(mem[..], pgd, Indices(Top(stack)), Indices(code.start), Indices(data.start))
      ensures Inside(mem[..], pgd, SegmentPages(code, rodata, data, stack))
    {
      var pages := SegmentPages(code, rodata, data, stack);
      PageInSegments(code, rodata, data, stack, Top(stack));
      PageInSegments(code, rodata, data, stack, code.start);
      PageInSegments(code, rodata, data, stack, data.start);
      InsidePrepared(mem[..], pgd, pages, Top(stack), code.start, data.start);
    }

    /** `prepare_context_mm`, and what the context looks like then. */
    method PrepareShown()
      requires Conserved()
      requires Booted() && |osFree| >= 8 && |userFree| >= 2
      modifies `tlb, `accounted, `pgd, `argPfn, `osFree, `userFree, `owner, mem
      ensures Valid() && Conserved() && accounted == old(accounted) + {argPfn} && argPfn == old(argPfn)
      ensures Shows(AtStart(code, rodata, data, stack))
      ensures Confined() <==> data.start < data.nextFree
      ensures Layout(code, rodata, data, stack)
      ensures Enough(frames, split, SegmentPages(code, rodata, data, stack)) && accounted == FrameRange(0, frames) ==>
              Roomy()
    {
      PrepareContextMm();
      InsideAtStart();
      ConfinedAtStart();
      ShownAtStart();
    }

    lemma RoomyMore(m: seq<nat>, fault: nat, error: nat)
      requires Layout(code, rodata, data, stack) && RoomFor(m, SegmentPages(code, rodata, data, stack))
      requires Admitted(fault, error) && NewOnlyAlong(m, mem[..], pgd, Indices(fault))
      ensures Roomy()
    {
      PageInSegments(code, rodata, data, stack, fault);
      InsideMore(m, mem[..], pgd, SegmentPages(code, rodata, data, stack), fault);
    }

    method FaultMaps(fault: nat, error: nat, ghost s: Space) returns (a: nat)
      requires Valid() && Conserved() && Shows(s) && (Admitted(fault, error) ==> Serves(Indices(fault)))
      modifies `tlb, `osFree, `userFree, `owner, mem
      ensures Valid() && Conserved() && Shows(Next(s, FaultOp(fault, error))) && a == Answer(s, FaultOp(fault, error))
      ensures |old(osFree)| - 3 <= |osFree| && |old(userFree)| - 1 <= |userFree|
      ensures NewOnlyAlong(old(mem[..]), mem[..], pgd, Indices(fault))
      ensures !Admitted(fault, error) ==> mem[..] == old(mem[..])
    {
      ghost var m := mem[..];
      var r := HandlePageFault(fault, error);
      a := if r == Resume then 1 else 0;
      FaultMapped(m, mem[..], pgd, s, fault, error);
    }

    method FaultStep(fault: nat, error: nat, ghost s: Space) returns (a: nat)
      requires Valid() && Conserved() && Shows(s) && (Admitted(fault, error) ==> Serves(Indices(fault)))
      modifies `tlb, `osFree, `userFree, `owner, mem
      ensures Valid() && Conserved() && Shows(Next(s, FaultOp(fault, error))) && a == Answer(s, FaultOp(fault, error))
      ensures |old(osFree)| - 3 <= |osFree| && |old(userFree)| - 1 <= |userFree|
      ensures old(Roomy()) ==> Roomy()
      ensures old(Markers() && Confined()) ==> (Markers() && Confined() <==> Clean(s, FaultOp(fault, error)))
    {
      ghost var was := Closed(s);
      ShownClosed(s);
      if was { NextClosedIff(s, FaultOp(fault, error), code); }
      ghost var m := mem[..];
      a := FaultMaps(fault, error, s);
      if old(Roomy()) && Admitted(fault, error) { RoomyMore(m, fault, error); }
      ShownClosed(Next(s, FaultOp(fault, error)));
    }

    /** Markers that move take no room. */
    lemma RoomyAgain(rodata0: Segment, data0: Segment)
      requires Layout(code, rodata0, data0, stack) && RoomFor(mem[..], SegmentPages(code, rodata0, data0, stack))
      requires rodata == rodata0.(nextFree := rodata.nextFree) && data == data0.(nextFree := data.nextFree)
      ensures Roomy()
    {
      MarkersKeepPages(code, rodata0, data0, stack, rodata, data);
    }

    method ExpandStep(size: nat, prot: Prot, ghost s: Space) returns (a: nat)
      requires Valid() && Conserved() && Shows(s) && size < U32
      modifies `rodata, `data
      ensures Valid() && Conserved() && Shows(Next(s, ExpandOp(size, prot))) && a == Answer(s, ExpandOp(size, prot))
      ensures old(Roomy()) ==> Roomy()
    {
      ghost var rodata0, data0 := rodata, data;
      NextExpanded(s, size, prot);
      a := Expand(size, prot);
      if old(Roomy()) { RoomyAgain(rodata0, data0); }
    }

    lemma RoomyStill(m: seq<nat>, pages: set<nat>, size: nat, prot: Prot, s: Space)
      requires RoomFor(m, pages)
      requires if prot == OtherProt || ShrinkRefused(SegOf(s, prot), size) then mem[..] == m
               else Pruned(m, mem[..], pgd, SegOf(s, prot).nextFree, size)
      ensures RoomFor(mem[..], pages)
    {
      if !(prot == OtherProt || ShrinkRefused(SegOf(s, prot), size)) {
        InsidePruned(m, mem[..], pgd, pages, SegOf(s, prot).nextFree, size);
      }
    }

    lemma ShrunkInside(m: seq<nat>, rodata0: Segment, data0: Segment, size: nat, prot: Prot, s: Space)
      requires Layout(code, rodata0, data0, stack) && RoomFor(m, SegmentPages(code, rodata0, data0, stack))
      requires rodata == rodata0.(nextFree := rodata.nextFree) && data == data0.(nextFree := data.nextFree)
      requires if prot == OtherProt || ShrinkRefused(SegOf(s, prot), size) then mem[..] == m
               else Pruned(m, mem[..], pgd, SegOf(s, prot).nextFree, size)
      ensures Roomy()
    {
      var pages := SegmentPages(code, rodata0, data0, stack);
      RoomyStill(m, pages, size, prot, s);
      RoomyAgain(rodata0, data0);
    }

    method ShrinkPrunes(size: nat, prot: Prot, ghost s: Space) returns (a: nat)
      requires Valid() && Conserved() && Shows(s) && size < U32
      modifies `rodata, `data, mem, `owner, `osFree, `userFree, `freed, `tlb
      ensures Valid() && Conserved() && Shows(Next(s, ShrinkOp(size, prot))) && a == Answer(s, ShrinkOp(size, prot))
      ensures osFree == old(osFree) && old(userFree) <= userFree
      ensures old(Roomy()) ==> Roomy()
    {
      ghost var m := mem[..];
      ghost var log;
      NextShrunk(s, size, prot);
      a, log := Shrink(size, prot);
      ShrinkMapped(m, mem[..], pgd, s, size, prot);
      if old(Roomy()) { ShrunkInside(m, old(rodata), old(data), size, prot, s); }
    }

    method ShrinkStep(size: nat, prot: Prot, ghost s: Space) returns (a: nat)
      requires Valid() && Conserved() && Shows(s) && size < U32
      modifies `rodata, `data, mem, `owner, `osFree, `userFree, `freed, `tlb
      ensures Valid() && Conserved() && Shows(Next(s, ShrinkOp(size, prot))) && a == Answer(s, ShrinkOp(size, prot))
      ensures osFree == old(osFree) && old(userFree) <= userFree
      ensures old(Roomy()) ==> Roomy()
      ensures old(Markers() && Confined()) ==> (Markers() && Confined() <==> Clean(s, ShrinkOp(size, prot)))
    {
      ghost var was := Closed(s);
      ShownClosed(s);
      if was { NextClosedIff(s, ShrinkOp(size, prot), code); }
      a := ShrinkPrunes(size, prot, s);
      ShownClosed(Next(s, ShrinkOp(size, prot)));
    }

    method StepOn(op: Op, ghost s: Space) returns (a: nat)
      requires Valid() && Conserved() && Shows(s) && Suffices(op)
      requires op.ExpandOp? || op.ShrinkOp? ==> op.size < U32
      modifies `rodata, `data, `osFree, `userFree, `owner, `tlb, `freed, mem
      ensures Valid() && Conserved() && Shows(Next(s, op)) && a == Answer(s, op)
      ensures |old(osFree)| - 3 <= |osFree| && |old(userFree)| - 1 <= |userFree|
      ensures old(Roomy()) ==> Roomy()
    {
      a := 0;
      match op
      case FaultOp(fault, error) =>
        a := FaultStep(fault, error, s);
      case ExpandOp(size, prot) =>
        a := ExpandStep(size, prot, s);
      case ShrinkOp(size, prot) =>
        ghost var before := userFree;
        a := ShrinkStep(size, prot, s);
        CardGrows(before, userFree);
      case TlbOp(page) =>
        if page < PAGES && Page(page).Some? {
          TlbFill(page);
        }
    }

    /** One operation does to the pages and markers what the specification says. */
    method Step(op: Op, ghost s: Space) returns (a: nat)
      requires Valid() && Conserved() && Shows(s) && Suffices(op)
      requires op.ExpandOp? || op.ShrinkOp? ==> op.size < U32
      modifies `rodata, `data, `osFree, `userFree, `owner, `tlb, `freed, mem
      ensures Valid() && Conserved() && Shows(Next(s, op)) && a == Answer(s, op)
      ensures |old(osFree)| - 3 <= |osFree| && |old(userFree)| - 1 <= |userFree|
      ensures old(Markers() && Confined()) ==> (Markers() && Confined() <==> Clean(s, op))
      ensures old(Roomy()) ==> Roomy()
    {
      ShownClosed(s);
      if Closed(s) { NextClosedIff(s, op, code); }
      a := StepOn(op, s);
      ShownClosed(Next(s, op));
    }

    method RunOne(ops: seq<Op>, n: nat, ghost s: Space, answers: seq<nat>) returns (answers': seq<nat>)
      requires Valid() && Conserved() && Sizes(ops) && n < |ops| && Suffices(ops[n])
      requires Shows(SpaceAfter(s, ops[..n])) && AnswersOk(s, ops[..n], answers)
      modifies `rodata, `data, `osFree, `userFree, `owner, `tlb, `freed, mem
      ensures Valid() && Conserved() && (old(Roomy()) ==> Roomy())
      ensures |old(osFree)| - 3 <= |osFree| && |old(userFree)| - 1 <= |userFree|
      ensures Shows(SpaceAfter(s, ops[..n + 1])) && AnswersOk(s, ops[..n + 1], answers')
    {
      var a := StepOn(ops[n], SpaceAfter(s, ops[..n]));
      AnswersMore(s, ops, answers, n);
      answers' := answers + [a];
    }

    lemma PlentySuffices(op: Op)
      requires |osFree| >= 3 && |userFree| >= 1
      ensures Suffices(op)
    {
    }

    method RunOps(ops: seq<Op>, ghost s: Space) returns (n: nat, answers: seq<nat>)
      requires Valid() && Conserved() && Shows(s) && Sizes(ops)
      modifies `rodata, `data, `osFree, `userFree, `owner, `tlb, `freed, mem
      ensures Valid() && Conserved()
      ensures n <= |ops| && (n < |ops| ==> !Suffices(ops[n]))
      ensures old(Roomy()) || old(|osFree| >= 3 * |ops| && |userFree| >= |ops|) ==> n == |ops|
      ensures old(Roomy()) ==> Roomy()
      ensures Shows(SpaceAfter(s, ops[..n])) && AnswersOk(s, ops[..n], answers)
    {
      answers, n := [], 0;
      ghost var roomy, plenty := Roomy(), |osFree| >= 3 * |ops| && |userFree| >= |ops|;
      while n < |ops| && Suffices(ops[n])
        invariant n <= |ops| && Valid() && Conserved()
        invariant roomy ==> Roomy()
        invariant plenty ==> |osFree| >= 3 * (|ops| - n) && |userFree| >= |ops| - n
        invariant Shows(SpaceAfter(s, ops[..n])) && AnswersOk(s, ops[..n], answers)
      {
        answers := RunOne(ops, n, s, answers);
        n := n + 1;
      }
      if n < |ops| && roomy { RoomySuffices(ops[n]); }
      if n < |ops| && plenty { PlentySuffices(ops[n]); }
    }

    /**
      Any sequence of faults, `expand`, `shrink` and TLB fills, up to the first fault, if any, for which
      the pools hold too few frames: the tables implement the set of pages, with the specified answers,
      every invariant holds, and pages lie below the markers throughout exactly when the run is clean.
     */
    method Run(ops: seq<Op>, ghost s: Space) returns (n: nat, answers: seq<nat>)
      requires Valid() && Conserved() && Shows(s) && Sizes(ops)
      modifies `rodata, `data, `osFree, `userFree, `owner, `tlb, `freed, mem
      ensures Valid() && Conserved()
      ensures n <= |ops| && (n < |ops| ==> !Suffices(ops[n]))
      // with frames for every page and table of the segments, or four for every operation, no run stops
      ensures old(Roomy()) || old(|osFree| >= 3 * |ops| && |userFree| >= |ops|) ==> n == |ops|
      ensures old(Roomy()) ==> Roomy()
      ensures Shows(SpaceAfter(s, ops[..n])) && AnswersOk(s, ops[..n], answers)
      ensures Markers() && Confined() <==> Closed(SpaceAfter(s, ops[..n]))
      ensures old(Markers() && Confined()) ==> (StaysClosed(s, ops[..n]) <==> CleanRun(s, ops[..n]))
    {
      ShownClosed(s);
      ghost var closed := Closed(s);
      n, answers := RunOps(ops, s);
      ShownClosed(SpaceAfter(s, ops[..n]));
      if closed { ClosedRunIff(s, ops[..n], code); }
    }
  }

  /** A machine with one prepared context. */
  method Prepare(frames: nat, split: nat, argPfn: nat, code: Segment, rodata: Segment, data: Segment, stack: Segment)
    returns (a: AddressSpace)
    requires 8 <= split <= argPfn < frames <= MAX_FRAMES && split + 3 <= frames && Layout(code, rodata, data, stack)
    requires rodata.nextFree < U64 && data.nextFree < U64
    ensures fresh(a) && fresh(a.mem) && a.Valid() && a.Conserved() && a.accounted == FrameRange(0, frames)
    ensures a.Shows(AtStart(code, rodata, data, stack)) && a.code == code
    ensures a.Confined() <==> data.start < data.nextFree
    ensures Enough(frames, split, SegmentPages(code, rodata, data, stack)) ==> a.Roomy()
  {
    a := new AddressSpace(frames, split, argPfn, code, rodata, data, stack);
    a.PrepareShown();
  }

  /** A machine from its start: boot, `prepare_context_mm`, then any run. */
  method Boot(frames: nat, split: nat, argPfn: nat, code: Segment, rodata: Segment, data: Segment, stack: Segment,
              ops: seq<Op>)
    returns (a: AddressSpace, n: nat, answers: seq<nat>)
    requires 8 <= split <= argPfn < frames <= MAX_FRAMES && split + 3 <= frames && Layout(code, rodata, data, stack)
    requires rodata.nextFree < U64 && data.nextFree < U64 && Sizes(ops)
    ensures fresh(a) && fresh(a.mem) && a.Valid() && a.Conserved() && a.accounted == FrameRange(0, frames)
    ensures n <= |ops| && (n < |ops| ==> !a.Suffices(ops[n]))
    // with as many frames as the segments have pages and tables, memory never runs out
    ensures Enough(frames, split, SegmentPages(code, rodata, data, stack)) ==> n == |ops|
    ensures var s := AtStart(code, rodata, data, stack);
            && a.Shows(SpaceAfter(s, ops[..n])) && AnswersOk(s, ops[..n], answers)
            && (MarkerOk(rodata) && MarkerOk(data) && data.start < data.nextFree ==>
                  (StaysClosed(s, ops[..n]) <==> CleanRun(s, ops[..n])))
  {
    a := Prepare(frames, split, argPfn, code, rodata, data, stack);
    ghost var s := AtStart(code, rodata, data, stack);
    n, answers := a.Run(ops, s);
  }
}
