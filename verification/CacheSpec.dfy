/**
  The block cache on values: resident blocks from the most to the least recently used, over a disk.
  `BlockCache.dfy` proves the linked structures of `Assn4/objstore.c` against these steps.
 */
module CacheSpec {
  import opened Common

  datatype Entry<T> = Entry(block: nat, data: T, dirty: bool)

  datatype Cache<T> = Cache(lru: seq<Entry<T>>, disk: seq<T>)

  ghost predicate DistinctBlocks<T>(lru: seq<Entry<T>>) {
    forall i, j {:trigger Pair(i, j)} :: Pair(i, j) && 0 <= i < j < |lru| ==> lru[i].block != lru[j].block
  }

  lemma BlocksApart<T>(lru: seq<Entry<T>>)
    requires DistinctBlocks(lru)
    ensures forall i, j :: 0 <= i < j < |lru| ==> lru[i].block != lru[j].block
  {
    forall i, j | 0 <= i < j < |lru| ensures lru[i].block != lru[j].block {
      assert Pair(i, j);
    }
  }

  /** Resident blocks are different blocks of the disk, and a clean one holds what the disk holds. */
  ghost predicate WellFormed<T>(c: Cache<T>) {
    && (forall i :: 0 <= i < |c.lru| ==> c.lru[i].block < |c.disk|)
    && DistinctBlocks(c.lru)
    && (forall i :: 0 <= i < |c.lru| && !c.lru[i].dirty ==> c.lru[i].data == c.disk[c.lru[i].block])
  }

  /** The position of a block in the list, or the length of the list. */
  function Find<T>(lru: seq<Entry<T>>, b: nat): (i: nat)
    ensures i <= |lru| && (i < |lru| ==> lru[i].block == b)
    ensures forall j :: 0 <= j < i ==> lru[j].block != b
  {
    if |lru| == 0 then 0 else if lru[0].block == b then 0 else 1 + Find(lru[1..], b)
  }

  predicate Resident<T>(c: Cache<T>, b: nat) { Find(c.lru, b) < |c.lru| }

  /** What a reader of block `b` is meant to see. */
  function Contents<T>(c: Cache<T>, b: nat): T
    requires b < |c.disk|
  {
    if Resident(c, b) then c.lru[Find(c.lru, b)].data else c.disk[b]
  }

  lemma FindAt<T>(lru: seq<Entry<T>>, i: nat)
    requires i < |lru| && DistinctBlocks(lru)
    ensures Find(lru, lru[i].block) == i
  {
    BlocksApart(lru);
  }

  // ---- Steps ----

  /** Drop the least recently used entry, writing it back if it is dirty. */
  function Evict<T>(c: Cache<T>): Cache<T>
    requires |c.lru| > 0 && c.lru[|c.lru| - 1].block < |c.disk|
  {
    var last := c.lru[|c.lru| - 1];
    Cache(c.lru[..|c.lru| - 1], if last.dirty then c.disk[last.block := last.data] else c.disk)
  }

  lemma EvictWithout<T>(c: Cache<T>)
    requires |c.lru| > 0 && c.lru[|c.lru| - 1].block < |c.disk|
    ensures Evict(c).lru == Cut(c.lru, |c.lru| - 1)
  {
  }

  ghost function MakeRoom<T>(c: Cache<T>, cap: nat): Cache<T>
    requires WellFormed(c) && cap > 0
  {
    if |c.lru| >= cap then Evict(c) else c
  }

  /** The effect of a hit: the entry at `i` moves to the front. */
  function ToFront<T>(c: Cache<T>, i: nat): Cache<T>
    requires i < |c.lru|
  {
    c.(lru := [c.lru[i]] + Cut(c.lru, i))
  }

  ghost function ReadStep<T>(c: Cache<T>, b: nat, cap: nat): Cache<T>
    requires WellFormed(c) && cap > 0 && b < |c.disk|
  {
    var i := Find(c.lru, b);
    if i < |c.lru| then ToFront(c, i)
    else
      var r := MakeRoom(c, cap);
      r.(lru := [Entry(b, c.disk[b], false)] + r.lru)
  }

  ghost function WriteStep<T>(c: Cache<T>, b: nat, x: T, cap: nat): Cache<T>
    requires WellFormed(c) && cap > 0 && b < |c.disk|
  {
    var i := Find(c.lru, b);
    if i < |c.lru| then c.(lru := [Entry(b, x, true)] + Cut(c.lru, i))
    else
      var r := MakeRoom(c, cap);
      r.(lru := [Entry(b, x, true)] + r.lru)
  }

  /** The entry in front is replaced. */
  function InFront<T>(c: Cache<T>, e: Entry<T>): Cache<T>
    requires |c.lru| > 0
  {
    c.(lru := c.lru[0 := e])
  }

  /** A write to a resident block is a hit followed by overwriting the entry in front. */
  lemma WriteHit<T>(c: Cache<T>, b: nat, x: T, cap: nat, i: nat)
    requires WellFormed(c) && cap > 0 && b < |c.disk| && i == Find(c.lru, b) < |c.lru|
    ensures WriteStep(c, b, x, cap) == InFront(ToFront(c, i), Entry(b, x, true))
  {
  }

  /** `obj_sync`: write every dirty block; nothing is marked clean. */
  function Flushed<T>(lru: seq<Entry<T>>, disk: seq<T>): (d: seq<T>)
    ensures |d| == |disk|
  {
    if |lru| == 0 then disk
    else
      var d := Flushed(lru[1..], disk);
      if lru[0].dirty && lru[0].block < |disk| then d[lru[0].block := lru[0].data] else d
  }

  function SyncStep<T>(c: Cache<T>): Cache<T> {
    c.(disk := Flushed(c.lru, c.disk))
  }

  // ---- The cache is invisible ----

  ghost predicate SameContents<T>(c: Cache<T>, d: Cache<T>) {
    |c.disk| == |d.disk| && forall b :: 0 <= b < |c.disk| ==> Contents(d, b) == Contents(c, b)
  }

  lemma FoundInPrefix<T>(lru: seq<Entry<T>>, n: nat, b: nat)
    requires n < |lru|
    ensures Find(lru[..n], b) == if Find(lru, b) < n then Find(lru, b) else n
  {
  }

  lemma EvictKeeps<T>(c: Cache<T>)
    requires WellFormed(c) && |c.lru| > 0
    ensures WellFormed(Evict(c)) && SameContents(c, Evict(c))
  {
    BlocksApart(c.lru);
    var e := Evict(c);
    var n := |c.lru| - 1;
    forall b | 0 <= b < |c.disk| ensures Contents(e, b) == Contents(c, b) {
      FoundInPrefix(c.lru, n, b);
    }
  }

  lemma MovedDistinct<T>(lru: seq<Entry<T>>, i: nat, e: Entry<T>)
    requires i < |lru| && e.block == lru[i].block && DistinctBlocks(lru)
    ensures DistinctBlocks([e] + Cut(lru, i))
  {
    BlocksApart(lru);
  }

  lemma MovedWellFormed<T>(c: Cache<T>, i: nat, e: Entry<T>)
    requires WellFormed(c) && i < |c.lru| && e.block == c.lru[i].block
    requires !e.dirty ==> e.data == c.disk[e.block]
    ensures WellFormed(c.(lru := [e] + Cut(c.lru, i)))
  {
    MovedDistinct(c.lru, i, e);
    var l := [e] + Cut(c.lru, i);
    forall k | 0 <= k < |l|
      ensures l[k].block < |c.disk| && (!l[k].dirty ==> l[k].data == c.disk[l[k].block])
    {
      if k > 0 { assert l[k] == c.lru[if k <= i then k - 1 else k]; }
    }
  }

  lemma FindMoved<T>(lru: seq<Entry<T>>, i: nat, e: Entry<T>, b: nat)
    requires i < |lru| && e.block == lru[i].block && DistinctBlocks(lru)
    ensures var k, k' := Find(lru, b), Find([e] + Cut(lru, i), b);
            if b == e.block then k' == 0 && k == i
            else if k < |lru| then k' < |lru| && ([e] + Cut(lru, i))[k'] == lru[k]
            else k' == |lru|
  {
    var l := [e] + Cut(lru, i);
    var k, k' := Find(lru, b), Find(l, b);
    if b == e.block {
      FindAt(lru, i);
    } else if k < |lru| {
      var j := if k < i then k + 1 else k;
      MovedDistinct(lru, i, e);
      assert l[j] == lru[k];
      FindAt(l, j);
    } else {
      forall j | 0 <= j < |l| ensures l[j].block != b {
        if j > 0 { assert l[j] == lru[if j <= i then j - 1 else j]; }
      }
    }
  }

  lemma MoveToFront<T>(c: Cache<T>, i: nat, e: Entry<T>)
    requires WellFormed(c) && i < |c.lru| && e.block == c.lru[i].block
    requires !e.dirty ==> e.data == c.disk[e.block]
    ensures WellFormed(c.(lru := [e] + Cut(c.lru, i)))
    ensures forall b :: 0 <= b < |c.disk| ==>
              Contents(c.(lru := [e] + Cut(c.lru, i)), b) == if b == e.block then e.data else Contents(c, b)
  {
    var d := c.(lru := [e] + Cut(c.lru, i));
    MovedWellFormed(c, i, e);
    forall b | 0 <= b < |c.disk| ensures Contents(d, b) == if b == e.block then e.data else Contents(c, b) {
      FindMoved(c.lru, i, e, b);
    }
  }

  lemma AddInFront<T>(c: Cache<T>, e: Entry<T>)
    requires WellFormed(c) && e.block < |c.disk| && !Resident(c, e.block)
    requires !e.dirty ==> e.data == c.disk[e.block]
    ensures WellFormed(c.(lru := [e] + c.lru))
    ensures forall b :: 0 <= b < |c.disk| ==>
              Contents(c.(lru := [e] + c.lru), b) == if b == e.block then e.data else Contents(c, b)
  {
    BlocksApart(c.lru);
    var d := c.(lru := [e] + c.lru);
    assert d.lru[1..] == c.lru;
  }

  /** A read sees the block's contents and changes no block's. */
  lemma ReadInvisible<T>(c: Cache<T>, b: nat, cap: nat)
    requires WellFormed(c) && cap > 0 && b < |c.disk|
    ensures var r := ReadStep(c, b, cap);
            && WellFormed(r) && SameContents(c, r)
            && |r.lru| > 0 && r.lru[0].block == b && r.lru[0].data == Contents(c, b)
  {
    var i := Find(c.lru, b);
    if i < |c.lru| {
      MoveToFront(c, i, c.lru[i]);
    } else {
      if |c.lru| >= cap { EvictKeeps(c); FoundInPrefix(c.lru, |c.lru| - 1, b); }
      AddInFront(MakeRoom(c, cap), Entry(b, c.disk[b], false));
    }
  }

  /** A write changes the contents of its block and of no other. */
  lemma WriteVisible<T>(c: Cache<T>, b: nat, x: T, cap: nat)
    requires WellFormed(c) && cap > 0 && b < |c.disk|
    ensures var w := WriteStep(c, b, x, cap);
            && WellFormed(w) && |w.disk| == |c.disk|
            && forall k :: 0 <= k < |c.disk| ==> Contents(w, k) == if k == b then x else Contents(c, k)
  {
    var i := Find(c.lru, b);
    if i < |c.lru| {
      MoveToFront(c, i, Entry(b, x, true));
    } else {
      if |c.lru| >= cap { EvictKeeps(c); FoundInPrefix(c.lru, |c.lru| - 1, b); }
      AddInFront(MakeRoom(c, cap), Entry(b, x, true));
    }
  }

  lemma {:induction false} FlushedAt<T>(lru: seq<Entry<T>>, disk: seq<T>, b: nat)
    requires b < |disk| && DistinctBlocks(lru)
    ensures var i := Find(lru, b);
            Flushed(lru, disk)[b] == if i < |lru| && lru[i].dirty then lru[i].data else disk[b]
    decreases |lru|
  {
    BlocksApart(lru);
    if |lru| > 0 {
      FlushedAt(lru[1..], disk, b);
    }
  }

  /** After `obj_sync` the disk alone holds every block's contents. */
  lemma SyncFlushes<T>(c: Cache<T>)
    requires WellFormed(c)
    ensures WellFormed(SyncStep(c)) && SameContents(c, SyncStep(c))
    ensures forall b :: 0 <= b < |c.disk| ==> SyncStep(c).disk[b] == Contents(c, b)
  {
    forall b | 0 <= b < |c.disk| ensures SyncStep(c).disk[b] == Contents(c, b) {
      FlushedAt(c.lru, c.disk, b);
    }
    forall i | 0 <= i < |c.lru| ensures SyncStep(c).disk[c.lru[i].block] == c.lru[i].data {
      FindAt(c.lru, i);
      assert Contents(c, c.lru[i].block) == c.lru[i].data;
    }
  }

  // ---- Runs ----

  datatype Op<T> = Read(block: nat) | Write(block: nat, data: T) | Sync

  ghost function Apply<T>(c: Cache<T>, op: Op<T>, cap: nat): (d: Cache<T>)
    requires WellFormed(c) && cap > 0 && (op.Sync? || op.block < |c.disk|)
    ensures WellFormed(d) && |d.disk| == |c.disk|
  {
    match op
    case Read(b) => ReadInvisible(c, b, cap); ReadStep(c, b, cap)
    case Write(b, x) => WriteVisible(c, b, x, cap); WriteStep(c, b, x, cap)
    case Sync => SyncFlushes(c); SyncStep(c)
  }

  predicate InRange<T>(ops: seq<Op<T>>, n: nat) {
    forall i :: 0 <= i < |ops| ==> ops[i].Sync? || ops[i].block < n
  }

  /** The cache after a run that starts with nothing resident. */
  ghost function After<T>(disk: seq<T>, ops: seq<Op<T>>, cap: nat): (d: Cache<T>)
    requires InRange(ops, |disk|) && cap > 0
    ensures WellFormed(d) && |d.disk| == |disk|
  {
    if |ops| == 0 then Cache([], disk) else Apply(After(disk, ops[..|ops| - 1], cap), ops[|ops| - 1], cap)
  }

  /** The last value written to a block, or what the disk held at first. */
  function LastWritten<T>(disk: seq<T>, ops: seq<Op<T>>, b: nat): T
    requires b < |disk|
  {
    if |ops| == 0 then disk[b]
    else if ops[|ops| - 1].Write? && ops[|ops| - 1].block == b then ops[|ops| - 1].data
    else LastWritten(disk, ops[..|ops| - 1], b)
  }

  /** Whatever was read, written, evicted and synced, a block reads as the last value written to it. */
  lemma {:induction false} CacheInvisible<T>(disk: seq<T>, ops: seq<Op<T>>, cap: nat, b: nat)
    requires InRange(ops, |disk|) && cap > 0 && b < |disk|
    ensures Contents(After(disk, ops, cap), b) == LastWritten(disk, ops, b)
    ensures SyncStep(After(disk, ops, cap)).disk[b] == LastWritten(disk, ops, b)
    ensures |ops| > 0 && ops[|ops| - 1].Sync? ==> After(disk, ops, cap).disk[b] == LastWritten(disk, ops, b)
    decreases |ops|
  {
    SyncFlushes(After(disk, ops, cap));
    if |ops| > 0 {
      var c, op := After(disk, ops[..|ops| - 1], cap), ops[|ops| - 1];
      CacheInvisible(disk, ops[..|ops| - 1], cap, b);
      match op
      case Read(k) => ReadInvisible(c, k, cap);
      case Write(k, x) => WriteVisible(c, k, x, cap);
      case Sync => SyncFlushes(c);
    }
  }

  /** Each read among the first `n` operations was answered with the last value written before it. */
  ghost predicate Answered<T>(disk: seq<T>, ops: seq<Op<T>>, answers: seq<T>, n: nat)
    requires InRange(ops, |disk|) && n <= |ops|
  {
    |answers| == n && forall i :: 0 <= i < n && ops[i].Read? ==> answers[i] == LastWritten(disk, ops[..i], ops[i].block)
  }

  lemma OneMore<T>(disk: seq<T>, ops: seq<Op<T>>, i: nat, cap: nat, answers: seq<T>, x: T)
    requires InRange(ops, |disk|) && cap > 0 && i < |ops| && Answered(disk, ops, answers, i)
    requires ops[i].Read? ==> x == Contents(After(disk, ops[..i], cap), ops[i].block)
    ensures After(disk, ops[..i + 1], cap) == Apply(After(disk, ops[..i], cap), ops[i], cap)
    ensures Answered(disk, ops, answers + [x], i + 1)
  {
    assert ops[..i + 1][..i] == ops[..i];
    if ops[i].Read? { CacheInvisible(disk, ops[..i], cap, ops[i].block); }
  }

  /** The number of the last operation of a run that used a block; 0 if none did. */
  function LastUse<T>(ops: seq<Op<T>>, b: nat): nat {
    if |ops| == 0 then 0
    else if !ops[|ops| - 1].Sync? && ops[|ops| - 1].block == b then |ops|
    else LastUse(ops[..|ops| - 1], b)
  }

  ghost predicate ByRecency<T>(ops: seq<Op<T>>, l: seq<Entry<T>>) {
    && (forall i, j :: 0 <= i < j < |l| ==> LastUse(ops, l[i].block) > LastUse(ops, l[j].block))
    && (forall i :: 0 <= i < |l| ==> 0 < LastUse(ops, l[i].block) <= |ops|)
  }

  /** Putting the used block in front, whether it was resident or not, restores the order of last use. */
  lemma UsedToFront<T>(ops: seq<Op<T>>, op: Op<T>, l: seq<Entry<T>>, rest: seq<Entry<T>>, e: Entry<T>)
    requires ByRecency(ops, l) && !op.Sync? && e.block == op.block
    requires (exists i :: 0 <= i < |l| && l[i].block == e.block && rest == Cut(l, i)) ||
             (rest <= l && forall i :: 0 <= i < |l| ==> l[i].block != e.block)
    ensures ByRecency(ops + [op], [e] + rest)
  {
    var ops' := ops + [op];
    assert ops'[..|ops|] == ops;
    var l' := [e] + rest;
    forall i | 0 <= i < |rest|
      ensures rest[i].block != e.block && LastUse(ops', rest[i].block) == LastUse(ops, rest[i].block)
    {
    }
    forall i, j | 0 <= i < j < |l'| ensures LastUse(ops', l'[i].block) > LastUse(ops', l'[j].block) {
      if i > 0 { assert l'[i] == rest[i - 1] && l'[j] == rest[j - 1]; }
    }
  }

  lemma OrderKept<T>(ops: seq<Op<T>>, op: Op<T>, c: Cache<T>, cap: nat)
    requires WellFormed(c) && cap > 0 && (op.Sync? || op.block < |c.disk|)
    requires |c.lru| <= cap && ByRecency(ops, c.lru)
    ensures |Apply(c, op, cap).lru| <= cap && ByRecency(ops + [op], Apply(c, op, cap).lru)
  {
    if op.Sync? {
      assert (ops + [op])[..|ops|] == ops;
      forall b ensures LastUse(ops + [op], b) == LastUse(ops, b) {}
    } else {
      var i := Find(c.lru, op.block);
      var rest := if i < |c.lru| then Cut(c.lru, i) else MakeRoom(c, cap).lru;
      var after := Apply(c, op, cap);
      assert after.lru == [after.lru[0]] + rest;
      UsedToFront(ops, op, c.lru, rest, after.lru[0]);
    }
  }

  /** The list is in the order of last use, so the entry at its end, the one evicted, is the one used longest ago. */
  lemma {:induction false} RecencyOrder<T>(disk: seq<T>, ops: seq<Op<T>>, cap: nat)
    requires InRange(ops, |disk|) && cap > 0
    ensures |After(disk, ops, cap).lru| <= cap && ByRecency(ops, After(disk, ops, cap).lru)
    decreases |ops|
  {
    if |ops| > 0 {
      var before, op := ops[..|ops| - 1], ops[|ops| - 1];
      RecencyOrder(disk, before, cap);
      assert before + [op] == ops;
      OrderKept(before, op, After(disk, before, cap), cap);
    }
  }

  // ---- As written: what a hit, a full cache and a chain do without the repairs ----

  /** The hit of the source without repair (a): the node that replaces the old one is clean. */
  function TouchAsWritten<T>(c: Cache<T>, i: nat): Cache<T>
    requires i < |c.lru|
  {
    c.(lru := [c.lru[i].(dirty := false)] + Cut(c.lru, i))
  }

  lemma TouchedAt<T>(c: Cache<T>, i: nat, b: nat)
    requires WellFormed(c) && i < |c.lru| && b < |c.disk|
    ensures SyncStep(TouchAsWritten(c, i)).disk[b] == if b == c.lru[i].block then c.disk[b] else Contents(c, b)
  {
    var e, t := c.lru[i].(dirty := false), TouchAsWritten(c, i);
    MovedDistinct(c.lru, i, e);
    FindMoved(c.lru, i, e, b);
    FlushedAt(t.lru, c.disk, b);
  }

  /**
    After such a hit, `obj_sync` stores every block's contents exactly when the block hit had nothing to write
    back.
   */
  lemma HitAsWrittenFlushes<T>(c: Cache<T>, i: nat)
    requires WellFormed(c) && i < |c.lru|
    ensures (forall b :: 0 <= b < |c.disk| ==> SyncStep(TouchAsWritten(c, i)).disk[b] == Contents(c, b)) <==>
            !c.lru[i].dirty || c.lru[i].data == c.disk[c.lru[i].block]
  {
    var e := c.lru[i];
    forall b | 0 <= b < |c.disk|
      ensures SyncStep(TouchAsWritten(c, i)).disk[b] == if b == e.block then c.disk[b] else Contents(c, b)
    {
      TouchedAt(c, i, b);
    }
    FindAt(c.lru, i);
    assert Contents(c, e.block) == e.data;
  }

  /** A concrete run: write 1 to block 0, read it back, sync; the disk still holds 0. */
  lemma LostWrite()
    ensures var c := WriteStep(Cache([], [0]), 0, 1, 8);
            && Find(c.lru, 0) == 0 && Contents(TouchAsWritten(c, 0), 0) == 1
            && SyncStep(TouchAsWritten(c, 0)).disk == [0]
  {
    var c := WriteStep(Cache([], [0]), 0, 1, 8);
    assert c.lru == [Entry(0, 1, true)];
    assert TouchAsWritten(c, 0).lru == [Entry(0, 1, false)];
    assert Flushed(TouchAsWritten(c, 0).lru[1..], [0]) == [0];
  }

  const SLOTS: nat := 0x8000     // 128 MB of cache in blocks
  const CACHE_HTSIZE: nat := 0x8000

  /**
    What `get_block_for_cache` may answer while `slots` are the residents' slots: 0 exactly when ids 2 and up
    are taken.
   */
  ghost predicate SlotAnswer(slots: seq<nat>, id: nat) {
    if id == 0 then forall k :: 2 <= k < SLOTS ==> k in slots else 2 <= id < SLOTS && id !in slots
  }

  function Staying(slots: seq<nat>): seq<nat> {
    if |slots| >= CACHE_HTSIZE - 1 then slots[..|slots| - 1] else slots
  }

  /** A miss as written: the slot is taken first, and only then, at 32767 residents, the last one is evicted. */
  function MissAsWritten(slots: seq<nat>, id: nat): seq<nat> {
    [id] + Staying(slots)
  }

  /**
    A miss as written leaves residents on different slots exactly when a slot was free or no resident that
    stays is on slot 0.
   */
  lemma SlotsStayDistinctIff(slots: seq<nat>, id: nat)
    requires Distinct(slots) && SlotAnswer(slots, id)
    ensures Distinct(MissAsWritten(slots, id)) <==>
            (exists k :: 2 <= k < SLOTS && k !in slots) || 0 !in Staying(slots)
  {
    var m := MissAsWritten(slots, id);
    Apart(slots);
    assert m[0] == id;
    assert id != 0 ==> 2 <= id < SLOTS && id !in slots;
    if 0 in Staying(slots) && id == 0 {
      var j :| 0 <= j < |Staying(slots)| && Staying(slots)[j] == 0;
      assert m[j + 1] == 0 && Pair(0, j + 1);
    }
  }

  lemma {:induction false} Pigeonhole(s: seq<nat>, lo: nat, hi: nat)
    requires lo <= hi && forall k :: lo <= k < hi ==> k in s
    ensures hi - lo <= |s|
    decreases hi
  {
    if lo < hi {
      assert hi - 1 in s;
      var i :| 0 <= i < |s| && s[i] == hi - 1;
      var rest := s[..i] + s[i + 1..];
      forall k | lo <= k < hi - 1 ensures k in rest {
        assert k in s;
        var j :| 0 <= j < |s| && s[j] == k;
        assert rest[if j < i then j else j - 1] == k;
      }
      Pigeonhole(rest, lo, hi - 1);
    }
  }

  lemma {:induction false} AtMost(s: seq<nat>, lo: nat, hi: nat)
    requires lo <= hi && Distinct(s) && forall i :: 0 <= i < |s| ==> lo <= s[i] < hi
    ensures |s| <= hi - lo
    decreases hi
  {
    Apart(s);
    if |s| > 0 {
      var first := s[0];
      assert lo <= first < hi;
      if i :| 0 <= i < |s| && s[i] == hi - 1 {
        AtMost(s[..i] + s[i + 1..], lo, hi - 1);
      } else {
        AtMost(s, lo, hi - 1);
      }
    }
  }

  /** Distinct values of an interval that are as many as it holds are all of it. */
  lemma {:induction false} AllTaken(s: seq<nat>, lo: nat, hi: nat)
    requires lo <= hi && Distinct(s) && |s| == hi - lo && forall i :: 0 <= i < |s| ==> lo <= s[i] < hi
    ensures forall k :: lo <= k < hi ==> k in s
    decreases hi
  {
    Apart(s);
    if lo < hi {
      if i :| 0 <= i < |s| && s[i] == hi - 1 {
        var rest := s[..i] + s[i + 1..];
        AllTaken(rest, lo, hi - 1);
        forall k | lo <= k < hi ensures k in s {
          if k < hi - 1 { assert k in rest; }
        }
      } else {
        AtMost(s, lo, hi - 1);
      }
    }
  }

  /** From a cache with every slot in use, two misses in a row put two residents on slot 0. */
  lemma SlotZeroShared(slots: seq<nat>, id1: nat, id2: nat)
    requires Distinct(slots) && |slots| == SLOTS - 2 && forall i :: 0 <= i < |slots| ==> 2 <= slots[i] < SLOTS
    requires SlotAnswer(slots, id1) && SlotAnswer(MissAsWritten(slots, id1), id2)
    ensures var m := MissAsWritten(MissAsWritten(slots, id1), id2); |m| >= 2 && m[0] == m[1] == 0
  {
    AllTaken(slots, 2, SLOTS);
    var m1 := MissAsWritten(slots, id1);
    assert m1[1..] == slots;
    assert forall k :: 2 <= k < SLOTS ==> k in m1;
  }
}
