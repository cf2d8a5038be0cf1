/**
  Which blocks the cache keeps, which of them are dirty, and when the disk is written: what its users
  cannot see of it, but its replacement policy and its write-back promise.
 */
module CacheUse {
  import opened Common
  import opened CacheSpec

  // ---- One operation ----

  /** A resident block is dirty exactly when this operation wrote it or it was dirty before. */
  lemma DirtyIff<T>(c: Cache<T>, op: Op<T>, cap: nat, i: nat)
    requires WellFormed(c) && cap > 0 && (op.Sync? || op.block < |c.disk|) && i < |Apply(c, op, cap).lru|
    ensures var e := Apply(c, op, cap).lru[i];
            e.dirty <==> (op.Write? && e.block == op.block) ||
                         exists j :: 0 <= j < |c.lru| && c.lru[j].block == e.block && c.lru[j].dirty
  {
    BlocksApart(c.lru);
  }

  /** The disk is written at dirty blocks alone: all of them by a sync, and by another operation one that it evicts. */
  lemma WrittenBack<T>(c: Cache<T>, op: Op<T>, cap: nat, b: nat)
    requires WellFormed(c) && cap > 0 && (op.Sync? || op.block < |c.disk|) && b < |c.disk|
    ensures var d := Apply(c, op, cap);
            d.disk[b] != c.disk[b] ==>
              && (exists j :: 0 <= j < |c.lru| && c.lru[j].block == b && c.lru[j].dirty)
              && (op.Sync? || forall k :: 0 <= k < |d.lru| ==> d.lru[k].block != b)
  {
    BlocksApart(c.lru);
    if op.Sync? { FlushedAt(c.lru, c.disk, b); }
  }

  // ---- Runs ----

  predicate In<T>(lru: seq<Entry<T>>, b: nat) {
    exists i :: 0 <= i < |lru| && lru[i].block == b
  }

  /** A block used and not resident was used before all that are, and then the cache is full. */
  ghost predicate LongAgo<T>(ops: seq<Op<T>>, lru: seq<Entry<T>>, cap: nat) {
    forall b: nat {:trigger In(lru, b)} :: !In(lru, b) && LastUse(ops, b) > 0 ==>
      |lru| == cap && forall i :: 0 <= i < |lru| ==> LastUse(ops, b) < LastUse(ops, lru[i].block)
  }

  /** Behind the block in front stands what was there before, less the block used or the one evicted. */
  lemma BehindFront<T>(c: Cache<T>, op: Op<T>, cap: nat, k: nat)
    requires WellFormed(c) && cap > 0 && !op.Sync? && op.block < |c.disk|
    requires 0 < k < |Apply(c, op, cap).lru|
    ensures var i := Find(c.lru, op.block);
            var j := if i < |c.lru| && k > i then k else k - 1;
            j < |c.lru| && Apply(c, op, cap).lru[k] == c.lru[j]
  {
  }

  lemma Leaves<T>(c: Cache<T>, op: Op<T>, cap: nat, b: nat)
    requires WellFormed(c) && 0 < cap && |c.lru| <= cap && !op.Sync? && op.block < |c.disk|
    ensures In(c.lru, b) && !In(Apply(c, op, cap).lru, b) ==>
              && !In(c.lru, op.block) && |c.lru| == cap && b == c.lru[cap - 1].block
  {
    var l, l', i := c.lru, Apply(c, op, cap).lru, Find(c.lru, op.block);
    if j :| 0 <= j < |l| && l[j].block == b {
      if i < |l| {
        assert l'[if j == i then 0 else if j < i then j + 1 else j].block == b;
      } else if j < |l| - 1 || |l| < cap {
        assert l'[j + 1].block == b;
      }
    }
  }

  lemma LongAgoUsed<T>(ops: seq<Op<T>>, op: Op<T>, c: Cache<T>, cap: nat)
    requires WellFormed(c) && cap > 0 && !op.Sync? && op.block < |c.disk|
    requires |c.lru| <= cap && ByRecency(ops, c.lru) && LongAgo(ops, c.lru, cap)
    ensures LongAgo(ops + [op], Apply(c, op, cap).lru, cap)
  {
    var l, l', ops' := c.lru, Apply(c, op, cap).lru, ops + [op];
    assert ops'[..|ops|] == ops && l'[0].block == op.block;
    forall b: nat | !In(l', b) && LastUse(ops', b) > 0
      ensures |l'| == cap && forall k :: 0 <= k < |l'| ==> LastUse(ops', b) < LastUse(ops', l'[k].block)
    {
      assert b != op.block && LastUse(ops', b) == LastUse(ops, b);
      Leaves(c, op, cap, b);
      assert |l| == cap;
      forall k | 0 <= k < |l'| ensures LastUse(ops', b) < LastUse(ops', l'[k].block) {
        if k > 0 { BehindFront(c, op, cap, k); }
      }
    }
  }

  lemma {:induction false} LongAgoAfter<T>(disk: seq<T>, ops: seq<Op<T>>, cap: nat)
    requires InRange(ops, |disk|) && cap > 0
    ensures LongAgo(ops, After(disk, ops, cap).lru, cap)
    decreases |ops|
  {
    if |ops| > 0 {
      var before, op := ops[..|ops| - 1], ops[|ops| - 1];
      LongAgoAfter(disk, before, cap);
      RecencyOrder(disk, before, cap);
      assert before + [op] == ops;
      if !op.Sync? {
        LongAgoUsed(before, op, After(disk, before, cap), cap);
      } else {
        assert forall b {:trigger LastUse(ops, b)} :: LastUse(ops, b) == LastUse(before, b);
      }
    }
  }

  ghost function Blocks<T>(lru: seq<Entry<T>>): set<nat> {
    set i | 0 <= i < |lru| :: lru[i].block
  }

  lemma {:induction false} BlocksSize<T>(lru: seq<Entry<T>>)
    requires DistinctBlocks(lru)
    ensures |Blocks(lru)| == |lru|
    decreases |lru|
  {
    BlocksApart(lru);
    if |lru| > 0 {
      var n := |lru| - 1;
      var t := lru[..n];
      BlocksSize(t);
      assert forall i :: 0 <= i < n ==> t[i] == lru[i];
      assert Blocks(lru) == Blocks(t) + {lru[n].block};
    }
  }

  /** The blocks among the first `n` that were used since `b` was used last. */
  ghost function UsedSince<T>(ops: seq<Op<T>>, b: nat, n: nat): set<nat> {
    set k | 0 <= k < n && LastUse(ops, k) > LastUse(ops, b)
  }

  /** The block at position `i` of the list is the one that `i` others were used after. */
  lemma PositionIs<T>(ops: seq<Op<T>>, lru: seq<Entry<T>>, cap: nat, n: nat, i: nat)
    requires ByRecency(ops, lru) && LongAgo(ops, lru, cap) && DistinctBlocks(lru) && i < |lru|
    requires forall j :: 0 <= j < |lru| ==> lru[j].block < n
    ensures |UsedSince(ops, lru[i].block, n)| == i
  {
    var b := lru[i].block;
    forall k: nat ensures k in UsedSince(ops, b, n) <==> k in Blocks(lru[..i]) {
      if k in UsedSince(ops, b, n) {
        assert In(lru, k);
        var j :| 0 <= j < |lru| && lru[j].block == k;
        assert j < i && lru[..i][j] == lru[j];
      }
      if k in Blocks(lru[..i]) {
        var j :| 0 <= j < i && lru[..i][j].block == k;
        assert lru[j].block == k;
      }
    }
    assert UsedSince(ops, b, n) == Blocks(lru[..i]);
    BlocksApart(lru);
    BlocksSize(lru[..i]);
  }

  /**
    Least recently used, exactly: after any run a block is in the cache if and only if it was used and fewer
    than `cap` different blocks were used since.
   */
  lemma ResidentIff<T>(disk: seq<T>, ops: seq<Op<T>>, cap: nat, b: nat)
    requires InRange(ops, |disk|) && cap > 0 && b < |disk|
    ensures (exists i :: 0 <= i < |After(disk, ops, cap).lru| && After(disk, ops, cap).lru[i].block == b) <==>
            LastUse(ops, b) > 0 && |UsedSince(ops, b, |disk|)| < cap
  {
    var l := After(disk, ops, cap).lru;
    RecencyOrder(disk, ops, cap);
    LongAgoAfter(disk, ops, cap);
    if i :| 0 <= i < |l| && l[i].block == b {
      PositionIs(ops, l, cap, |disk|, i);
    } else if LastUse(ops, b) > 0 {
      assert !In(l, b);
      assert Blocks(l) <= UsedSince(ops, b, |disk|);
      BlocksSize(l);
      CardGrows(Blocks(l), UsedSince(ops, b, |disk|));
    }
  }
}
