/**
  The three bitmap allocators of `Assn4/objstore.c`: a byte array, 8 ids to a byte, ids 0 and 1
  reserved, searched next-fit from the byte where the last id was found.
 */
module Bitmaps {
  import opened Common

  // ---- Bits ----

  /** `1 << j` */
  function Mask(j: nat): bv8
    requires j < 8
  {
    if j == 0 then 1 else if j == 1 then 2 else if j == 2 then 4 else if j == 3 then 8
    else if j == 4 then 16 else if j == 5 then 32 else if j == 6 then 64 else 128
  }

  /** Bit `j` of a byte is the one worth 2 to the `j`. */
  lemma MaskIs(j: nat)
    requires j < 8
    ensures Mask(j) == (1 as bv8) << j
  {
  }

  lemma SetBit(b: bv8, j: nat, k: nat)
    requires j < 8 && k < 8
    ensures (b | Mask(j)) & Mask(k) != 0 <==> j == k || b & Mask(k) != 0
  {
  }

  lemma ClearBit(b: bv8, j: nat, k: nat)
    requires j < 8 && k < 8
    ensures b & (Mask(j) ^ 0xff) & Mask(k) != 0 <==> j != k && b & Mask(k) != 0
  {
  }

  predicate Bit(m: seq<bv8>, id: nat)
    requires id < 8 * |m|
  {
    m[id / 8] & Mask(id % 8) != 0
  }

  /** An id that the search may hand out. */
  predicate Clear(m: seq<bv8>, id: nat) {
    2 <= id < 8 * |m| && !Bit(m, id)
  }

  /** How many bytes a search from byte `itr` passes before it comes to that of `id`. */
  function ByteRank(n: nat, itr: nat, id: nat): (r: nat)
    requires itr < n && id < 8 * n
    ensures r < n
  {
    if id / 8 >= itr then id / 8 - itr else id / 8 + n - itr
  }

  /** Where `id` stands in a search that starts at byte `itr`. */
  function Rank(n: nat, itr: nat, id: nat): nat
    requires itr < n && id < 8 * n
  {
    8 * ByteRank(n, itr, id) + id % 8
  }

  ghost predicate FirstClear(m: seq<bv8>, itr: nat, id: nat)
    requires itr < |m|
  {
    Clear(m, id) && forall k :: Clear(m, k) ==> Rank(|m|, itr, id) <= Rank(|m|, itr, k)
  }

  /** In plain order: the least clear id from the cursor's byte up if there is one, otherwise the least of all. */
  lemma FirstFromCursor(m: seq<bv8>, itr: nat, id: nat)
    requires itr < |m| && FirstClear(m, itr, id)
    ensures (exists k: nat :: Clear(m, k) && k / 8 >= itr) ==>
              id / 8 >= itr && forall k: nat :: Clear(m, k) && k / 8 >= itr ==> id <= k
    ensures !(exists k: nat :: Clear(m, k) && k / 8 >= itr) ==> forall k :: Clear(m, k) ==> id <= k
  {
  }

  /** `x` comes before `y` in the circle of ids that begins at `lo`. */
  predicate Before(lo: nat, x: nat, y: nat) {
    if x >= lo then y < lo || x < y else x < y < lo
  }

  lemma NextInCircle(m: seq<bv8>, lo: nat, itr: nat, last: nat, id: nat)
    requires itr < |m| && FirstClear(m, itr, id) && forall k: nat :: Clear(m, k) ==> Before(lo, last, k)
    requires last / 8 == itr && lo % 8 == 0
    ensures forall k: nat :: Clear(m, k) && k != id ==> Before(lo, id, k)
  {
    FirstFromCursor(m, itr, id);
    forall k: nat | Clear(m, k) && k != id ensures Before(lo, id, k) {
      assert Before(lo, last, k) && Before(lo, last, id);
    }
  }

  /** After allocations alone from the bits `m` and the cursor at byte `lo / 8`: the answers so far, what is left. */
  ghost predicate Rising(m: seq<bv8>, lo: nat, b: seq<bv8>, itr: nat, ids: seq<nat>) {
    && |b| == |m| && itr < |m| && lo % 8 == 0 && (if ids == [] then 8 * itr == lo else itr == ids[|ids| - 1] / 8)
    && (forall i, j :: 0 <= i < j < |ids| ==> Before(lo, ids[i], ids[j]))
    && (forall i, k: nat :: 0 <= i < |ids| && Clear(b, k) ==> Before(lo, ids[i], k))
    && (forall k: nat :: Clear(b, k) <==> Clear(m, k) && k !in ids)
    && (forall i :: 0 <= i < |ids| ==> Clear(m, ids[i]))
  }

  lemma RisingMore(m: seq<bv8>, lo: nat, b: seq<bv8>, itr: nat, ids: seq<nat>, b': seq<bv8>, id: nat)
    requires Rising(m, lo, b, itr, ids) && FirstClear(b, itr, id) && |b'| == |b|
    requires forall k: nat :: Clear(b', k) <==> Clear(b, k) && k != id
    ensures Rising(m, lo, b', id / 8, ids + [id])
  {
    if ids != [] {
      NextInCircle(b, lo, itr, ids[|ids| - 1], id);
    } else {
      FirstFromCursor(b, itr, id);
    }
  }

  lemma NoneClear(m: seq<bv8>)
    ensures (forall k :: !Clear(m, k)) <==> forall k :: 2 <= k < 8 * |m| ==> Bit(m, k)
  {
    if forall k :: !Clear(m, k) {
      forall k | 2 <= k < 8 * |m| ensures Bit(m, k) { assert !Clear(m, k); }
    }
  }

  // ---- Runs ----

  datatype Op = AllocOp | FreeOp(k: nat)   // FreeOp gives back the k-th id held

  ghost predicate Holds(m: seq<bv8>, m': seq<bv8>, held: seq<nat>) {
    && |m'| == |m|
    && (forall i, j :: 0 <= i < j < |held| ==> held[i] != held[j])
    && (forall i :: 0 <= i < |held| ==> Clear(m, held[i]))
    && (forall k :: 0 <= k < 8 * |m| ==> (Bit(m', k) <==> Bit(m, k) || k in held))
  }

  lemma HoldsMore(m: seq<bv8>, b: seq<bv8>, b': seq<bv8>, held: seq<nat>, id: nat)
    requires Holds(m, b, held) && Clear(b, id) && |b'| == |b|
    requires forall k :: 0 <= k < 8 * |b| ==> (Bit(b', k) <==> k == id || Bit(b, k))
    ensures Holds(m, b', held + [id])
  {
  }

  lemma HoldsLess(m: seq<bv8>, b: seq<bv8>, b': seq<bv8>, held: seq<nat>, k: nat)
    requires Holds(m, b, held) && k < |held| && |b'| == |b|
    requires forall i :: 0 <= i < 8 * |b| ==> (Bit(b', i) <==> i != held[k] && Bit(b, i))
    ensures Holds(m, b', held[..k] + held[k + 1..])
  {
    var rest := held[..k] + held[k + 1..];
    forall x ensures x in rest <==> x in held && x != held[k] {
      if x in held && x != held[k] {
        var i :| 0 <= i < |held| && held[i] == x;
        assert rest[if i < k then i else i - 1] == x;
      }
    }
  }

  /** The ids held after a run in which the operations gave these answers. */
  function HeldAfter(ops: seq<Op>, answers: seq<nat>): seq<nat>
    requires |answers| == |ops|
  {
    if |ops| == 0 then []
    else
      var n := |ops| - 1;
      var h := HeldAfter(ops[..n], answers[..n]);
      match ops[n]
      case AllocOp => if answers[n] != 0 then h + [answers[n]] else h
      case FreeOp(k) => if k < |h| then h[..k] + h[k + 1..] else h
  }

  /** An allocation answers 0 exactly when every id clear at first is held, otherwise such an id that is not. */
  ghost predicate AnswerOk(m: seq<bv8>, held: seq<nat>, id: nat) {
    && (id == 0 <==> forall k :: Clear(m, k) ==> k in held)
    && (id != 0 ==> Clear(m, id) && id !in held)
  }

  ghost predicate AnswersOk(m: seq<bv8>, ops: seq<Op>, answers: seq<nat>)
    requires |answers| == |ops|
  {
    |ops| == 0 ||
    (var n := |ops| - 1;
     && AnswersOk(m, ops[..n], answers[..n])
     && (ops[n].AllocOp? ==> AnswerOk(m, HeldAfter(ops[..n], answers[..n]), answers[n])))
  }

  lemma HeldMore(m: seq<bv8>, ops: seq<Op>, answers: seq<nat>, op: Op, id: nat)
    requires |answers| == |ops| && AnswersOk(m, ops, answers)
    requires op.AllocOp? ==> AnswerOk(m, HeldAfter(ops, answers), id)
    ensures AnswersOk(m, ops + [op], answers + [id])
    ensures var h := HeldAfter(ops, answers);
            HeldAfter(ops + [op], answers + [id]) ==
            match op
            case AllocOp => if id != 0 then h + [id] else h
            case FreeOp(k) => if k < |h| then h[..k] + h[k + 1..] else h
  {
    assert (ops + [op])[..|ops|] == ops && (answers + [id])[..|ops|] == answers;
  }

  lemma HeldNext(m: seq<bv8>, ops: seq<Op>, i: nat, answers: seq<nat>, id: nat)
    requires i < |ops| && |answers| == i && AnswersOk(m, ops[..i], answers)
    requires ops[i].AllocOp? ==> AnswerOk(m, HeldAfter(ops[..i], answers), id)
    ensures AnswersOk(m, ops[..i + 1], answers + [id])
    ensures var h := HeldAfter(ops[..i], answers);
            HeldAfter(ops[..i + 1], answers + [id]) ==
            match ops[i]
            case AllocOp => if id != 0 then h + [id] else h
            case FreeOp(k) => if k < |h| then h[..k] + h[k + 1..] else h
  {
    HeldMore(m, ops[..i], answers, ops[i], id);
    assert ops[..i + 1] == ops[..i] + [ops[i]];
  }

  ghost function Used(m: seq<bv8>): set<nat> {
    set k | 0 <= k < 8 * |m| && Bit(m, k)
  }

  ghost function Elems(s: seq<nat>): set<nat> {
    set x | x in s
  }

  lemma {:induction false} DistinctCount(s: seq<nat>)
    requires forall i, j :: 0 <= i < j < |s| ==> s[i] != s[j]
    ensures |Elems(s)| == |s|
    decreases |s|
  {
    if |s| > 0 {
      var t := s[..|s| - 1];
      DistinctCount(t);
      assert s == t + [s[|s| - 1]];
      assert Elems(s) == Elems(t) + {s[|s| - 1]} && s[|s| - 1] !in t;
    }
  }

  lemma HoldsCount(m: seq<bv8>, m': seq<bv8>, held: seq<nat>)
    requires Holds(m, m', held)
    ensures |Used(m')| == |Used(m)| + |held|
  {
    assert Used(m') == Used(m) + Elems(held);
    assert Used(m) !! Elems(held);
    DistinctCount(held);
  }

  lemma AnswerAt(m: seq<bv8>, b: seq<bv8>, held: seq<nat>, id: nat)
    requires Holds(m, b, held)
    requires id == 0 <==> forall k :: !Clear(b, k)
    requires id != 0 ==> Clear(b, id)
    ensures AnswerOk(m, held, id)
  {
    forall k ensures Clear(b, k) <==> Clear(m, k) && k !in held {}
  }

  lemma DropBit(m: seq<bv8>, m': seq<bv8>, id: nat)
    requires id < 8 * |m| && m' == m[id / 8 := m[id / 8] & (Mask(id % 8) ^ 0xff)]
    ensures forall k :: 0 <= k < 8 * |m| ==> (Bit(m', k) <==> k != id && Bit(m, k))
  {
    forall k | 0 <= k < 8 * |m| ensures Bit(m', k) <==> k != id && Bit(m, k) {
      if k / 8 == id / 8 { ClearBit(m[id / 8], id % 8, k % 8); }
    }
  }

  lemma TakeBit(m: seq<bv8>, m': seq<bv8>, id: nat)
    requires id < 8 * |m| && m' == m[id / 8 := m[id / 8] | Mask(id % 8)]
    ensures forall k :: 0 <= k < 8 * |m| ==> (Bit(m', k) <==> k == id || Bit(m, k))
  {
    forall k | 0 <= k < 8 * |m| ensures Bit(m', k) <==> k == id || Bit(m, k) {
      if k / 8 == id / 8 { SetBit(m[id / 8], id % 8, k % 8); }
    }
  }

  class Bitmap {
    const bits: array<bv8>
    var itr: nat

    ghost predicate Valid()
      reads this
    {
      itr < bits.Length
    }

    constructor (bytes: nat)
      requires 0 < bytes
      ensures Valid() && fresh(bits) && bits.Length == bytes && forall id :: 0 <= id < 8 * bytes ==> !Bit(bits[..], id)
    {
      bits := new bv8[bytes](_ => 0);
      itr := 0;
      new;
    }

    /** The inner loop of the search: the lowest clear bit of one byte, if there is one. */
    method TakeFromByte(index: nat) returns (id: nat)
      requires Valid() && index < bits.Length
      modifies `itr, bits
      ensures Valid()
      ensures id == 0 ==> bits[..] == old(bits[..]) && itr == old(itr)
      ensures id == 0 ==> forall k: nat :: Clear(bits[..], k) ==> k / 8 != index
      ensures id != 0 ==> Clear(old(bits[..]), id) && id / 8 == index == itr
      ensures id != 0 ==> forall k: nat :: Clear(old(bits[..]), k) && k / 8 == index ==> id % 8 <= k % 8
      ensures id != 0 ==> bits[..] == old(bits[..])[index := old(bits[index]) | Mask(id % 8)]
    {
      ghost var m := bits[..];
      for j := 0 to 8
        invariant bits[..] == m && itr == old(itr)
        invariant forall k: nat :: Clear(m, k) && k / 8 == index ==> j <= k % 8
      {
        assert (8 * index + j) / 8 == index && (8 * index + j) % 8 == j;
        if !(index == 0 && (j == 0 || j == 1)) && bits[index] & Mask(j) == 0 {
          id := index * 8 + j;
          bits[index] := bits[index] | Mask(j);
          itr := index;
          return;
        }
      }
      id := 0;
    }

    /** `get_block_for_cache`, `fetch_free_id` and `fetch_free_block`. */
    method Alloc() returns (id: nat)
      requires Valid()
      modifies `itr, bits
      ensures Valid()
      // 0 is returned exactly when every id but 0 and 1 is taken; then nothing changes
      ensures id == 0 <==> forall k :: !Clear(old(bits[..]), k)
      ensures id == 0 <==> forall k :: 2 <= k < 8 * bits.Length ==> Bit(old(bits[..]), k)
      ensures id == 0 ==> bits[..] == old(bits[..]) && itr == old(itr)
      // otherwise the first clear id from the cursor on is taken, and only its bit set
      ensures id != 0 ==> 2 <= id < 8 * bits.Length && !Bit(old(bits[..]), id)
      ensures id != 0 ==> FirstClear(old(bits[..]), old(itr), id) && itr == id / 8
      // that is the least one from the cursor's byte up, and the least of all when the search wraps
      ensures id != 0 && (exists k: nat :: Clear(old(bits[..]), k) && k / 8 >= old(itr)) ==>
                id / 8 >= old(itr) && forall k: nat :: Clear(old(bits[..]), k) && k / 8 >= old(itr) ==> id <= k
      ensures id != 0 && !(exists k: nat :: Clear(old(bits[..]), k) && k / 8 >= old(itr)) ==>
                forall k :: Clear(old(bits[..]), k) ==> id <= k
      ensures id != 0 ==> bits[..] == old(bits[..])[id / 8 := old(bits[..])[id / 8] | ((1 as bv8) << (id % 8))]
      ensures id != 0 ==> forall k :: 0 <= k < 8 * bits.Length ==>
              (Bit(bits[..], k) <==> k == id || Bit(old(bits[..]), k))
    {
      ghost var m := bits[..];
      var n := bits.Length;
      ghost var start := itr;
      NoneClear(m);
      for i := itr to itr + n
        invariant bits[..] == m && itr == start
        invariant forall k :: Clear(m, k) ==> ByteRank(n, start, k) >= i - start
      {
        WrapIndex(n, i);
        id := TakeFromByte(i % n);
        if id != 0 {
          TakeBit(m, bits[..], id);
          FirstFromCursor(m, start, id);
          MaskIs(id % 8);
          return;
        }
      }
      id := 0;
    }

    /** `free_cache_id`, `free_inode_id` and `free_block`. */
    method Free(id: nat)
      requires Valid() && id < 8 * bits.Length
      modifies bits
      ensures forall k :: 0 <= k < 8 * bits.Length ==> (Bit(bits[..], k) <==> k != id && Bit(old(bits[..]), k))
      ensures bits[..] == old(bits[..])[id / 8 := old(bits[..])[id / 8] & (((1 as bv8) << (id % 8)) ^ 0xff)]
    {
      ghost var m := bits[..];
      MaskIs(id % 8);
      bits[id / 8] := bits[id / 8] & (Mask(id % 8) ^ 0xff);
      DropBit(m, bits[..], id);
    }

    /** A run that only allocates: the answers go up from the cursor's byte, and once the search wraps, up from 2. */
    method AllocMany(n: nat) returns (ids: seq<nat>)
      requires Valid()
      modifies `itr, bits
      ensures Valid() && |ids| <= n && (|ids| < n ==> forall k :: 2 <= k < 8 * bits.Length ==> Bit(bits[..], k))
      ensures forall i, j :: 0 <= i < j < |ids| ==>
                if ids[i] >= 8 * old(itr) then ids[j] < 8 * old(itr) || ids[i] < ids[j]
                else ids[i] < ids[j] < 8 * old(itr)
      ensures forall k: nat :: Clear(bits[..], k) <==> Clear(old(bits[..]), k) && k !in ids
      ensures forall i :: 0 <= i < |ids| ==> Clear(old(bits[..]), ids[i])
    {
      ghost var m, lo := bits[..], 8 * itr;
      ids := [];
      while |ids| < n
        invariant Valid() && |ids| <= n && Rising(m, lo, bits[..], itr, ids)
        decreases n - |ids|
      {
        ghost var b, cursor := bits[..], itr;
        var id := Alloc();
        if id == 0 {
          break;
        }
        RisingMore(m, lo, b, cursor, ids, bits[..], id);
        ids := ids + [id];
      }
      assert forall i, j :: 0 <= i < j < |ids| ==> Before(lo, ids[i], ids[j]);
    }

    /** One operation of a run that began with the bits `m`. */
    method Step(op: Op, held: seq<nat>, ghost m: seq<bv8>) returns (held': seq<nat>, id: nat)
      requires Valid() && Holds(m, bits[..], held)
      modifies `itr, bits
      ensures Valid() && Holds(m, bits[..], held')
      ensures op.AllocOp? ==> AnswerOk(m, held, id) && held' == if id != 0 then held + [id] else held
      ensures op.FreeOp? ==> held' == if op.k < |held| then held[..op.k] + held[op.k + 1..] else held
    {
      held', id := held, 0;
      ghost var b := bits[..];
      match op
      case AllocOp =>
        id := Alloc();
        AnswerAt(m, b, held, id);
        if id != 0 {
          HoldsMore(m, b, bits[..], held, id);
          held' := held + [id];
        }
      case FreeOp(k) =>
        if k < |held| {
          Free(held[k]);
          HoldsLess(m, b, bits[..], held, k);
          held' := held[..k] + held[k + 1..];
        }
    }

    /**
      Any run of allocations and of frees of ids held: each allocation is answered as it should be, ids
      held are distinct, and the set bits are those of the start plus them.
     */
    method Run(ops: seq<Op>) returns (held: seq<nat>, answers: seq<nat>)
      requires Valid()
      modifies `itr, bits
      ensures |answers| == |ops| && AnswersOk(old(bits[..]), ops, answers) && held == HeldAfter(ops, answers)
      ensures Valid() && Holds(old(bits[..]), bits[..], held)
      ensures |Used(bits[..])| == |Used(old(bits[..]))| + |held|
    {
      ghost var m := bits[..];
      held, answers := [], [];
      for i := 0 to |ops|
        invariant Valid() && Holds(m, bits[..], held)
        invariant |answers| == i && AnswersOk(m, ops[..i], answers) && held == HeldAfter(ops[..i], answers)
      {
        var id;
        held, id := Step(ops[i], held, m);
        HeldNext(m, ops, i, answers, id);
        answers := answers + [id];
      }
      assert ops[..|ops|] == ops;
      HoldsCount(m, bits[..], held);
    }
  }
}
