/**
  Runs of the object store: objects put and fetched, ids and data blocks taken and given back, blocks
  written and read, and syncs, in any order, and any number of such runs with an unmount between them.
 */
module ObjectRuns {
  import opened Common
  import opened CacheSpec
  import opened Bitmaps
  import opened ObjectTables

  /** Data blocks are named by the number of the `fetch_free_block` call that answered them. */
  datatype StoreOp =
    | Put(r: Record)
    | Get(id: nat)
    | NewBlock
    | FreeBlock(k: nat)
    | WriteData(k: nat, data: Block)
    | ReadData(k: nat)
    | SyncAll
    | IdOp(op: Bitmaps.Op)

  predicate Allowed(op: StoreOp) {
    match op
    case Put(r) => IsId(IdOf(r))
    case Get(id) => IsId(id)
    case _ => true
  }

  /** The last record put under an id, or what was there at first. */
  function LastPut(ops: seq<StoreOp>, id: nat, first: Option<Record>): Option<Record> {
    if |ops| == 0 then first
    else if ops[|ops| - 1].Put? && IdOf(ops[|ops| - 1].r) == id then Some(ops[|ops| - 1].r)
    else LastPut(ops[..|ops| - 1], id, first)
  }

  function News(ops: seq<StoreOp>): nat {
    if |ops| == 0 then 0 else News(ops[..|ops| - 1]) + if ops[|ops| - 1].NewBlock? then 1 else 0
  }

  datatype Lease = Unborn | Held(data: Option<Block>) | Freed

  /**
    What became of the block that the `k`-th call answered: not asked for yet, held with the last data
    written, or given back.
   */
  function LeaseOf(ops: seq<StoreOp>, k: nat): (l: Lease)
    ensures l.Unborn? <==> k >= News(ops)
  {
    if |ops| == 0 then Unborn
    else
      var before := ops[..|ops| - 1];
      var l := LeaseOf(before, k);
      match ops[|ops| - 1]
      case NewBlock => if k == News(before) then Held(None) else l
      case WriteData(j, x) => if j == k && l.Held? then Held(Some(x)) else l
      case FreeBlock(j) => if j == k && l.Held? then Freed else l
      case _ => l
  }

  /** The `k`-th call got a block and it was not given back. */
  predicate Live(ops: seq<StoreOp>, given: seq<nat>, k: int) {
    0 <= k < |given| && given[k] != 0 && LeaseOf(ops, k).Held?
  }

  /**
    Blocks held are apart from each other and from the table, were free at first, and are just what the map
    has gained.
   */
  ghost predicate Leased(m: seq<bv8>, m': seq<bv8>, ops: seq<StoreOp>, given: seq<nat>) {
    && 8 * |m| == 8 * |m'| == MAX_BLOCKS && |given| == News(ops) && Reserved(m)
    && (forall k :: Live(ops, given, k) ==> RESERVED <= given[k] < MAX_BLOCKS && !Bit(m, given[k]))
    && (forall j, k :: Live(ops, given, j) && Live(ops, given, k) && j != k ==> given[j] != given[k])
    && (forall b :: 0 <= b < MAX_BLOCKS ==>
      (Bit(m', b) <==> Bit(m, b) || exists k :: Live(ops, given, k) && given[k] == b))
  }

  ghost predicate DataKept(c: Cache<Block>, ops: seq<StoreOp>, given: seq<nat>) {
    forall k :: Live(ops, given, k) && LeaseOf(ops, k).data.Some? ==>
      given[k] < |c.disk| && Contents(c, given[k]) == LeaseOf(ops, k).data.value
  }

  ghost predicate ObjectsKept(c: Cache<Block>, c': Cache<Block>, ops: seq<StoreOp>)
    requires |c.disk| >= MAX_BLOCKS && |c'.disk| >= MAX_BLOCKS
  {
    forall id :: IsId(id) ==> Lookup(c', id) == LastPut(ops, id, Lookup(c, id))
  }

  lemma Appended(ops: seq<StoreOp>, op: StoreOp)
    ensures (ops + [op])[..|ops|] == ops
  {
  }

  /** What one more operation does to the object under an id: a put replaces it, nothing else does. */
  lemma LastPutStep(ops: seq<StoreOp>, op: StoreOp, id: nat, first: Option<Record>)
    ensures LastPut([], id, first) == first
    ensures LastPut(ops + [op], id, first) ==
            if op.Put? && IdOf(op.r) == id then Some(op.r) else LastPut(ops, id, first)
  {
    Appended(ops, op);
  }

  /** What one more operation does to the `k`-th block. */
  lemma LeaseStep(ops: seq<StoreOp>, op: StoreOp, k: nat)
    ensures LeaseOf([], k) == Unborn && News(ops + [op]) == News(ops) + if op.NewBlock? then 1 else 0
    ensures LeaseOf(ops + [op], k) ==
            var l := LeaseOf(ops, k);
            match op
            case NewBlock => if k == News(ops) then Held(None) else l
            case WriteData(j, x) => if j == k && l.Held? then Held(Some(x)) else l
            case FreeBlock(j) => if j == k && l.Held? then Freed else l
            case _ => l
  {
    Appended(ops, op);
  }

  lemma LeasedNew(m: seq<bv8>, m1: seq<bv8>, m2: seq<bv8>, ops: seq<StoreOp>, given: seq<nat>, b: nat)
    requires Leased(m, m1, ops, given) && |m2| == |m1|
    requires b == 0 ==> m2 == m1
    requires b != 0 ==> RESERVED <= b < MAX_BLOCKS && !Bit(m1, b)
    requires b != 0 ==> forall k :: 0 <= k < MAX_BLOCKS ==> (Bit(m2, k) <==> k == b || Bit(m1, k))
    ensures Leased(m, m2, ops + [NewBlock], given + [b])
  {
    var ops', given' := ops + [NewBlock], given + [b];
    Appended(ops, NewBlock);
    forall k ensures Live(ops', given', k) <==> Live(ops, given, k) || (k == |given| && b != 0) {}
    forall x | 0 <= x < MAX_BLOCKS
      ensures Bit(m2, x) <==> Bit(m, x) || exists k :: Live(ops', given', k) && given'[k] == x
    {
      if Bit(m2, x) && !Bit(m, x) {
        if x == b && b != 0 {
          assert Live(ops', given', |given|) && given'[|given|] == b;
        } else {
          var k :| Live(ops, given, k) && given[k] == x;
          assert Live(ops', given', k) && given'[k] == x;
        }
      }
    }
  }

  lemma LeasedFree(m: seq<bv8>, m1: seq<bv8>, m2: seq<bv8>, ops: seq<StoreOp>, given: seq<nat>, k: nat)
    requires Leased(m, m1, ops, given) && Live(ops, given, k) && |m2| == |m1|
    requires forall b :: 0 <= b < MAX_BLOCKS ==> (Bit(m2, b) <==> b != given[k] && Bit(m1, b))
    ensures Leased(m, m2, ops + [FreeBlock(k)], given)
  {
    var ops' := ops + [FreeBlock(k)];
    Appended(ops, FreeBlock(k));
    forall j ensures Live(ops', given, j) <==> Live(ops, given, j) && j != k {}
    forall x | 0 <= x < MAX_BLOCKS
      ensures Bit(m2, x) <==> Bit(m, x) || exists j :: Live(ops', given, j) && given[j] == x
    {
      if Bit(m2, x) && !Bit(m, x) {
        var j :| Live(ops, given, j) && given[j] == x;
        assert Live(ops', given, j);
      }
    }
  }

  /** An operation that neither takes nor gives back a block. */
  lemma LeasedSame(m: seq<bv8>, m1: seq<bv8>, ops: seq<StoreOp>, given: seq<nat>, op: StoreOp)
    requires Leased(m, m1, ops, given) && !op.NewBlock?
    requires op.FreeBlock? ==> !Live(ops, given, op.k)
    ensures Leased(m, m1, ops + [op], given)
  {
    var ops' := ops + [op];
    Appended(ops, op);
    forall j ensures Live(ops', given, j) <==> Live(ops, given, j) {}
    forall x | 0 <= x < MAX_BLOCKS
      ensures Bit(m1, x) <==> Bit(m, x) || exists j :: Live(ops', given, j) && given[j] == x
    {
      if Bit(m1, x) && !Bit(m, x) {
        var j :| Live(ops, given, j) && given[j] == x;
        assert Live(ops', given, j);
      }
    }
  }

  /** An operation that writes no data block keeps the data of those held. */
  lemma DataSame(c: Cache<Block>, c': Cache<Block>, ops: seq<StoreOp>, given: seq<nat>, given': seq<nat>, op: StoreOp)
    requires DataKept(c, ops, given) && |c'.disk| == |c.disk| && |given| == News(ops) && given <= given'
    requires op.WriteData? ==> !Live(ops, given, op.k)
    requires forall k :: Live(ops, given, k) ==> RESERVED <= given[k]
    requires forall x :: RESERVED <= x < |c.disk| ==> Contents(c', x) == Contents(c, x)
    ensures DataKept(c', ops + [op], given')
  {
    var ops' := ops + [op];
    forall k | Live(ops', given', k) && LeaseOf(ops', k).data.Some?
      ensures given'[k] < |c'.disk| && Contents(c', given'[k]) == LeaseOf(ops', k).data.value
    {
      LeaseStep(ops, op, k);
      assert Live(ops, given, k);
    }
  }

  lemma DataWritten(c: Cache<Block>, c': Cache<Block>, ops: seq<StoreOp>, given: seq<nat>, k: nat, x: Block)
    requires DataKept(c, ops, given) && |c'.disk| == |c.disk| && Live(ops, given, k) && given[k] < |c.disk|
    requires forall i, j :: Live(ops, given, i) && Live(ops, given, j) && i != j ==> given[i] != given[j]
    requires forall b :: 0 <= b < |c.disk| ==> Contents(c', b) == if b == given[k] then x else Contents(c, b)
    ensures DataKept(c', ops + [WriteData(k, x)], given)
  {
    var ops' := ops + [WriteData(k, x)];
    forall j | Live(ops', given, j) && LeaseOf(ops', j).data.Some?
      ensures given[j] < |c'.disk| && Contents(c', given[j]) == LeaseOf(ops', j).data.value
    {
      LeaseStep(ops, WriteData(k, x), j);
      assert Live(ops, given, j);
    }
  }

  // ---- Blocks refused ----

  predicate HeldIn(ops: seq<StoreOp>, given: seq<nat>, b: nat) {
    exists k :: 0 <= k < |given| && Live(ops, given, k) && given[k] == b
  }

  /** The next block asked for: none when every data block was taken at first or is held, else one that is not. */
  ghost predicate Granted(m: seq<bv8>, ops: seq<StoreOp>, given: seq<nat>, b: nat)
    requires 8 * |m| == MAX_BLOCKS
  {
    && (b == 0 <==> forall x :: RESERVED <= x < MAX_BLOCKS ==> Bit(m, x) || HeldIn(ops, given, x))
    && (b != 0 ==> RESERVED <= b < MAX_BLOCKS && !Bit(m, b) && !HeldIn(ops, given, b))
  }

  ghost predicate AllGranted(m: seq<bv8>, ops: seq<StoreOp>, given: seq<nat>) {
    && 8 * |m| == MAX_BLOCKS
    && forall i :: 0 <= i < |ops| && ops[i].NewBlock? ==>
         News(ops[..i]) < |given| && Granted(m, ops[..i], given[..News(ops[..i])], given[News(ops[..i])])
  }

  lemma FetchGrants(m: seq<bv8>, m1: seq<bv8>, ops: seq<StoreOp>, given: seq<nat>, b: nat)
    requires Leased(m, m1, ops, given)
    requires b == 0 <==> forall k :: RESERVED <= k < MAX_BLOCKS ==> Bit(m1, k)
    requires b != 0 ==> RESERVED <= b < MAX_BLOCKS && !Bit(m1, b)
    ensures Granted(m, ops, given, b)
  {
    forall x | 0 <= x < MAX_BLOCKS ensures Bit(m1, x) <==> Bit(m, x) || HeldIn(ops, given, x) {
      if k :| Live(ops, given, k) && given[k] == x {
        assert HeldIn(ops, given, x);
      }
    }
  }

  lemma GrantedMore(m: seq<bv8>, ops: seq<StoreOp>, given: seq<nat>, op: StoreOp, given': seq<nat>)
    requires AllGranted(m, ops, given) && |given| == News(ops) && given <= given'
    requires op.NewBlock? ==> |given'| == |given| + 1 && Granted(m, ops, given, given'[|given|])
    ensures AllGranted(m, ops + [op], given')
  {
    var ops' := ops + [op];
    Appended(ops, op);
    forall i | 0 <= i < |ops'| && ops'[i].NewBlock?
      ensures News(ops'[..i]) < |given'|
              && Granted(m, ops'[..i], given'[..News(ops'[..i])], given'[News(ops'[..i])])
    {
      assert ops'[..i] == ops[..i];
      var k := News(ops[..i]);
      if i < |ops| {
        assert given'[..k] == given[..k];
      } else {
        assert ops[..i] == ops && given'[..k] == given;
      }
    }
  }

  /** Where a run that began with the cache `c` and the block map `m` stands after `ops`. */
  ghost predicate After(c: Cache<Block>, m: seq<bv8>, c': Cache<Block>, m': seq<bv8>, ops: seq<StoreOp>,
                        given: seq<nat>) {
    && |c'.disk| == |c.disk| >= MAX_BLOCKS
    && Leased(m, m', ops, given) && DataKept(c', ops, given) && ObjectsKept(c, c', ops)
  }

  lemma AfterPut(c: Cache<Block>, m: seq<bv8>, c1: Cache<Block>, c2: Cache<Block>, m': seq<bv8>, ops: seq<StoreOp>,
                 given: seq<nat>, r: Record)
    requires After(c, m, c1, m', ops, given) && |c2.disk| == |c1.disk| && IsId(IdOf(r))
    requires forall id :: HasPlace(id) ==> Lookup(c2, id) == if id == IdOf(r) then Some(r) else Lookup(c1, id)
    requires forall b :: 0 <= b < |c1.disk| && b != TableBlock(IdOf(r)) ==> Contents(c2, b) == Contents(c1, b)
    ensures After(c, m, c2, m', ops + [Put(r)], given)
  {
    BlockReservedIff(IdOf(r));
    LeasedSame(m, m', ops, given, Put(r));
    DataSame(c1, c2, ops, given, given, Put(r));
    forall id | IsId(id) ensures Lookup(c2, id) == LastPut(ops + [Put(r)], id, Lookup(c, id)) {
      Appended(ops, Put(r));
    }
  }

  lemma AfterQuiet(c: Cache<Block>, m: seq<bv8>, c1: Cache<Block>, c2: Cache<Block>, m1: seq<bv8>, m2: seq<bv8>,
                   ops: seq<StoreOp>, given: seq<nat>, given': seq<nat>, op: StoreOp)
    requires After(c, m, c1, m1, ops, given) && !op.Put? && SameContents(c1, c2) && given <= given'
    requires op.WriteData? ==> !Live(ops, given, op.k)
    requires Leased(m, m2, ops + [op], given')
    ensures After(c, m, c2, m2, ops + [op], given')
  {
    DataSame(c1, c2, ops, given, given', op);
    ContentsKeepObjects(c1, c2);
    forall id | IsId(id) ensures Lookup(c2, id) == LastPut(ops + [op], id, Lookup(c, id)) {
      Appended(ops, op);
    }
  }

  lemma AfterWrite(c: Cache<Block>, m: seq<bv8>, c1: Cache<Block>, c2: Cache<Block>, m': seq<bv8>, ops: seq<StoreOp>,
                   given: seq<nat>, k: nat, x: Block)
    requires After(c, m, c1, m', ops, given) && |c2.disk| == |c1.disk| && Live(ops, given, k)
    requires forall b :: 0 <= b < |c1.disk| ==> Contents(c2, b) == if b == given[k] then x else Contents(c1, b)
    ensures After(c, m, c2, m', ops + [WriteData(k, x)], given)
  {
    var op := WriteData(k, x);
    assert RESERVED <= given[k] < MAX_BLOCKS;
    LeasedSame(m, m', ops, given, op);
    DataWritten(c1, c2, ops, given, k, x);
    ContentsKeepObjects(c1, c2);
    forall id | IsId(id) ensures Lookup(c2, id) == LastPut(ops + [op], id, Lookup(c, id)) {
      Appended(ops, op);
    }
  }

  datatype Answer = NoAnswer | Object(record: Option<Record>) | Data(data: Block) | Id(id: nat)

  /** The answer the operation after `ops` is meant to give. */
  ghost predicate Right(c: Cache<Block>, ops: seq<StoreOp>, given: seq<nat>, op: StoreOp, a: Answer)
    requires |c.disk| >= MAX_BLOCKS && Allowed(op)
  {
    match op
    case Get(id) => a == Object(LastPut(ops, id, Lookup(c, id)))
    case ReadData(k) => Live(ops, given, k) ==>
      a.Data? && (LeaseOf(ops, k).data.Some? ==> a.data == LeaseOf(ops, k).data.value)
    case _ => true
  }

  ghost predicate AllRight(c: Cache<Block>, ops: seq<StoreOp>, given: seq<nat>, answers: seq<Answer>)
    requires |c.disk| >= MAX_BLOCKS && forall i :: 0 <= i < |ops| ==> Allowed(ops[i])
  {
    |answers| == |ops| && forall i :: 0 <= i < |ops| ==> Right(c, ops[..i], given, ops[i], answers[i])
  }

  lemma {:induction false} NewsGrow(ops: seq<StoreOp>, i: nat)
    requires i <= |ops|
    ensures News(ops[..i]) <= News(ops)
    decreases |ops|
  {
    if i < |ops| {
      assert ops[..|ops| - 1][..i] == ops[..i];
      NewsGrow(ops[..|ops| - 1], i);
    } else {
      assert ops[..i] == ops;
    }
  }

  /** One more right answer; earlier ones stay right when further blocks are given. */
  lemma RightMore(c: Cache<Block>, ops: seq<StoreOp>, given: seq<nat>, answers: seq<Answer>, op: StoreOp,
                  given': seq<nat>, a: Answer)
    requires |c.disk| >= MAX_BLOCKS && (forall i :: 0 <= i < |ops| ==> Allowed(ops[i])) && Allowed(op)
    requires AllRight(c, ops, given, answers) && Right(c, ops, given, op, a)
    requires given <= given' && |given| == News(ops)
    ensures AllRight(c, ops + [op], given', answers + [a])
  {
    var ops', answers' := ops + [op], answers + [a];
    forall i | 0 <= i < |ops'| ensures Right(c, ops'[..i], given', ops'[i], answers'[i]) {
      assert ops'[..i] == ops[..i];
      NewsGrow(ops, i);
      assert ops[..|ops|] == ops;
      assert Right(c, ops[..i], given, ops'[i], answers'[i]);
    }
  }

  /** The operations on objects, and the sync; `m1` is the block map, which they leave alone. */
  method StepObjects(s: ObjectStore, op: StoreOp, ghost given: seq<nat>, ghost c: Cache<Block>, ghost m: seq<bv8>,
                     ghost m1: seq<bv8>, ghost ops: seq<StoreOp>)
    returns (a: Answer)
    requires s.CacheOk() && Allowed(op) && After(c, m, s.cache.View(), m1, ops, given)
    requires op.Put? || op.Get? || op.SyncAll?
    modifies s.cache, s.cache.table, s.cache.cache, s.cache.disk, s.cache.slots, s.cache.slots.bits, s.cache.nodes
    ensures s.CacheOk() && fresh(s.cache.nodes - old(s.cache.nodes))
    ensures After(c, m, s.cache.View(), m1, ops + [op], given) && Right(c, ops, given, op, a)
    ensures op.SyncAll? ==>
              forall b :: 0 <= b < s.cache.disk.Length ==> s.cache.disk[b] == Contents(s.cache.View(), b)
  {
    ghost var c1 := s.cache.View();
    a := NoAnswer;
    if op.Put? {
      s.InsertToDisk(op.r);
      AfterPut(c, m, c1, s.cache.View(), m1, ops, given, op.r);
    } else {
      LeasedSame(m, m1, ops, given, op);
      if op.Get? {
        var r := s.GetObjectById(op.id);
        a := Object(r);
      } else {
        s.SyncAll();
      }
      AfterQuiet(c, m, c1, s.cache.View(), m1, m1, ops, given, given, op);
    }
  }

  /** The operations on the contents of data blocks; nothing happens to a block that is not held. */
  method StepData(s: ObjectStore, op: StoreOp, given: seq<nat>, ghost c: Cache<Block>, ghost m: seq<bv8>,
                  ghost m1: seq<bv8>, ops: seq<StoreOp>)
    returns (a: Answer)
    requires s.CacheOk() && Allowed(op) && After(c, m, s.cache.View(), m1, ops, given)
    requires op.ReadData? || op.WriteData?
    modifies s.cache, s.cache.table, s.cache.cache, s.cache.disk, s.cache.slots, s.cache.slots.bits, s.cache.nodes
    ensures s.CacheOk() && fresh(s.cache.nodes - old(s.cache.nodes))
    ensures After(c, m, s.cache.View(), m1, ops + [op], given) && Right(c, ops, given, op, a)
  {
    ghost var c1 := s.cache.View();
    a := NoAnswer;
    var live := Live(ops, given, op.k);
    if live && op.WriteData? {
      s.WriteData(given[op.k], op.data);
      AfterWrite(c, m, c1, s.cache.View(), m1, ops, given, op.k, op.data);
    } else {
      LeasedSame(m, m1, ops, given, op);
      if live {
        var x := s.ReadData(given[op.k]);
        a := Data(x);
      }
      AfterQuiet(c, m, c1, s.cache.View(), m1, m1, ops, given, given, op);
    }
  }

  /** The operations that go to the cache. */
  method StepCache(s: ObjectStore, op: StoreOp, given: seq<nat>, ghost c: Cache<Block>, ghost m: seq<bv8>,
                   ghost m1: seq<bv8>, ops: seq<StoreOp>)
    returns (a: Answer)
    requires s.CacheOk() && Allowed(op) && After(c, m, s.cache.View(), m1, ops, given)
    requires !op.NewBlock? && !op.FreeBlock? && !op.IdOp?
    modifies s.cache, s.cache.table, s.cache.cache, s.cache.disk, s.cache.slots, s.cache.slots.bits, s.cache.nodes
    ensures s.CacheOk() && fresh(s.cache.nodes - old(s.cache.nodes))
    ensures After(c, m, s.cache.View(), m1, ops + [op], given) && Right(c, ops, given, op, a)
  {
    if op.ReadData? || op.WriteData? {
      a := StepData(s, op, given, c, m, m1, ops);
    } else {
      a := StepObjects(s, op, given, c, m, m1, ops);
    }
  }

  /** The same, with the bitmaps, which they leave alone. */
  method StepStore(s: ObjectStore, op: StoreOp, given: seq<nat>, ghost c: Cache<Block>, ghost m: seq<bv8>,
                   ops: seq<StoreOp>)
    returns (a: Answer)
    requires s.Valid() && Allowed(op) && After(c, m, s.cache.View(), s.blockmap.bits[..], ops, given)
    requires !op.NewBlock? && !op.FreeBlock? && !op.IdOp?
    modifies s.cache, s.cache.table, s.cache.cache, s.cache.disk, s.cache.slots, s.cache.slots.bits, s.cache.nodes
    ensures s.Valid() && fresh(s.cache.nodes - old(s.cache.nodes))
    ensures After(c, m, s.cache.View(), s.blockmap.bits[..], ops + [op], given) && Right(c, ops, given, op, a)
  {
    ghost var m1 := s.blockmap.bits[..];
    a := StepCache(s, op, given, c, m, m1, ops);
    assert s.blockmap.bits[..] == m1;
    s.Whole();
  }

  /** Taking a block and giving one back. */
  method StepBlocks(s: ObjectStore, op: StoreOp, given: seq<nat>, ghost c: Cache<Block>, ghost m: seq<bv8>,
                    ops: seq<StoreOp>)
    returns (given': seq<nat>)
    requires s.Valid() && After(c, m, s.cache.View(), s.blockmap.bits[..], ops, given)
    requires op.NewBlock? || op.FreeBlock?
    modifies s.blockmap, s.blockmap.bits
    ensures s.Valid() && After(c, m, s.cache.View(), s.blockmap.bits[..], ops + [op], given') && given <= given'
    ensures op.NewBlock? ==> |given'| == |given| + 1 && Granted(m, ops, given, given'[|given|])
    ensures op.FreeBlock? ==> given' == given && (Live(ops, given, op.k) ==> !Bit(s.blockmap.bits[..], given[op.k]))
  {
    ghost var c1, m1 := s.cache.View(), s.blockmap.bits[..];
    given' := given;
    if op.NewBlock? {
      var b := s.FetchFreeBlock();
      given' := given + [b];
      FetchGrants(m, m1, ops, given, b);
      LeasedNew(m, m1, s.blockmap.bits[..], ops, given, b);
    } else if Live(ops, given, op.k) {
      s.FreeBlock(given[op.k]);
      LeasedFree(m, m1, s.blockmap.bits[..], ops, given, op.k);
    } else {
      LeasedSame(m, m1, ops, given, op);
    }
    AfterQuiet(c, m, c1, s.cache.View(), m1, s.blockmap.bits[..], ops, given, given', op);
  }

  /** One operation on objects or blocks. */
  method Step(s: ObjectStore, op: StoreOp, given: seq<nat>, ghost c: Cache<Block>, ghost m: seq<bv8>, ops: seq<StoreOp>)
    returns (given': seq<nat>, a: Answer)
    requires s.Valid() && Allowed(op) && !op.IdOp? && After(c, m, s.cache.View(), s.blockmap.bits[..], ops, given)
    modifies s.cache, s.cache.table, s.cache.cache, s.cache.disk, s.cache.slots, s.cache.slots.bits, s.cache.nodes,
             s.blockmap, s.blockmap.bits
    ensures s.Valid() && fresh(s.cache.nodes - old(s.cache.nodes))
    ensures After(c, m, s.cache.View(), s.blockmap.bits[..], ops + [op], given')
    ensures given <= given' && Right(c, ops, given, op, a)
    ensures op.NewBlock? ==> |given'| == |given| + 1 && Granted(m, ops, given, given'[|given|])
  {
    given', a := given, NoAnswer;
    if op.NewBlock? || op.FreeBlock? {
      given' := StepBlocks(s, op, given, c, m, ops);
    } else {
      a := StepStore(s, op, given, c, m, ops);
    }
  }

  // ---- Ids ----

  /** The operations on ids among those of a run, and their answers. */
  function IdOps(ops: seq<StoreOp>): seq<Bitmaps.Op> {
    if |ops| == 0 then []
    else IdOps(ops[..|ops| - 1]) + if ops[|ops| - 1].IdOp? then [ops[|ops| - 1].op] else []
  }

  function IdAnswers(ops: seq<StoreOp>, answers: seq<Answer>): (ids: seq<nat>)
    requires |answers| == |ops|
    ensures |ids| == |IdOps(ops)|
  {
    if |ops| == 0 then []
    else
      var n := |ops| - 1;
      IdAnswers(ops[..n], answers[..n]) +
      if ops[n].IdOp? then [if answers[n].Id? then answers[n].id else 0] else []
  }

  /** The ids taken and not given back. */
  function IdsHeld(ops: seq<StoreOp>, answers: seq<Answer>): seq<nat>
    requires |answers| == |ops|
  {
    HeldAfter(IdOps(ops), IdAnswers(ops, answers))
  }

  /** Ids were answered as they should be, and the id map has gained just those held. */
  ghost predicate IdsTold(m: seq<bv8>, m': seq<bv8>, ops: seq<StoreOp>, answers: seq<Answer>)
    requires |answers| == |ops|
  {
    && 8 * |m| == MAX_OBJECT && !Bit(m, 0) && !Bit(m, 1) && Holds(m, m', IdsHeld(ops, answers))
    && AnswersOk(m, IdOps(ops), IdAnswers(ops, answers))
  }

  lemma IdsQuiet(m: seq<bv8>, m': seq<bv8>, ops: seq<StoreOp>, answers: seq<Answer>, op: StoreOp, a: Answer)
    requires |answers| == |ops| && IdsTold(m, m', ops, answers) && !op.IdOp?
    ensures IdsTold(m, m', ops + [op], answers + [a])
  {
    Appended(ops, op);
    assert (answers + [a])[..|ops|] == answers;
    assert IdOps(ops + [op]) == IdOps(ops) && IdAnswers(ops + [op], answers + [a]) == IdAnswers(ops, answers);
  }

  lemma IdsStep(m: seq<bv8>, m1: seq<bv8>, m2: seq<bv8>, ops: seq<StoreOp>, answers: seq<Answer>, op: Bitmaps.Op,
                id: nat, ids: seq<nat>)
    requires |answers| == |ops| && IdsTold(m, m1, ops, answers) && Holds(m, m2, ids)
    requires var h := IdsHeld(ops, answers);
             && (op.AllocOp? ==> AnswerOk(m, h, id) && ids == if id != 0 then h + [id] else h)
             && (op.FreeOp? ==> ids == if op.k < |h| then h[..op.k] + h[op.k + 1..] else h)
    ensures IdsTold(m, m2, ops + [IdOp(op)], answers + [Id(id)])
  {
    Appended(ops, IdOp(op));
    assert (answers + [Id(id)])[..|ops|] == answers;
    HeldMore(m, IdOps(ops), IdAnswers(ops, answers), op, id);
  }

  /** A remount clears the bits of ids 0 and 1, which are never set. */
  lemma IdsRemounted(m: seq<bv8>, m1: seq<bv8>, m2: seq<bv8>, ops: seq<StoreOp>, answers: seq<Answer>)
    requires |answers| == |ops| && IdsTold(m, m1, ops, answers) && |m2| == |m1|
    requires forall k :: 2 <= k < 8 * |m1| ==> (Bit(m2, k) <==> Bit(m1, k))
    requires !Bit(m2, 0) && !Bit(m2, 1)
    ensures IdsTold(m, m2, ops, answers)
  {
  }

  // ---- Runs ----

  /** What a run has done so far, and the state it began in. */
  datatype Story = Story(ops: seq<StoreOp>, answers: seq<Answer>, given: seq<nat>)

  datatype Begin = Begin(c: Cache<Block>, m: seq<bv8>, im: seq<bv8>)

  /**
    Every object fetched is the last one put under its id, every held block reads as last written through
    its lease, held blocks are apart from each other, the metadata and the table, a block is refused just
    when none is left, ids are answered fresh, and both bitmaps have gained just what is held.
   */
  ghost predicate Tells(b: Begin, c: Cache<Block>, m: seq<bv8>, im: seq<bv8>, h: Story) {
    && (forall i :: 0 <= i < |h.ops| ==> Allowed(h.ops[i]))
    && After(b.c, b.m, c, m, h.ops, h.given) && AllRight(b.c, h.ops, h.given, h.answers)
    && IdsTold(b.im, im, h.ops, h.answers) && AllGranted(b.m, h.ops, h.given)
  }

  /** Always true; what a story tells is looked into where it is asserted of it. */
  predicate Recall(h: Story) { true }

  /** The same, unopened. */
  ghost predicate Told(b: Begin, c: Cache<Block>, m: seq<bv8>, im: seq<bv8>, h: Story) {
    forall x {:trigger Recall(x)} :: Recall(x) && x == h ==> Tells(b, c, m, im, x)
  }

  lemma Open(b: Begin, c: Cache<Block>, m: seq<bv8>, im: seq<bv8>, h: Story)
    requires Told(b, c, m, im, h)
    ensures Tells(b, c, m, im, h)
  {
    assert Recall(h);
  }

  function More(h: Story, op: StoreOp, a: Answer, given: seq<nat>): Story {
    Story(h.ops + [op], h.answers + [a], given)
  }

  lemma ToldQuiet(b: Begin, c1: Cache<Block>, m1: seq<bv8>, c2: Cache<Block>, m2: seq<bv8>, im: seq<bv8>, h: Story,
                  op: StoreOp, given: seq<nat>, a: Answer)
    requires Tells(b, c1, m1, im, h) && Allowed(op) && !op.IdOp?
    requires After(b.c, b.m, c2, m2, h.ops + [op], given) && h.given <= given && Right(b.c, h.ops, h.given, op, a)
    requires op.NewBlock? ==> |given| == |h.given| + 1 && Granted(b.m, h.ops, h.given, given[|h.given|])
    ensures Tells(b, c2, m2, im, More(h, op, a, given))
  {
    RightMore(b.c, h.ops, h.given, h.answers, op, given, a);
    IdsQuiet(b.im, im, h.ops, h.answers, op, a);
    GrantedMore(b.m, h.ops, h.given, op, given);
  }

  lemma ToldId(b: Begin, c: Cache<Block>, m: seq<bv8>, im1: seq<bv8>, im2: seq<bv8>, h: Story, op: Bitmaps.Op,
               id: nat, ids: seq<nat>)
    requires Tells(b, c, m, im1, h) && Holds(b.im, im2, ids)
    requires var held := IdsHeld(h.ops, h.answers);
             && (op.AllocOp? ==> AnswerOk(b.im, held, id) && ids == if id != 0 then held + [id] else held)
             && (op.FreeOp? ==> ids == if op.k < |held| then held[..op.k] + held[op.k + 1..] else held)
    ensures Tells(b, c, m, im2, More(h, IdOp(op), Id(id), h.given))
  {
    LeasedSame(b.m, m, h.ops, h.given, IdOp(op));
    AfterQuiet(b.c, b.m, c, c, m, m, h.ops, h.given, h.given, IdOp(op));
    RightMore(b.c, h.ops, h.given, h.answers, IdOp(op), h.given, Id(id));
    IdsStep(b.im, im1, im2, h.ops, h.answers, op, id, ids);
    GrantedMore(b.m, h.ops, h.given, IdOp(op), h.given);
  }

  method StepIdMap(s: ObjectStore, op: Bitmaps.Op, held: seq<nat>, ghost m: seq<bv8>) returns (held': seq<nat>, id: nat)
    requires s.Valid() && Holds(m, s.inodemap.bits[..], held)
    modifies s.inodemap, s.inodemap.bits
    ensures s.Valid() && s.cache.View() == old(s.cache.View()) && s.blockmap.bits[..] == old(s.blockmap.bits[..])
    ensures Holds(m, s.inodemap.bits[..], held')
    ensures op.AllocOp? ==> AnswerOk(m, held, id) && held' == if id != 0 then held + [id] else held
    ensures op.FreeOp? ==> held' == if op.k < |held| then held[..op.k] + held[op.k + 1..] else held
  {
    held', id := s.inodemap.Step(op, held, m);
    s.Whole();
  }

  /** Taking an id and giving one back. */
  method StepIds(s: ObjectStore, op: Bitmaps.Op, h: Story, ghost b: Begin) returns (h': Story)
    requires s.Valid() && Told(b, s.cache.View(), s.blockmap.bits[..], s.inodemap.bits[..], h)
    modifies s.inodemap, s.inodemap.bits
    ensures s.Valid() && Told(b, s.cache.View(), s.blockmap.bits[..], s.inodemap.bits[..], h')
    ensures h'.ops == h.ops + [IdOp(op)]
  {
    ghost var c, m, im := s.cache.View(), s.blockmap.bits[..], s.inodemap.bits[..];
    Open(b, c, m, im, h);
    var ids, id := StepIdMap(s, op, IdsHeld(h.ops, h.answers), b.im);
    h' := More(h, IdOp(op), Id(id), h.given);
    ToldId(b, c, m, im, s.inodemap.bits[..], h, op, id, ids);
  }

  method StepOther(s: ObjectStore, op: StoreOp, h: Story, ghost b: Begin) returns (h': Story)
    requires s.Valid() && Allowed(op) && !op.IdOp?
    requires Told(b, s.cache.View(), s.blockmap.bits[..], s.inodemap.bits[..], h)
    modifies s.cache, s.cache.table, s.cache.cache, s.cache.disk, s.cache.slots, s.cache.slots.bits, s.cache.nodes,
             s.blockmap, s.blockmap.bits
    ensures s.Valid() && fresh(s.cache.nodes - old(s.cache.nodes))
    ensures Told(b, s.cache.View(), s.blockmap.bits[..], s.inodemap.bits[..], h')
    ensures h'.ops == h.ops + [op]
  {
    ghost var c, m, im := s.cache.View(), s.blockmap.bits[..], s.inodemap.bits[..];
    Open(b, c, m, im, h);
    var given, a := Step(s, op, h.given, b.c, b.m, h.ops);
    assert s.inodemap.bits[..] == im;
    ToldQuiet(b, c, m, s.cache.View(), s.blockmap.bits[..], im, h, op, given, a);
    h' := More(h, op, a, given);
  }

  /** One operation of a run. */
  method StepAny(s: ObjectStore, op: StoreOp, h: Story, ghost b: Begin) returns (h': Story)
    requires s.Valid() && Allowed(op)
    requires Told(b, s.cache.View(), s.blockmap.bits[..], s.inodemap.bits[..], h)
    modifies s.cache, s.cache.table, s.cache.cache, s.cache.disk, s.cache.slots, s.cache.slots.bits, s.cache.nodes,
             s.blockmap, s.blockmap.bits, s.inodemap, s.inodemap.bits
    ensures s.Valid() && fresh(s.cache.nodes - old(s.cache.nodes))
    ensures Told(b, s.cache.View(), s.blockmap.bits[..], s.inodemap.bits[..], h')
    ensures h'.ops == h.ops + [op]
  {
    if op.IdOp? {
      h' := StepIds(s, op.op, h, b);
    } else {
      h' := StepOther(s, op, h, b);
    }
  }

  lemma Spliced(before: seq<StoreOp>, ops: seq<StoreOp>)
    requires |ops| > 0
    ensures before + [ops[0]] + ops[1..] == before + ops
  {
  }

  /** A run that goes on from where the story stands. */
  method RunOn(s: ObjectStore, ops: seq<StoreOp>, h: Story, ghost b: Begin) returns (h': Story)
    requires s.Valid() && (forall i :: 0 <= i < |ops| ==> Allowed(ops[i]))
    requires Told(b, s.cache.View(), s.blockmap.bits[..], s.inodemap.bits[..], h)
    modifies s.cache, s.cache.table, s.cache.cache, s.cache.disk, s.cache.slots, s.cache.slots.bits, s.cache.nodes,
             s.blockmap, s.blockmap.bits, s.inodemap, s.inodemap.bits
    ensures s.Valid() && fresh(s.cache.nodes - old(s.cache.nodes))
    ensures Told(b, s.cache.View(), s.blockmap.bits[..], s.inodemap.bits[..], h')
    ensures h'.ops == h.ops + ops
    decreases |ops|
  {
    if |ops| == 0 {
      return h;
    }
    var h1 := StepAny(s, ops[0], h, b);
    ghost var n1 := s.cache.nodes;
    assert fresh(n1 - old(s.cache.nodes));
    h' := RunOn(s, ops[1..], h1, b);
    assert fresh(s.cache.nodes - n1);
    Spliced(h.ops, ops);
  }

  lemma Start(c: Cache<Block>, m: seq<bv8>)
    requires |c.disk| >= MAX_BLOCKS && 8 * |m| == MAX_BLOCKS && Reserved(m)
    ensures After(c, m, c, m, [], [])
  {
  }

  /** Any run on a mounted store. */
  method Run(s: ObjectStore, ops: seq<StoreOp>) returns (h: Story)
    requires s.Valid() && (forall i :: 0 <= i < |ops| ==> Allowed(ops[i]))
    requires !Bit(s.inodemap.bits[..], 0) && !Bit(s.inodemap.bits[..], 1)
    modifies s.cache, s.cache.table, s.cache.cache, s.cache.disk, s.cache.slots, s.cache.slots.bits, s.cache.nodes,
             s.blockmap, s.blockmap.bits, s.inodemap, s.inodemap.bits
    ensures s.Valid() && h.ops == ops
    ensures Tells(old(Begin(s.cache.View(), s.blockmap.bits[..], s.inodemap.bits[..])),
                  s.cache.View(), s.blockmap.bits[..], s.inodemap.bits[..], h)
  {
    ghost var b := Begin(s.cache.View(), s.blockmap.bits[..], s.inodemap.bits[..]);
    h := Story([], [], []);
    Start(b.c, b.m);
    h := RunOn(s, ops, h, b);
    Open(b, s.cache.View(), s.blockmap.bits[..], s.inodemap.bits[..], h);
  }

  // ---- Runs across unmounts ----

  datatype Session = Session(ops: seq<StoreOp>, keys: seq<Block>)

  function AllOps(sessions: seq<Session>): seq<StoreOp> {
    if |sessions| == 0 then [] else sessions[0].ops + AllOps(sessions[1..])
  }

  lemma Regrouped(before: seq<StoreOp>, sessions: seq<Session>)
    requires |sessions| > 0
    ensures before + sessions[0].ops + AllOps(sessions[1..]) == before + AllOps(sessions)
  {
  }

  predicate Sound(x: Session) {
    |x.keys| == ID_BLOCKS && forall i :: 0 <= i < |x.ops| ==> Allowed(x.ops[i])
  }

  lemma ToldRemounted(b: Begin, c1: Cache<Block>, m1: seq<bv8>, im1: seq<bv8>, c2: Cache<Block>, m2: seq<bv8>,
                      im2: seq<bv8>, h: Story)
    requires Tells(b, c1, m1, im1, h) && |c2.disk| == |c1.disk| && |m2| == |m1| && |im2| == |im1|
    requires SameObjects(c1, c2)
    requires forall x :: TABLE_START <= x < |c1.disk| ==> Contents(c2, x) == Contents(c1, x)
    requires forall k :: 0 <= k < MAX_BLOCKS ==> (Bit(m2, k) <==> Bit(m1, k))
    requires forall k :: 2 <= k < MAX_OBJECT ==> (Bit(im2, k) <==> Bit(im1, k))
    requires !Bit(im2, 0) && !Bit(im2, 1)
    ensures Tells(b, c2, m2, im2, h)
  {
    IdsRemounted(b.im, im1, im2, h.ops, h.answers);
  }

  method OneSession(s: ObjectStore, x: Session, h: Story, ghost b: Begin) returns (t: ObjectStore, h': Story)
    requires s.Valid() && Sound(x)
    requires Told(b, s.cache.View(), s.blockmap.bits[..], s.inodemap.bits[..], h)
    modifies s.cache, s.cache.table, s.cache.cache, s.cache.disk, s.cache.slots, s.cache.slots.bits, s.cache.nodes,
             s.blockmap, s.blockmap.bits, s.inodemap, s.inodemap.bits
    ensures t.Valid() && Told(b, t.cache.View(), t.blockmap.bits[..], t.inodemap.bits[..], h')
    ensures h'.ops == h.ops + x.ops && t.cache.disk == s.cache.disk
    ensures fresh(t.inodemap) && fresh(t.inodemap.bits) && fresh(t.blockmap) && fresh(t.blockmap.bits)
    ensures fresh(t.cache) && fresh(t.cache.table) && fresh(t.cache.cache) && fresh(t.cache.slots)
    ensures fresh(t.cache.slots.bits) && t.cache.nodes == {}
  {
    h' := RunOn(s, x.ops, h, b);
    ghost var c, m, im := s.cache.View(), s.blockmap.bits[..], s.inodemap.bits[..];
    t := Remount(s, x.keys);
    Open(b, c, m, im, h');
    ToldRemounted(b, c, m, im, t.cache.View(), t.blockmap.bits[..], t.inodemap.bits[..], h');
  }

  /** Runs with an unmount and a mount after each: the story is that of one run of all their operations. */
  method Sessions(s: ObjectStore, sessions: seq<Session>, h: Story, ghost b: Begin) returns (t: ObjectStore, h': Story)
    requires s.Valid() && (forall i :: 0 <= i < |sessions| ==> Sound(sessions[i]))
    requires Told(b, s.cache.View(), s.blockmap.bits[..], s.inodemap.bits[..], h)
    modifies s.cache, s.cache.table, s.cache.cache, s.cache.disk, s.cache.slots, s.cache.slots.bits, s.cache.nodes,
             s.blockmap, s.blockmap.bits, s.inodemap, s.inodemap.bits
    ensures t.Valid() && Told(b, t.cache.View(), t.blockmap.bits[..], t.inodemap.bits[..], h')
    ensures h'.ops == h.ops + AllOps(sessions)
    decreases |sessions|
  {
    if |sessions| == 0 {
      return s, h;
    }
    assert Sound(sessions[0]);
    var u, h1 := OneSession(s, sessions[0], h, b);
    t, h' := Sessions(u, sessions[1..], h1, b);
    Regrouped(h.ops, sessions);
  }
}
