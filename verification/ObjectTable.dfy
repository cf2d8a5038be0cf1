/**
  The object table of `Assn4/objstore.c` over the block cache: 64-byte records, 64 to a block, in the
  blocks after the three metadata areas; and the bitmaps kept there while the store is unmounted.
 */
module ObjectTables {
  import opened Common
  import opened CacheSpec
  import opened BlockCaches
  import opened Bitmaps

  const BLOCK_SIZE: nat := 0x1000
  const OBJECTS_PER_BLOCK: nat := 64
  const RECORD_SIZE: nat := 64
  const MAX_OBJECT: nat := 0x10_0000
  const MAX_BLOCKS: nat := 0x80_0000
  const ID_BLOCKS: nat := 1024
  const I_BLOCKS: nat := 32
  const B_BLOCKS: nat := 256
  const TABLE_START: nat := ID_BLOCKS + I_BLOCKS + B_BLOCKS
  const BLOCKMAP_SHIFT: nat := 128 + 4 + 32 + 2048
  const RESERVED: nat := 8 * BLOCKMAP_SHIFT

  type Block = b: seq<bv8> | |b| == BLOCK_SIZE witness seq(BLOCK_SIZE, _ => 0)
  type Record = r: seq<bv8> | |r| == RECORD_SIZE witness seq(RECORD_SIZE, _ => 0)

  /** An id that `fetch_free_id` can answer. */
  predicate IsId(id: nat) { 2 <= id < MAX_OBJECT }

  /** An id, handed out or not, whose record has a block on the disk. */
  predicate HasPlace(id: nat) { 2 <= id && TABLE_START + (id - 2) / OBJECTS_PER_BLOCK < MAX_BLOCKS }

  // ---- Addressing ----

  function TableBlock(id: nat): nat
    requires HasPlace(id)
  {
    TABLE_START + (id - 2) / OBJECTS_PER_BLOCK
  }

  function Place(id: nat): (k: nat)
    requires HasPlace(id)
    ensures k < OBJECTS_PER_BLOCK
  {
    (id - 2) % OBJECTS_PER_BLOCK
  }

  /** The table's blocks are exactly those from the end of the metadata to the last block `objstore_init` reserves. */
  lemma TableFillsReserved(b: nat)
    ensures (exists id :: IsId(id) && TableBlock(id) == b) <==> TABLE_START <= b < RESERVED
  {
    if TABLE_START <= b < RESERVED {
      var id := 2 + OBJECTS_PER_BLOCK * (b - TABLE_START);
      assert IsId(id) && TableBlock(id) == b;
    }
  }

  /**
    A record is kept in the reserved blocks exactly when its id is below 2^20 + 2; from there on its block is
    a data block.
   */
  lemma BlockReservedIff(id: nat)
    requires HasPlace(id)
    ensures TABLE_START <= TableBlock(id) < RESERVED <==> id < MAX_OBJECT + 2
    ensures RESERVED <= TableBlock(id) < MAX_BLOCKS <==> id >= MAX_OBJECT + 2
  {
  }

  /** Different ids have different places. */
  lemma PlacesApart(id: nat, id': nat)
    requires HasPlace(id) && HasPlace(id')
    ensures TableBlock(id) == TableBlock(id') && Place(id) == Place(id') ==> id == id'
  {
  }

  // ---- Records ----

  function RecordAt(b: Block, k: nat): Record
    requires k < OBJECTS_PER_BLOCK
  {
    b[RECORD_SIZE * k..RECORD_SIZE * k + RECORD_SIZE]
  }

  function StoreRecord(b: Block, k: nat, r: Record): Block
    requires k < OBJECTS_PER_BLOCK
  {
    b[..RECORD_SIZE * k] + r + b[RECORD_SIZE * k + RECORD_SIZE..]
  }

  lemma RecordsApart(b: Block, k: nat, r: Record, j: nat)
    requires k < OBJECTS_PER_BLOCK && j < OBJECTS_PER_BLOCK
    ensures RecordAt(StoreRecord(b, k, r), j) == if j == k then r else RecordAt(b, j)
  {
    var c := StoreRecord(b, k, r);
    forall x | 0 <= x < RECORD_SIZE
      ensures c[RECORD_SIZE * j + x] == if j == k then r[x] else b[RECORD_SIZE * j + x]
    {
      if j < k {
        assert RECORD_SIZE * j + x < RECORD_SIZE * k;
      }
    }
  }

  /** The record's first field: an unsigned int, lowest byte first. */
  function IdOf(r: Record): nat {
    r[0] as nat + 0x100 * r[1] as nat + 0x1_0000 * r[2] as nat + 0x100_0000 * r[3] as nat
  }

  /** The object that the table holds under an id, if it holds one. */
  function Lookup(c: Cache<Block>, id: nat): Option<Record>
    requires HasPlace(id) && |c.disk| >= MAX_BLOCKS
  {
    var r := RecordAt(Contents(c, TableBlock(id)), Place(id));
    if IdOf(r) == id then Some(r) else None
  }

  lemma LookupBytes(c: Cache<Block>, id: nat)
    requires HasPlace(id) && |c.disk| >= MAX_BLOCKS
    ensures Lookup(c, id).Some? ==>
              var r := Lookup(c, id).value;
              && (forall x :: 0 <= x < 64 ==> r[x] == Contents(c, 1312 + (id - 2) / 64)[64 * ((id - 2) % 64) + x])
              && r[0] as nat + 0x100 * r[1] as nat + 0x1_0000 * r[2] as nat + 0x100_0000 * r[3] as nat == id
  {
  }

  ghost predicate SameObjects(c: Cache<Block>, d: Cache<Block>)
    requires |c.disk| >= MAX_BLOCKS && |d.disk| >= MAX_BLOCKS
  {
    forall id :: IsId(id) ==> Lookup(d, id) == Lookup(c, id)
  }

  lemma ContentsKeepObjects(c: Cache<Block>, d: Cache<Block>)
    requires |d.disk| == |c.disk| >= MAX_BLOCKS
    requires forall b :: TABLE_START <= b < RESERVED ==> Contents(d, b) == Contents(c, b)
    ensures SameObjects(c, d)
  {
    forall id | IsId(id) ensures Lookup(d, id) == Lookup(c, id) {
      TableFillsReserved(TableBlock(id));
    }
  }

  /** Storing a record in its block changes what is held under its own id, and under no other. */
  lemma StoredObjects(c: Cache<Block>, d: Cache<Block>, r: Record)
    requires HasPlace(IdOf(r)) && |d.disk| == |c.disk| >= MAX_BLOCKS
    requires forall b :: 0 <= b < |c.disk| ==>
               Contents(d, b) == if b == TableBlock(IdOf(r)) then StoreRecord(Contents(c, b), Place(IdOf(r)), r)
                                 else Contents(c, b)
    ensures forall id :: HasPlace(id) ==> Lookup(d, id) == if id == IdOf(r) then Some(r) else Lookup(c, id)
  {
    forall id | HasPlace(id) ensures Lookup(d, id) == if id == IdOf(r) then Some(r) else Lookup(c, id) {
      PlacesApart(id, IdOf(r));
      RecordsApart(Contents(c, TableBlock(IdOf(r))), Place(IdOf(r)), r, Place(id));
    }
  }

  // ---- Which blocks are resident ----

  /** No metadata block is in the cache; those are read and written around it. */
  ghost predicate ResidentsFrom<T>(lru: seq<Entry<T>>, lo: nat) {
    forall i :: 0 <= i < |lru| ==> lo <= lru[i].block
  }

  lemma ReadResidents<T>(c: Cache<T>, b: nat, cap: nat, lo: nat)
    requires WellFormed(c) && cap > 0 && lo <= b < |c.disk| && ResidentsFrom(c.lru, lo)
    ensures ResidentsFrom(ReadStep(c, b, cap).lru, lo)
  {
  }

  lemma WriteResidents<T>(c: Cache<T>, b: nat, x: T, cap: nat, lo: nat)
    requires WellFormed(c) && cap > 0 && lo <= b < |c.disk| && ResidentsFrom(c.lru, lo)
    ensures ResidentsFrom(WriteStep(c, b, x, cap).lru, lo)
  {
  }

  /** The steps of `insert_to_disk` on a cache `c`. */
  ghost function PutSteps(c: Cache<Block>, r: Record): Cache<Block>
    requires WellFormed(c) && |c.disk| >= MAX_BLOCKS && HasPlace(IdOf(r))
  {
    var b := TableBlock(IdOf(r));
    ReadInvisible(c, b, SLOTS - 2);
    WriteStep(ReadStep(c, b, SLOTS - 2), b, StoreRecord(Contents(c, b), Place(IdOf(r)), r), SLOTS - 2)
  }

  lemma PutChangesOne(c: Cache<Block>, r: Record)
    requires WellFormed(c) && |c.disk| >= MAX_BLOCKS && HasPlace(IdOf(r)) && ResidentsFrom(c.lru, TABLE_START)
    ensures var d := PutSteps(c, r);
            && WellFormed(d) && |d.disk| == |c.disk| && ResidentsFrom(d.lru, TABLE_START)
            && (forall id :: HasPlace(id) ==> Lookup(d, id) == if id == IdOf(r) then Some(r) else Lookup(c, id))
            && (forall b :: 0 <= b < |c.disk| && b != TableBlock(IdOf(r)) ==> Contents(d, b) == Contents(c, b))
  {
    var b := TableBlock(IdOf(r));
    ReadInvisible(c, b, SLOTS - 2);
    ReadResidents(c, b, SLOTS - 2, TABLE_START);
    var d, x := ReadStep(c, b, SLOTS - 2), StoreRecord(Contents(c, b), Place(IdOf(r)), r);
    WriteVisible(d, b, x, SLOTS - 2);
    WriteResidents(d, b, x, SLOTS - 2, TABLE_START);
    StoredObjects(c, PutSteps(c, r), r);
  }

  lemma PutBytes(c: Cache<Block>, r: Record)
    requires WellFormed(c) && |c.disk| >= MAX_BLOCKS && HasPlace(IdOf(r))
    ensures var d := PutSteps(c, r); var id := IdOf(r);
            && WellFormed(d) && |d.disk| == |c.disk|
            && forall x :: 0 <= x < 64 ==> Contents(d, 1312 + (id - 2) / 64)[64 * ((id - 2) % 64) + x] == r[x]
  {
    var b := TableBlock(IdOf(r));
    ReadInvisible(c, b, SLOTS - 2);
    WriteVisible(ReadStep(c, b, SLOTS - 2), b, StoreRecord(Contents(c, b), Place(IdOf(r)), r), SLOTS - 2);
  }

  // ---- Bitmaps on disk ----

  function Chunk(s: seq<bv8>, j: nat): Block
    requires BLOCK_SIZE * j + BLOCK_SIZE <= |s|
  {
    s[BLOCK_SIZE * j..BLOCK_SIZE * j + BLOCK_SIZE]
  }

  /** `objstore_init` on a saved block map: the metadata and the table are taken. */
  function Reserve(m: seq<bv8>): (r: seq<bv8>)
    requires |m| >= BLOCKMAP_SHIFT
    ensures |r| == |m|
  {
    seq(BLOCKMAP_SHIFT, _ => 0xff) + m[BLOCKMAP_SHIFT..]
  }

  ghost predicate Reserved(m: seq<bv8>) {
    RESERVED <= 8 * |m| && forall k :: 0 <= k < RESERVED ==> Bit(m, k)
  }

  lemma FullByte(j: nat)
    requires j < 8
    ensures 0xff & Mask(j) != 0
  {
  }

  lemma ReserveReserves(m: seq<bv8>)
    requires |m| >= BLOCKMAP_SHIFT
    ensures Reserved(Reserve(m))
    ensures forall k :: RESERVED <= k < 8 * |m| ==> (Bit(Reserve(m), k) <==> Bit(m, k))
    ensures Reserved(m) ==> forall k :: 0 <= k < 8 * |m| ==> (Bit(Reserve(m), k) <==> Bit(m, k))
  {
    forall k | 0 <= k < RESERVED ensures Bit(Reserve(m), k) {
      FullByte(k % 8);
    }
  }

  lemma LowBits(b: bv8)
    ensures b & 0xfc & Mask(0) == 0 && b & 0xfc & Mask(1) == 0
  {
  }

  lemma HighBit(b: bv8, j: nat)
    requires 2 <= j < 8
    ensures b & 0xfc & Mask(j) == b & Mask(j)
  {
  }

  function KeepIds(m: seq<bv8>): seq<bv8>
    requires |m| > 0
  {
    m[0 := m[0] & 0xfc]
  }

  /** `inodemap[0] &= INODE_INIT` */
  lemma IdsKept(m: seq<bv8>, m': seq<bv8>)
    requires 0 < |m| && m' == KeepIds(m)
    ensures forall k :: 2 <= k < 8 * |m| ==> (Bit(m', k) <==> Bit(m, k))
    ensures !Bit(m', 0) && !Bit(m', 1)
  {
    LowBits(m[0]);
    forall k | 2 <= k < 8 * |m| ensures Bit(m', k) <==> Bit(m, k) {
      if k < 8 { HighBit(m[0], k); }
    }
  }

  /** Writes around the cache to metadata blocks show there, and nowhere else. */
  lemma Around(c: Cache<Block>, d: Cache<Block>, b: nat)
    requires ResidentsFrom(c.lru, TABLE_START) && d.lru == c.lru && b < |d.disk| == |c.disk|
    requires forall k :: TABLE_START <= k < |c.disk| ==> d.disk[k] == c.disk[k]
    ensures Contents(d, b) == if b < TABLE_START then d.disk[b] else Contents(c, b)
  {
  }

  /** A bitmap as `count` blocks of the disk spell it. */
  function Image(disk: seq<Block>, first: nat, count: nat): (r: seq<bv8>)
    requires first + count <= |disk|
    ensures |r| == BLOCK_SIZE * count
  {
    seq(BLOCK_SIZE * count, i requires 0 <= i < BLOCK_SIZE * count => disk[first + i / BLOCK_SIZE][i % BLOCK_SIZE])
  }

  lemma ChunksMakeImage(m: seq<bv8>, disk: seq<Block>, first: nat, count: nat)
    requires first + count <= |disk| && |m| == BLOCK_SIZE * count
    requires forall j :: 0 <= j < count ==> Chunk(m, j) == disk[first + j]
    ensures m == Image(disk, first, count)
  {
    forall i | 0 <= i < |m| ensures m[i] == disk[first + i / BLOCK_SIZE][i % BLOCK_SIZE] {
      assert Chunk(m, i / BLOCK_SIZE)[i % BLOCK_SIZE] == m[i];
    }
  }

  lemma ImageBytes(disk: seq<Block>, first: nat, count: nat)
    requires first + count <= |disk|
    ensures forall x :: 0 <= x < 4096 * count ==> Image(disk, first, count)[x] == disk[first + x / 4096][x % 4096]
  {
  }

  lemma SavedBytes(disk: seq<Block>, ids: seq<bv8>, m: seq<bv8>)
    requires |disk| >= MAX_BLOCKS && ids == Image(disk, ID_BLOCKS, I_BLOCKS)
    requires m == Image(disk, ID_BLOCKS + I_BLOCKS, B_BLOCKS)
    ensures |ids| == 0x2_0000 && |m| == 0x10_0000
    ensures forall x :: 0 <= x < 0x2_0000 ==> disk[1024 + x / 4096][x % 4096] == ids[x]
    ensures forall x :: 0 <= x < 0x10_0000 ==> disk[1056 + x / 4096][x % 4096] == m[x]
  {
    ImageBytes(disk, ID_BLOCKS, I_BLOCKS);
    ImageBytes(disk, ID_BLOCKS + I_BLOCKS, B_BLOCKS);
  }

  lemma MountedBytes(disk: seq<Block>, ids: seq<bv8>, m: seq<bv8>)
    requires |disk| >= MAX_BLOCKS && ids == KeepIds(Image(disk, ID_BLOCKS, I_BLOCKS))
    requires m == Reserve(Image(disk, ID_BLOCKS + I_BLOCKS, B_BLOCKS))
    ensures |ids| == 0x2_0000 && |m| == 0x10_0000 && ids[0] == disk[1024][0] & 0xfc
    ensures forall x :: 1 <= x < 0x2_0000 ==> ids[x] == disk[1024 + x / 4096][x % 4096]
    ensures forall x :: 0 <= x < 0x10_0000 ==> m[x] == if x < 2212 then 0xff else disk[1056 + x / 4096][x % 4096]
  {
    ImageBytes(disk, ID_BLOCKS, I_BLOCKS);
    ImageBytes(disk, ID_BLOCKS + I_BLOCKS, B_BLOCKS);
  }

  lemma ImageKept(disk: seq<Block>, disk': seq<Block>, first: nat, count: nat)
    requires first + count <= |disk| == |disk'| && forall b :: first <= b < first + count ==> disk'[b] == disk[b]
    ensures Image(disk', first, count) == Image(disk, first, count)
  {
  }

  lemma NoneLeft(m: seq<bv8>)
    requires Reserved(m)
    ensures (forall k :: !Clear(m, k)) <==> forall k :: RESERVED <= k < 8 * |m| ==> Bit(m, k)
  {
    if forall k :: !Clear(m, k) {
      forall k | RESERVED <= k < 8 * |m| ensures Bit(m, k) { assert !Clear(m, k); }
    }
  }

  lemma LoadedChunk(s: seq<bv8>, t: seq<bv8>, i: nat, b: Block)
    requires |t| == |s| && BLOCK_SIZE * i + BLOCK_SIZE <= |s|
    requires forall x :: 0 <= x < |s| ==>
             t[x] == if BLOCK_SIZE * i <= x < BLOCK_SIZE * i + BLOCK_SIZE then b[x - BLOCK_SIZE * i] else s[x]
    ensures Chunk(t, i) == b && forall j :: 0 <= j < i ==> Chunk(t, j) == Chunk(s, j)
  {
  }

  lemma FreshTwice<T>(a: set<T>, b: set<T>, c: set<T>)
    ensures c - a <= (b - a) + (c - b)
  {
  }

  class ObjectStore {
    const cache: BlockCache<Block>
    const inodemap: Bitmap
    const blockmap: Bitmap

    ghost predicate Separate()
      reads cache
    {
      && inodemap != blockmap && inodemap != cache.slots && blockmap != cache.slots
      && inodemap.bits != blockmap.bits && inodemap.bits != cache.slots.bits && blockmap.bits != cache.slots.bits
      && 8 * inodemap.bits.Length == MAX_OBJECT && 8 * blockmap.bits.Length == MAX_BLOCKS
      && MAX_BLOCKS <= cache.disk.Length
    }

    ghost predicate CacheOk()
      reads cache, cache.table, cache.cache, cache.disk, cache.slots, cache.slots.bits, cache.nodes
    {
      Separate() && cache.Valid() && ResidentsFrom(cache.View().lru, TABLE_START)
    }

    ghost predicate Valid()
      reads cache, cache.table, cache.cache, cache.disk, cache.slots, cache.slots.bits, cache.nodes,
            inodemap, inodemap.bits, blockmap, blockmap.bits
    {
      CacheOk() && inodemap.Valid() && blockmap.Valid() && Reserved(blockmap.bits[..])
    }

    lemma Whole()
      requires CacheOk() && inodemap.Valid() && blockmap.Valid() && Reserved(blockmap.bits[..])
      ensures Valid()
    {
    }

    constructor (disk: array<Block>)
      requires MAX_BLOCKS <= disk.Length
      ensures CacheOk() && inodemap.Valid() && blockmap.Valid()
      ensures fresh(inodemap) && fresh(inodemap.bits) && fresh(blockmap) && fresh(blockmap.bits)
      ensures fresh(cache) && cache.disk == disk && cache.View() == Cache([], disk[..])
      ensures fresh(cache.table) && fresh(cache.cache) && fresh(cache.slots) && fresh(cache.slots.bits)
              && cache.nodes == {}
    {
      cache := new BlockCache(disk);
      inodemap := new Bitmap(MAX_OBJECT / 8);
      blockmap := new Bitmap(MAX_BLOCKS / 8);
    }

    // ---- Objects ----

    /** `read_block_modified` of a table or data block. */
    method ReadBlock(b: nat) returns (data: Block)
      requires CacheOk() && TABLE_START <= b < MAX_BLOCKS
      modifies cache, cache.table, cache.cache, cache.disk, cache.slots, cache.slots.bits, cache.nodes
      ensures CacheOk() && fresh(cache.nodes - old(cache.nodes))
      ensures cache.View() == ReadStep(old(cache.View()), b, SLOTS - 2) && data == Contents(old(cache.View()), b)
      ensures SameContents(old(cache.View()), cache.View())
    {
      ReadInvisible(cache.View(), b, SLOTS - 2);
      ReadResidents(cache.View(), b, SLOTS - 2, TABLE_START);
      data := cache.Read(b);
    }

    method GetObjectById(id: nat) returns (r: Option<Record>)
      requires CacheOk() && HasPlace(id)
      modifies cache, cache.table, cache.cache, cache.disk, cache.slots, cache.slots.bits, cache.nodes
      ensures CacheOk() && fresh(cache.nodes - old(cache.nodes))
      ensures r == Lookup(old(cache.View()), id) && SameContents(old(cache.View()), cache.View())
      // in plain numbers: the bytes of the record, the first four of which spell the id
      ensures r.Some? ==> forall x :: 0 <= x < 64 ==>
                r.value[x] == Contents(old(cache.View()), 1312 + (id - 2) / 64)[64 * ((id - 2) % 64) + x]
      ensures r.Some? ==>
                r.value[0] as nat + 0x100 * r.value[1] as nat + 0x1_0000 * r.value[2] as nat
                + 0x100_0000 * r.value[3] as nat == id
    {
      LookupBytes(cache.View(), id);
      var buf := ReadBlock(TableBlock(id));
      var node := RecordAt(buf, Place(id));
      r := if IdOf(node) == id then Some(node) else None;
    }

    /** The second half: the block read, which is what `c` held, is written back with the record in its place. */
    method StoreInBlock(r: Record, buf: Block, ghost c: Cache<Block>)
      requires CacheOk() && HasPlace(IdOf(r)) && WellFormed(c) && |c.disk| == cache.disk.Length
      requires ResidentsFrom(c.lru, TABLE_START)
      requires cache.View() == ReadStep(c, TableBlock(IdOf(r)), SLOTS - 2) && buf == Contents(c, TableBlock(IdOf(r)))
      modifies cache, cache.table, cache.cache, cache.disk, cache.slots, cache.slots.bits, cache.nodes
      ensures CacheOk() && fresh(cache.nodes - old(cache.nodes)) && cache.View() == PutSteps(c, r)
    {
      PutChangesOne(c, r);
      cache.Write(TableBlock(IdOf(r)), StoreRecord(buf, Place(IdOf(r)), r));
    }

    /** The read and the write of `insert_to_disk`. */
    method PutInTable(r: Record)
      requires CacheOk() && HasPlace(IdOf(r))
      modifies cache, cache.table, cache.cache, cache.disk, cache.slots, cache.slots.bits, cache.nodes
      ensures CacheOk() && fresh(cache.nodes - old(cache.nodes)) && cache.View() == PutSteps(old(cache.View()), r)
    {
      ghost var c := cache.View();
      var buf := ReadBlock(TableBlock(IdOf(r)));
      ghost var read := cache.nodes;
      assert fresh(read - old(cache.nodes));
      StoreInBlock(r, buf, c);
      assert fresh(cache.nodes - read);
      assert fresh(cache.nodes - old(cache.nodes)) by { FreshTwice(old(cache.nodes), read, cache.nodes); }
    }

    method InsertToDisk(r: Record)
      requires CacheOk() && HasPlace(IdOf(r))
      modifies cache, cache.table, cache.cache, cache.disk, cache.slots, cache.slots.bits, cache.nodes
      ensures CacheOk() && fresh(cache.nodes - old(cache.nodes))
      ensures forall id :: HasPlace(id) ==>
                Lookup(cache.View(), id) == if id == IdOf(r) then Some(r) else Lookup(old(cache.View()), id)
      ensures forall b :: 0 <= b < cache.disk.Length && b != TableBlock(IdOf(r)) ==>
                Contents(cache.View(), b) == Contents(old(cache.View()), b)
      // in plain numbers: the bytes of the record, in block 1312 or one after it, at a multiple of 64
      ensures var id := IdOf(r);
              forall x :: 0 <= x < 64 ==>
                Contents(cache.View(), 1312 + (id - 2) / 64)[64 * ((id - 2) % 64) + x] == r[x]
    {
      PutChangesOne(cache.View(), r);
      PutBytes(cache.View(), r);
      PutInTable(r);
    }

    // ---- Data blocks ----

    /** `fetch_free_block`: never a metadata or table block. */
    method FetchFreeBlock() returns (b: nat)
      requires Valid()
      modifies blockmap, blockmap.bits
      ensures Valid() && cache.View() == old(cache.View())
      ensures b == 0 || RESERVED <= b < MAX_BLOCKS
      ensures b == 0 <==> forall k :: RESERVED <= k < MAX_BLOCKS ==> Bit(old(blockmap.bits[..]), k)
      ensures b == 0 ==> blockmap.bits[..] == old(blockmap.bits[..])
      ensures b != 0 ==> !Bit(old(blockmap.bits[..]), b)
      ensures b != 0 ==> forall k :: 0 <= k < MAX_BLOCKS ==>
              (Bit(blockmap.bits[..], k) <==> k == b || Bit(old(blockmap.bits[..]), k))
    {
      ghost var m := blockmap.bits[..];
      b := blockmap.Alloc();
      NoneLeft(m);
    }

    /** `free_block`; the reserved blocks stay taken exactly when it is not given one of them. */
    method FreeBlock(b: nat)
      requires Valid() && b < MAX_BLOCKS
      modifies blockmap.bits
      ensures CacheOk() && inodemap.Valid() && blockmap.Valid() && cache.View() == old(cache.View())
      ensures Valid() <==> RESERVED <= b
      ensures forall k :: 0 <= k < MAX_BLOCKS ==>
              (Bit(blockmap.bits[..], k) <==> k != b && Bit(old(blockmap.bits[..]), k))
    {
      blockmap.Free(b);
      assert !Bit(blockmap.bits[..], b);
    }

    method ReadData(b: nat) returns (data: Block)
      requires CacheOk() && RESERVED <= b < MAX_BLOCKS
      modifies cache, cache.table, cache.cache, cache.disk, cache.slots, cache.slots.bits, cache.nodes
      ensures CacheOk() && fresh(cache.nodes - old(cache.nodes))
      ensures data == Contents(old(cache.View()), b) && SameContents(old(cache.View()), cache.View())
    {
      data := ReadBlock(b);
    }

    /** Writing a data block touches no object and no other block. */
    method WriteData(b: nat, data: Block)
      requires CacheOk() && RESERVED <= b < MAX_BLOCKS
      modifies cache, cache.table, cache.cache, cache.disk, cache.slots, cache.slots.bits, cache.nodes
      ensures CacheOk() && fresh(cache.nodes - old(cache.nodes))
      ensures SameObjects(old(cache.View()), cache.View())
      ensures forall k :: 0 <= k < cache.disk.Length ==>
                Contents(cache.View(), k) == if k == b then data else Contents(old(cache.View()), k)
    {
      ghost var c := cache.View();
      WriteVisible(c, b, data, SLOTS - 2);
      WriteResidents(c, b, data, SLOTS - 2, TABLE_START);
      cache.Write(b, data);
      ContentsKeepObjects(c, cache.View());
    }

    method SyncAll()
      requires CacheOk()
      modifies cache.disk
      ensures CacheOk() && SameContents(old(cache.View()), cache.View())
      ensures cache.View().lru == old(cache.View().lru)
      ensures forall b :: 0 <= b < cache.disk.Length ==> cache.disk[b] == Contents(old(cache.View()), b)
    {
      SyncFlushes(cache.View());
      cache.Sync();
    }

    // ---- Mounting ----

    /** `memcpy` of blocks into a bitmap, in `objstore_init`. */
    method LoadMap(m: Bitmap, first: nat, count: nat)
      requires m.bits.Length == BLOCK_SIZE * count && first + count <= cache.disk.Length
      requires m.bits as object != cache.disk
      modifies m.bits
      ensures m.bits[..] == Image(cache.disk[..], first, count)
      ensures forall x :: 0 <= x < m.bits.Length ==> m.bits[x] == cache.disk[first + x / 4096][x % 4096]
    {
      for i := 0 to count
        invariant forall j :: 0 <= j < i ==> Chunk(m.bits[..], j) == cache.disk[first + j]
      {
        ghost var before := m.bits[..];
        var temp := cache.disk[first + i];
        forall x | 0 <= x < BLOCK_SIZE {
          m.bits[BLOCK_SIZE * i + x] := temp[x];
        }
        LoadedChunk(before, m.bits[..], i, temp);
      }
      ChunksMakeImage(m.bits[..], cache.disk[..], first, count);
    }

    /** `write_block` of a metadata block. */
    method SaveBlock(b: nat, data: Block)
      requires CacheOk() && b < TABLE_START
      modifies cache.disk
      ensures CacheOk() && cache.View() == old(cache.View()).(disk := old(cache.View()).disk[b := data])
    {
      cache.WriteAround(b, data);
    }

    /** `memcpy` of a bitmap into blocks, in `objstore_destroy`. */
    method SaveMap(m: Bitmap, first: nat, count: nat)
      requires CacheOk() && m.bits.Length == BLOCK_SIZE * count && first + count <= TABLE_START
      requires m.bits as object != cache.disk
      modifies cache.disk
      ensures CacheOk() && cache.View().lru == old(cache.View().lru)
      ensures m.bits[..] == Image(cache.disk[..], first, count)
      ensures forall x :: 0 <= x < m.bits.Length ==> m.bits[x] == cache.disk[first + x / 4096][x % 4096]
      ensures forall b :: 0 <= b < cache.disk.Length && !(first <= b < first + count) ==>
              cache.disk[b] == old(cache.disk[b])
    {
      for i := 0 to count
        invariant CacheOk() && cache.View().lru == old(cache.View().lru)
        invariant forall j :: 0 <= j < i ==> Chunk(m.bits[..], j) == cache.disk[first + j]
        invariant forall b :: 0 <= b < cache.disk.Length && !(first <= b < first + i) ==>
                  cache.disk[b] == old(cache.disk[b])
      {
        SaveBlock(first + i, Chunk(m.bits[..], i));
      }
      ChunksMakeImage(m.bits[..], cache.disk[..], first, count);
    }

    /** The two bitmaps as the disk has them. */
    method LoadMaps()
      requires CacheOk()
      modifies inodemap.bits, blockmap.bits
      ensures inodemap.bits[..] == Image(cache.disk[..], ID_BLOCKS, I_BLOCKS)
      ensures blockmap.bits[..] == Image(cache.disk[..], ID_BLOCKS + I_BLOCKS, B_BLOCKS)
    {
      LoadMap(inodemap, ID_BLOCKS, I_BLOCKS);
      LoadMap(blockmap, ID_BLOCKS + I_BLOCKS, B_BLOCKS);
    }

    /** The loop that takes the blocks of the metadata and of the table. */
    method TakeReserved()
      requires blockmap.bits.Length >= BLOCKMAP_SHIFT
      modifies blockmap.bits
      ensures blockmap.bits[..] == Reserve(old(blockmap.bits[..]))
    {
      for i := 0 to BLOCKMAP_SHIFT
        invariant forall j :: 0 <= j < blockmap.bits.Length ==>
                  blockmap.bits[j] == if j < i then 0xff else old(blockmap.bits[..])[j]
      {
        blockmap.bits[i] := 0xff;
      }
    }

    /** `objstore_init`, of a store just constructed over a disk. */
    method Init()
      requires CacheOk() && inodemap.Valid() && blockmap.Valid()
      modifies inodemap.bits, blockmap.bits
      ensures Valid() && cache.View() == old(cache.View())
      ensures inodemap.bits[..] == KeepIds(Image(cache.disk[..], ID_BLOCKS, I_BLOCKS))
      ensures blockmap.bits[..] == Reserve(Image(cache.disk[..], ID_BLOCKS + I_BLOCKS, B_BLOCKS))
      // in plain numbers: the bytes of 32 blocks from block 1024 on, and of 256 from block 1056 on
      ensures forall x :: 1 <= x < 0x2_0000 ==> inodemap.bits[x] == cache.disk[1024 + x / 4096][x % 4096]
      ensures forall x :: 0 <= x < 0x10_0000 ==>
                blockmap.bits[x] == if x < 2212 then 0xff else cache.disk[1056 + x / 4096][x % 4096]
      ensures inodemap.bits[0] == cache.disk[1024][0] & 0xfc
    {
      LoadMaps();
      ghost var ids, m := inodemap.bits[..], blockmap.bits[..];
      TakeReserved();
      inodemap.bits[0] := inodemap.bits[0] & 0xfc;
      ReserveReserves(m);
      assert inodemap.bits[..] == KeepIds(ids) && blockmap.bits[..] == Reserve(m);
      MountedBytes(cache.disk[..], inodemap.bits[..], blockmap.bits[..]);
    }

    method SaveKeys(keys: seq<Block>)
      requires CacheOk() && |keys| == ID_BLOCKS
      modifies cache.disk
      ensures CacheOk() && cache.View().lru == old(cache.View().lru)
      ensures forall b :: 0 <= b < cache.disk.Length ==>
              cache.disk[b] == if b < ID_BLOCKS then keys[b] else old(cache.disk[b])
    {
      ghost var c := cache.View();
      for i := 0 to ID_BLOCKS
        invariant CacheOk() && cache.View().lru == c.lru
        invariant forall b :: 0 <= b < cache.disk.Length ==> cache.disk[b] == if b < i then keys[b] else c.disk[b]
      {
        SaveBlock(i, keys[i]);
      }
    }

    method SaveMaps()
      requires CacheOk()
      modifies cache.disk
      ensures CacheOk() && cache.View().lru == old(cache.View().lru)
      ensures inodemap.bits[..] == Image(cache.disk[..], ID_BLOCKS, I_BLOCKS)
      ensures blockmap.bits[..] == Image(cache.disk[..], ID_BLOCKS + I_BLOCKS, B_BLOCKS)
      ensures forall b :: 0 <= b < cache.disk.Length && !(ID_BLOCKS <= b < TABLE_START) ==>
              cache.disk[b] == old(cache.disk[b])
    {
      SaveMap(inodemap, ID_BLOCKS, I_BLOCKS);
      ghost var d := cache.disk[..];
      SaveMap(blockmap, ID_BLOCKS + I_BLOCKS, B_BLOCKS);
      ImageKept(d, cache.disk[..], ID_BLOCKS, I_BLOCKS);
    }

    /** The key table and the bitmaps, written around the cache. */
    method SaveMetadata(keys: seq<Block>)
      requires CacheOk() && |keys| == ID_BLOCKS
      modifies cache.disk
      ensures CacheOk() && cache.View().lru == old(cache.View().lru)
      ensures inodemap.bits[..] == Image(cache.disk[..], ID_BLOCKS, I_BLOCKS)
      ensures blockmap.bits[..] == Image(cache.disk[..], ID_BLOCKS + I_BLOCKS, B_BLOCKS)
      ensures forall b :: 0 <= b < ID_BLOCKS ==> cache.disk[b] == keys[b]
      ensures forall b :: TABLE_START <= b < cache.disk.Length ==> cache.disk[b] == old(cache.disk[b])
    {
      SaveKeys(keys);
      SaveMaps();
    }

    /** `objstore_destroy`; `keys` are the blocks of the key table. */
    method Destroy(keys: seq<Block>)
      requires CacheOk() && |keys| == ID_BLOCKS
      modifies cache.disk
      ensures CacheOk()
      ensures inodemap.bits[..] == Image(cache.disk[..], ID_BLOCKS, I_BLOCKS)
      ensures blockmap.bits[..] == Image(cache.disk[..], ID_BLOCKS + I_BLOCKS, B_BLOCKS)
      ensures forall x :: 0 <= x < 0x2_0000 ==> cache.disk[1024 + x / 4096][x % 4096] == inodemap.bits[x]
      ensures forall x :: 0 <= x < 0x10_0000 ==> cache.disk[1056 + x / 4096][x % 4096] == blockmap.bits[x]
      ensures forall b :: 0 <= b < ID_BLOCKS ==> cache.disk[b] == keys[b]
      ensures forall b :: TABLE_START <= b < cache.disk.Length ==> cache.disk[b] == Contents(old(cache.View()), b)
    {
      ghost var c := cache.View();
      SaveMetadata(keys);
      ghost var d := cache.View();
      SyncAll();
      forall b | 0 <= b < cache.disk.Length
        ensures cache.disk[b] == if b < TABLE_START then d.disk[b] else Contents(c, b)
      {
        Around(c, d, b);
      }
      ImageKept(d.disk, cache.disk[..], ID_BLOCKS, I_BLOCKS);
      ImageKept(d.disk, cache.disk[..], ID_BLOCKS + I_BLOCKS, B_BLOCKS);
      SavedBytes(cache.disk[..], inodemap.bits[..], blockmap.bits[..]);
    }
  }

  /** Unmounting and mounting again keeps every object, every data block and both allocators. */
  method Remount(s: ObjectStore, keys: seq<Block>) returns (t: ObjectStore)
    requires s.Valid() && |keys| == ID_BLOCKS
    modifies s.cache.disk
    ensures t.Valid() && t.cache.disk == s.cache.disk
    ensures SameObjects(old(s.cache.View()), t.cache.View())
    ensures forall b :: TABLE_START <= b < s.cache.disk.Length ==>
            Contents(t.cache.View(), b) == Contents(old(s.cache.View()), b)
    ensures fresh(t) && fresh(t.inodemap) && fresh(t.inodemap.bits) && fresh(t.blockmap) && fresh(t.blockmap.bits)
    ensures fresh(t.cache) && fresh(t.cache.table) && fresh(t.cache.cache) && fresh(t.cache.slots)
    ensures fresh(t.cache.slots.bits) && t.cache.nodes == {}
    ensures forall k :: 2 <= k < MAX_OBJECT ==> (Bit(t.inodemap.bits[..], k) <==> Bit(old(s.inodemap.bits[..]), k))
    ensures !Bit(t.inodemap.bits[..], 0) && !Bit(t.inodemap.bits[..], 1)
    ensures forall k :: 0 <= k < MAX_BLOCKS ==> (Bit(t.blockmap.bits[..], k) <==> Bit(old(s.blockmap.bits[..]), k))
  {
    s.Destroy(keys);
    t := new ObjectStore(s.cache.disk);
    t.Init();
    IdsKept(s.inodemap.bits[..], t.inodemap.bits[..]);
    ReserveReserves(s.blockmap.bits[..]);
    ContentsKeepObjects(old(s.cache.View()), t.cache.View());
  }
}
