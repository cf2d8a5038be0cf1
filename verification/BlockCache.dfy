/**
  The write-back block cache of `Assn4/objstore.c` (the CACHE branch): nodes that stand both in a doubly
  linked LRU list and in a chained hash index, slots of cache memory, and the disk behind them.

  Where the source does not do what the cache is for, the methods here carry the repair, marked
  (a) to (d). What the source does without it is stated here for (b) and (c) and in `CacheSpec` for (a)
  and (d).
 */
module BlockCaches {
  import opened Common
  import opened CacheSpec
  import opened Bitmaps

  class CacheObj {
    const diskAddr: nat
    const cacheAddr: nat
    var dirty: bool
    var left: CacheObj?
    var right: CacheObj?
    var next: CacheObj?

    constructor (diskAddr: nat, cacheAddr: nat)
      ensures this.diskAddr == diskAddr && this.cacheAddr == cacheAddr && !dirty
      ensures left == null && right == null && next == null
    {
      this.diskAddr := diskAddr;
      this.cacheAddr := cacheAddr;
      dirty, left, right, next := false, null, null, null;
    }
  }

  function First(s: seq<CacheObj>): CacheObj? { if |s| == 0 then null else s[0] }

  function Last(s: seq<CacheObj>): CacheObj? { if |s| == 0 then null else s[|s| - 1] }

  function At(s: seq<CacheObj>, i: int): CacheObj? { if 0 <= i < |s| then s[i] else null }

  lemma CutNeighbours(l: seq<CacheObj>, i: nat, k: nat)
    requires i < |l| && k < |l| - 1
    ensures var m := Cut(l, i); var j := if k < i then k else k + 1;
            && m[k] == l[j] && j != i
            && At(m, k - 1) == (if j == i + 1 then At(l, i - 1) else At(l, j - 1))
            && At(m, k + 1) == (if j == i - 1 then At(l, i + 1) else At(l, j + 1))
  {
  }

  /** Links that step over position `i` of `l` spell the sequence without it. */
  lemma CutLinks(l: seq<CacheObj>, i: nat)
    requires i < |l|
    requires forall k {:trigger l[k].left} :: 0 <= k < |l| && k != i ==>
               l[k].left == if k == i + 1 then At(l, i - 1) else At(l, k - 1)
    requires forall k {:trigger l[k].right} :: 0 <= k < |l| && k != i ==>
               l[k].right == if k == i - 1 then At(l, i + 1) else At(l, k + 1)
    ensures forall k {:trigger Cut(l, i)[k].left} :: 0 <= k < |l| - 1 ==> Cut(l, i)[k].left == At(Cut(l, i), k - 1)
    ensures forall k {:trigger Cut(l, i)[k].right} :: 0 <= k < |l| - 1 ==> Cut(l, i)[k].right == At(Cut(l, i), k + 1)
  {
    var m := Cut(l, i);
    forall k | 0 <= k < |m| ensures m[k].left == At(m, k - 1) && m[k].right == At(m, k + 1) {
      CutNeighbours(l, i, k);
      var j := if k < i then k else k + 1;
      assert l[j].left == (if j == i + 1 then At(l, i - 1) else At(l, j - 1));
      assert l[j].right == (if j == i - 1 then At(l, i + 1) else At(l, j + 1));
    }
  }

  lemma CutEnds(l: seq<CacheObj>, i: nat)
    requires i < |l|
    ensures First(Cut(l, i)) == if i == 0 then At(l, 1) else l[0]
    ensures Last(Cut(l, i)) == if i == |l| - 1 then At(l, i - 1) else l[|l| - 1]
  {
  }

  lemma CutKeepsOthers(c: seq<CacheObj>, k: nat)
    requires k < |c|
    ensures forall n :: n in c && n != c[k] ==> n in Cut(c, k)
  {
    forall n | n in c && n != c[k] ensures n in Cut(c, k) {
      var i :| 0 <= i < |c| && c[i] == n;
      assert Cut(c, k)[if i < k then i else i - 1] == n;
    }
  }

  function Hash(block: nat): nat { block % CACHE_HTSIZE }

  // ---- The list, the index and the slots together ----

  /** The same nodes stand in the list and in the chains of their blocks. */
  ghost predicate IndexedBy(lru: seq<CacheObj>, chains: seq<seq<CacheObj>>) {
    && |chains| == CACHE_HTSIZE
    && (forall i {:trigger Pair(i, i)} :: Pair(i, i) && 0 <= i < |lru| ==> lru[i] in chains[Hash(lru[i].diskAddr)])
    && (forall h, i {:trigger Pair(h, i)} :: Pair(h, i) && 0 <= h < |chains| && 0 <= i < |chains[h]| ==>
      chains[h][i] in lru)
  }

  lemma Indexed(lru: seq<CacheObj>, chains: seq<seq<CacheObj>>)
    requires IndexedBy(lru, chains)
    ensures forall n {:trigger n in lru} :: n in lru ==> n in chains[Hash(n.diskAddr)]
    ensures forall h, i :: 0 <= h < |chains| && 0 <= i < |chains[h]| ==> chains[h][i] in lru
  {
    forall n | n in lru ensures n in chains[Hash(n.diskAddr)] {
      var i :| 0 <= i < |lru| && lru[i] == n;
      assert Pair(i, i);
    }
    forall h, i | 0 <= h < |chains| && 0 <= i < |chains[h]| ensures chains[h][i] in lru {
      assert Pair(h, i);
    }
  }

  ghost predicate DistinctNodes(s: seq<CacheObj>) {
    forall i, j {:trigger Pair(i, j)} :: Pair(i, j) && 0 <= i < j < |s| ==> s[i] != s[j]
  }

  ghost predicate OneNodeEach(s: seq<CacheObj>) {
    forall i, j {:trigger Pair(i, j)} :: Pair(i, j) && 0 <= i < j < |s| ==> s[i].diskAddr != s[j].diskAddr
  }

  lemma NodesApart(s: seq<CacheObj>)
    requires DistinctNodes(s)
    ensures forall i, j :: 0 <= i < j < |s| ==> s[i] != s[j]
  {
    forall i, j | 0 <= i < j < |s| ensures s[i] != s[j] {
      assert Pair(i, j);
    }
  }

  lemma NodesOfBlocksApart(s: seq<CacheObj>)
    requires OneNodeEach(s)
    ensures forall i, j :: 0 <= i < j < |s| ==> s[i].diskAddr != s[j].diskAddr
  {
    forall i, j | 0 <= i < j < |s| ensures s[i].diskAddr != s[j].diskAddr {
      assert Pair(i, j);
    }
  }

  lemma IndexedCut(lru: seq<CacheObj>, chains: seq<seq<CacheObj>>, i: nat, k: nat)
    requires IndexedBy(lru, chains) && i < |lru| && DistinctNodes(lru)
    requires k < |chains[Hash(lru[i].diskAddr)]| && chains[Hash(lru[i].diskAddr)][k] == lru[i]
    requires DistinctNodes(chains[Hash(lru[i].diskAddr)])
    requires forall h, j :: 0 <= h < |chains| && 0 <= j < |chains[h]| ==> Hash(chains[h][j].diskAddr) == h
    ensures var h := Hash(lru[i].diskAddr);
            IndexedBy(Cut(lru, i), chains[h := Cut(chains[h], k)])
  {
    var n := lru[i];
    var h := Hash(n.diskAddr);
    Indexed(lru, chains);
    NodesApart(lru);
    NodesApart(chains[h]);
    CutKeepsOthers(lru, i);
    CutKeepsOthers(chains[h], k);
    var lru', chains' := Cut(lru, i), chains[h := Cut(chains[h], k)];
    forall j | 0 <= j < |lru'| ensures lru'[j] in chains'[Hash(lru'[j].diskAddr)] {
      assert lru'[j] in lru && lru'[j] != n;
    }
    forall g, j | 0 <= g < |chains'| && 0 <= j < |chains'[g]| ensures chains'[g][j] in lru' {
      assert chains'[g][j] in chains[g] && chains'[g][j] != n;
    }
  }

  lemma IndexedAdd(lru: seq<CacheObj>, chains: seq<seq<CacheObj>>, n: CacheObj)
    requires IndexedBy(lru, chains)
    ensures var h := Hash(n.diskAddr);
            IndexedBy([n] + lru, chains[h := chains[h] + [n]])
  {
    var h := Hash(n.diskAddr);
    Indexed(lru, chains);
    var lru', chains' := [n] + lru, chains[h := chains[h] + [n]];
    forall j | 0 <= j < |lru'| ensures lru'[j] in chains'[Hash(lru'[j].diskAddr)] {
      if j > 0 { assert lru'[j] == lru[j - 1] && lru[j - 1] in lru; }
    }
    forall g, j | 0 <= g < |chains'| && 0 <= j < |chains'[g]| ensures chains'[g][j] in lru' {
      if !(g == h && j == |chains[h]|) { assert chains'[g][j] in chains[g]; }
    }
  }

  function Addrs(lru: seq<CacheObj>): seq<nat> {
    seq(|lru|, i requires 0 <= i < |lru| => lru[i].cacheAddr)
  }

  /** The residents' slots are different, from 2 up, and exactly the set bits of the slot map. */
  ghost predicate SlotsBy(lru: seq<CacheObj>, m: seq<bv8>) {
    && 8 * |m| == SLOTS && Distinct(Addrs(lru))
    && (forall i :: 0 <= i < |lru| ==> 2 <= lru[i].cacheAddr < SLOTS)
    && (forall k {:trigger Pair(k, k)} :: Pair(k, k) && 2 <= k < SLOTS ==> (Bit(m, k) <==> k in Addrs(lru)))
  }

  lemma NodePlaced(lru: seq<CacheObj>, chains: seq<seq<CacheObj>>, i: nat)
    requires IndexedBy(lru, chains) && i < |lru|
    ensures lru[i] in chains[Hash(lru[i].diskAddr)]
  {
    assert Pair(i, i);
  }

  lemma ChainListed(lru: seq<CacheObj>, chains: seq<seq<CacheObj>>, h: nat, k: nat)
    requires IndexedBy(lru, chains) && h < |chains| && k < |chains[h]|
    ensures chains[h][k] in lru
  {
    assert Pair(h, k);
  }

  lemma SlotsKnown(lru: seq<CacheObj>, m: seq<bv8>)
    requires SlotsBy(lru, m)
    ensures forall k :: 2 <= k < SLOTS ==> (Bit(m, k) <==> k in Addrs(lru))
  {
    forall k | 2 <= k < SLOTS ensures Bit(m, k) <==> k in Addrs(lru) {
      assert Pair(k, k);
    }
  }

  /** Replacing a node by one with its slot, in front. */
  lemma SlotsMoved(lru: seq<CacheObj>, m: seq<bv8>, i: nat, n: CacheObj)
    requires SlotsBy(lru, m) && i < |lru| && n.cacheAddr == lru[i].cacheAddr
    ensures SlotsBy([n] + Cut(lru, i), m)
  {
    var l := [n] + Cut(lru, i);
    var a, a' := Addrs(lru), Addrs(l);
    Apart(a);
    SlotsKnown(lru, m);
    forall j | 0 <= j < |l| ensures a'[j] == a[if j == 0 then i else if j <= i then j - 1 else j] {}
    forall x ensures x in a' <==> x in a {
      if j :| 0 <= j < |a| && a[j] == x {
        assert a'[if j < i then j + 1 else if j == i then 0 else j] == x;
      }
    }
  }

  lemma SlotsAdded(lru: seq<CacheObj>, m: seq<bv8>, m': seq<bv8>, n: CacheObj)
    requires SlotsBy(lru, m) && |m'| == |m| && Clear(m, n.cacheAddr)
    requires forall k :: 0 <= k < 8 * |m| ==> (Bit(m', k) <==> k == n.cacheAddr || Bit(m, k))
    ensures SlotsBy([n] + lru, m')
  {
    var l := [n] + lru;
    var a, a' := Addrs(lru), Addrs(l);
    Apart(a);
    SlotsKnown(lru, m);
    assert a' == [n.cacheAddr] + a;
  }

  lemma SlotsCut(lru: seq<CacheObj>, m: seq<bv8>, m': seq<bv8>, i: nat)
    requires SlotsBy(lru, m) && i < |lru| && |m'| == |m|
    requires forall k :: 0 <= k < 8 * |m| ==> (Bit(m', k) <==> k != lru[i].cacheAddr && Bit(m, k))
    ensures SlotsBy(Cut(lru, i), m')
  {
    var l := Cut(lru, i);
    var a, a' := Addrs(lru), Addrs(l);
    Apart(a);
    SlotsKnown(lru, m);
    assert a[i] == lru[i].cacheAddr;
    forall j | 0 <= j < |l| ensures a'[j] == a[if j < i then j else j + 1] {}
    forall x ensures x in a' <==> x != a[i] && x in a {
      if j :| 0 <= j < |a| && a[j] == x && j != i {
        assert a'[if j < i then j else j - 1] == x;
      }
    }
  }

  lemma SlotOf(lru: seq<CacheObj>, m: seq<bv8>, i: nat)
    requires SlotsBy(lru, m) && i < |lru|
    ensures 2 <= lru[i].cacheAddr < SLOTS == 8 * |m|
  {
  }

  /** A slot is clear unless the cache holds as many blocks as it has slots. */
  lemma SlotLeft(lru: seq<CacheObj>, m: seq<bv8>)
    requires SlotsBy(lru, m)
    ensures |lru| <= SLOTS - 2
    ensures (forall k :: !Clear(m, k)) ==> |lru| == SLOTS - 2
  {
    SlotsKnown(lru, m);
    AtMost(Addrs(lru), 2, SLOTS);
    if forall k :: !Clear(m, k) {
      forall k | 2 <= k < SLOTS ensures k in Addrs(lru) { assert !Clear(m, k); }
      Pigeonhole(Addrs(lru), 2, SLOTS);
    }
  }

  class BlockCache<T(0,!new)> {
    const table: array<CacheObj?>
    const cache: array<T>
    const disk: array<T>
    const slots: Bitmap
    var left: CacheObj?
    var right: CacheObj?
    var size: nat
    ghost var nodes: set<CacheObj>
    ghost var lru: seq<CacheObj>
    ghost var chains: seq<seq<CacheObj>>
    ghost var entries: seq<Entry<T>>

    /** The empty cache over a disk. */
    constructor (disk: array<T>)
      ensures Valid() && View() == Cache([], disk[..]) && this.disk == disk
      ensures fresh(table) && fresh(cache) && fresh(slots) && fresh(slots.bits) && nodes == {}
    {
      this.disk := disk;
      table := new CacheObj?[CACHE_HTSIZE](_ => null);
      cache := new T[SLOTS];
      slots := new Bitmap(SLOTS / 8);
      left, right, size := null, null, 0;
      nodes, lru, entries := {}, [], [];
      chains := seq(CACHE_HTSIZE, _ => []);
      new;
    }

    // ---- The LRU list ----

    /** The links spell `lru` from left to right, both ends are right, and `size` is its length. */
    ghost predicate LruOk()
      reads `left, `right, `size, `nodes, `lru, nodes`left, nodes`right
    {
      && size == |lru| && left == First(lru) && right == Last(lru)
      && (forall i :: 0 <= i < |lru| ==> lru[i] in nodes)
      && (forall i {:trigger lru[i].left} :: 0 <= i < |lru| ==> lru[i].left == At(lru, i - 1))
      && (forall i {:trigger lru[i].right} :: 0 <= i < |lru| ==> lru[i].right == At(lru, i + 1))
      && DistinctNodes(lru)
    }

    method AddAtTop(n: CacheObj)
      requires LruOk() && n in nodes && n !in lru
      modifies `left, `right, `size, `lru, nodes`left, nodes`right
      ensures LruOk() && lru == [n] + old(lru)
    {
      NodesApart(lru);
      n.right := left;
      n.left := null;
      if left != null {
        left.left := n;
      }
      left := n;
      if right == null {
        right := left;
      }
      size := size + 1;
      lru := [n] + lru;
    }

    /** The pointer writes of `remove_object_from_cache_*`, with `n` at position `i` of the list. */
    method RelinkAround(n: CacheObj, ghost i: nat)
      requires LruOk() && i < |lru| && lru[i] == n
      modifies `left, `right, nodes`left, nodes`right
      ensures forall k {:trigger lru[k].left} :: 0 <= k < |lru| && k != i ==>
                lru[k].left == if k == i + 1 then At(lru, i - 1) else At(lru, k - 1)
      ensures forall k {:trigger lru[k].right} :: 0 <= k < |lru| && k != i ==>
                lru[k].right == if k == i - 1 then At(lru, i + 1) else At(lru, k + 1)
      ensures left == if i == 0 then At(lru, 1) else lru[0]
      ensures right == if i == |lru| - 1 then At(lru, i - 1) else lru[|lru| - 1]
    {
      NodesApart(lru);
      if n.left != null {
        n.left.right := n.right;
      } else {
        left := n.right;
      }
      if n.right != null {
        n.right.left := n.left;
      } else {
        right := n.left;
      }
    }

    method Unlink(n: CacheObj, ghost i: nat)
      requires LruOk() && i < |lru| && lru[i] == n
      modifies `left, `right, `size, `lru, nodes`left, nodes`right
      ensures LruOk() && lru == Cut(old(lru), i)
    {
      RelinkAround(n, i);
      NodesApart(lru);
      CutLinks(lru, i);
      CutEnds(lru, i);
      size := size - 1;
      lru := Cut(lru, i);
    }

    // ---- The hash index ----

    ghost predicate ChainOk(h: nat)
      requires h < table.Length && h < |chains|
      reads `nodes, `chains, table, nodes`next
    {
      && table[h] == First(chains[h])
      && (forall i :: 0 <= i < |chains[h]| ==> chains[h][i] in nodes && Hash(chains[h][i].diskAddr) == h)
      && (forall i {:trigger chains[h][i].next} :: 0 <= i < |chains[h]| ==> chains[h][i].next == At(chains[h], i + 1))
      && OneNodeEach(chains[h])
    }

    ghost predicate ChainsOk()
      reads `nodes, `chains, table, nodes`next
    {
      && table.Length == CACHE_HTSIZE == |chains|
      && forall h :: 0 <= h < CACHE_HTSIZE ==> ChainOk(h)
    }

    /** `get_cache_obj`: the node of a block. */
    method GetCacheObj(block: nat) returns (n: CacheObj?, ghost k: nat)
      requires ChainsOk()
      ensures n == null ==> forall i :: 0 <= i < |chains[Hash(block)]| ==> chains[Hash(block)][i].diskAddr != block
      ensures n != null ==> k < |chains[Hash(block)]| && chains[Hash(block)][k] == n && n.diskAddr == block
    {
      var h := Hash(block);
      assert ChainOk(h);
      n := table[h];
      k := 0;
      while n != null
        invariant k <= |chains[h]| && n == At(chains[h], k)
        invariant forall i :: 0 <= i < k ==> chains[h][i].diskAddr != block
        decreases |chains[h]| - k
      {
        if n.diskAddr == block {
          return;
        }
        n := n.next;
        k := k + 1;
      }
    }

    /** `insert_block_in_cache_hash_table`: append to the block's chain. */
    method InsertInChain(n: CacheObj)
      requires ChainsOk() && n in nodes && n.next == null
      requires forall i :: 0 <= i < |chains[Hash(n.diskAddr)]| ==> chains[Hash(n.diskAddr)][i].diskAddr != n.diskAddr
      modifies `chains, table, nodes`next
      ensures ChainsOk()
      ensures chains == old(chains)[Hash(n.diskAddr) := old(chains)[Hash(n.diskAddr)] + [n]]
    {
      var h := Hash(n.diskAddr);
      assert ChainOk(h);
      NodesOfBlocksApart(chains[h]);
      var itr := table[h];
      var parent := itr;
      ghost var k := 0;
      while itr != null
        invariant k <= |chains[h]| && itr == At(chains[h], k)
        invariant parent == if k == 0 then First(chains[h]) else chains[h][k - 1]
        decreases |chains[h]| - k
      {
        parent := itr;
        itr := itr.next;
        k := k + 1;
      }
      if parent == null {
        table[h] := n;
      } else {
        parent.next := n;
      }
      chains := chains[h := chains[h] + [n]];
      forall g | 0 <= g < CACHE_HTSIZE && g != h ensures ChainOk(g) {
        assert old(ChainOk(g));
      }
    }

    /** The search loop of `remove_block_from_cache_hash_table`; `par` trails `itr`. */
    method FindWithParent(block: nat) returns (par: CacheObj?, itr: CacheObj?, ghost k: nat)
      requires ChainsOk()
      ensures k <= |chains[Hash(block)]| && itr == At(chains[Hash(block)], k)
      ensures par == if k == 0 then itr else chains[Hash(block)][k - 1]
      ensures itr != null ==> itr.diskAddr == block
      ensures itr == null ==> forall i :: 0 <= i < |chains[Hash(block)]| ==> chains[Hash(block)][i].diskAddr != block
    {
      var h := Hash(block);
      assert ChainOk(h);
      itr := table[h];
      par := itr;
      k := 0;
      while itr != null && itr.diskAddr != block
        invariant k <= |chains[h]| && itr == At(chains[h], k)
        invariant par == if k == 0 then itr else chains[h][k - 1]
        invariant forall i :: 0 <= i < k ==> chains[h][i].diskAddr != block
        decreases |chains[h]| - k
      {
        par := itr;
        itr := itr.next;
        k := k + 1;
      }
    }

    /** Record the new spelling of one chain, after the links were set. */
    ghost method SetChain(h: nat, c: seq<CacheObj>)
      requires h < CACHE_HTSIZE == table.Length == |chains|
      requires forall g :: 0 <= g < CACHE_HTSIZE && g != h ==> ChainOk(g)
      requires table[h] == First(c) && (forall i :: 0 <= i < |c| ==> c[i] in nodes && Hash(c[i].diskAddr) == h)
      requires forall i {:trigger c[i].next} :: 0 <= i < |c| ==> c[i].next == At(c, i + 1)
      requires OneNodeEach(c)
      modifies `chains
      ensures ChainsOk() && chains == old(chains)[h := c]
    {
      chains := chains[h := c];
      forall g | 0 <= g < CACHE_HTSIZE && g != h ensures ChainOk(g) {
        assert old(ChainOk(g));
      }
    }

    /**
      `remove_block_from_cache_hash_table` with repair (b): a match at the head leaves the rest of the chain
      in place.
     */
    method RemoveFromChain(block: nat) returns (ghost k: nat)
      requires ChainsOk() && exists i :: 0 <= i < |chains[Hash(block)]| && chains[Hash(block)][i].diskAddr == block
      modifies `chains, table, nodes`next
      ensures ChainsOk()
      ensures k < |old(chains)[Hash(block)]| && old(chains)[Hash(block)][k].diskAddr == block
      ensures chains == old(chains)[Hash(block) := Cut(old(chains)[Hash(block)], k)]
    {
      var h := Hash(block);
      var par, itr;
      par, itr, k := FindWithParent(block);
      assert ChainOk(h);
      NodesOfBlocksApart(chains[h]);
      assert itr.next == At(chains[h], k + 1);
      if par == itr {
        table[h] := itr.next;
      } else {
        par.next := itr.next;
      }
      forall g | 0 <= g < CACHE_HTSIZE && g != h ensures ChainOk(g) {
        assert old(ChainOk(g));
      }
      SetChain(h, Cut(chains[h], k));
    }

    /** The same as written: a match at the head empties the chain. */
    method RemoveFromChainAsWritten(block: nat) returns (ghost k: nat)
      requires ChainsOk() && exists i :: 0 <= i < |chains[Hash(block)]| && chains[Hash(block)][i].diskAddr == block
      modifies `chains, table, nodes`next
      ensures ChainsOk()
      ensures k < |old(chains)[Hash(block)]| && old(chains)[Hash(block)][k].diskAddr == block
      ensures chains == old(chains)[Hash(block) := if k == 0 then [] else Cut(old(chains)[Hash(block)], k)]
      // no other block of the chain is lost exactly when the block is not the head of others
      ensures (forall n :: n in old(chains)[Hash(block)] && n.diskAddr != block ==> n in chains[Hash(block)]) <==>
              old(chains)[Hash(block)][0].diskAddr != block || |old(chains)[Hash(block)]| == 1
    {
      var h := Hash(block);
      var par, itr;
      par, itr, k := FindWithParent(block);
      assert ChainOk(h);
      NodesOfBlocksApart(chains[h]);
      assert itr.next == At(chains[h], k + 1);
      ghost var c := chains[h];
      if par == itr {
        table[h] := null;
        forall g | 0 <= g < CACHE_HTSIZE && g != h ensures ChainOk(g) {
          assert old(ChainOk(g));
        }
        SetChain(h, []);
        assert |c| > 1 ==> c[1] in c && c[1].diskAddr != block;
      } else {
        par.next := itr.next;
        forall g | 0 <= g < CACHE_HTSIZE && g != h ensures ChainOk(g) {
          assert old(ChainOk(g));
        }
        SetChain(h, Cut(c, k));
        CutKeepsOthers(c, k);
      }
    }

    // ---- The whole cache ----

    /** What the nodes of a list and their slots hold. */
    ghost predicate Holds(l: seq<CacheObj>, e: seq<Entry<T>>)
      reads cache, l`dirty
    {
      && |e| == |l|
      && forall i :: 0 <= i < |l| ==>
           l[i].cacheAddr < cache.Length && e[i] == Entry(l[i].diskAddr, cache[l[i].cacheAddr], l[i].dirty)
    }

    lemma EntriesApart(l: seq<CacheObj>, e: seq<Entry<T>>)
      requires Holds(l, e) && DistinctBlocks(e)
      ensures OneNodeEach(l)
    {
      BlocksApart(e);
      forall i, j | 0 <= i < j < |l| ensures l[i].diskAddr != l[j].diskAddr {
        assert e[i].block != e[j].block;
      }
    }

    ghost function View(): Cache<T>
      reads `entries, disk
    {
      Cache(entries, disk[..])
    }

    ghost predicate Separate() {
      && cache != disk && table as object != cache && table as object != disk
      && slots.bits as object != cache && slots.bits as object != disk && slots.bits as object != table
      && cache.Length == SLOTS
    }

    ghost predicate Valid()
      reads this, table, cache, disk, slots, slots.bits, nodes
    {
      && Separate() && LruOk() && ChainsOk() && IndexedBy(lru, chains)
      && slots.Valid() && SlotsBy(lru, slots.bits[..])
      && Holds(lru, entries) && WellFormed(View())
    }

    /** A new node for a block that has none, in front and at the end of its chain. */
    method InsertNode(n: CacheObj)
      requires LruOk() && ChainsOk() && IndexedBy(lru, chains) && n !in nodes
      requires n.next == null && forall i :: 0 <= i < |lru| ==> lru[i].diskAddr != n.diskAddr
      modifies `left, `right, `size, `lru, `nodes, `chains, table, nodes`left, nodes`right, nodes`next, n`left,
               n`right, n`next
      ensures LruOk() && ChainsOk() && IndexedBy(lru, chains)
      ensures lru == [n] + old(lru) && nodes == old(nodes) + {n}
    {
      nodes := nodes + {n};
      forall h | 0 <= h < CACHE_HTSIZE ensures ChainOk(h) {
        assert old(ChainOk(h));
      }
      IndexedAdd(lru, chains, n);
      forall i | 0 <= i < |chains[Hash(n.diskAddr)]| ensures chains[Hash(n.diskAddr)][i].diskAddr != n.diskAddr {
        ChainListed(lru, chains, Hash(n.diskAddr), i);
      }
      AddAtTop(n);
      InsertInChain(n);
    }

    /** Take a resident node out of its chain and out of the list, in this order (repair (c)). */
    method RemoveNode(n: CacheObj, ghost i: nat)
      requires LruOk() && ChainsOk() && IndexedBy(lru, chains) && i < |lru| && lru[i] == n
      requires OneNodeEach(lru)
      modifies `left, `right, `size, `lru, `chains, table, nodes`left, nodes`right, nodes`next
      ensures LruOk() && ChainsOk() && IndexedBy(lru, chains)
      ensures lru == Cut(old(lru), i)
    {
      ghost var h := Hash(n.diskAddr);
      ghost var c: seq<seq<CacheObj>> := chains;
      forall g: nat, j: nat | g < |c| && j < |c[g]| ensures Hash(c[g][j].diskAddr) == g {
        assert ChainOk(g);
      }
      assert ChainOk(h);
      NodePlaced(lru, chains, i);
      var k := RemoveFromChain(n.diskAddr);
      assert c[h][k] == n by {
        NodesOfBlocksApart(lru);
        ChainListed(lru, c, h, k);
      }
      NodesOfBlocksApart(c[h]);
      assert DistinctNodes(c[h]);
      IndexedCut(lru, c, i, k);
      Unlink(n, i);
    }

    // ---- Hits ----

    /** The node of a resident block, and its place in the list. */
    method FindResident(block: nat) returns (n: CacheObj?, ghost i: nat)
      requires Valid()
      ensures n == null <==> !Resident(View(), block)
      ensures n != null ==> i < |lru| && lru[i] == n && n.diskAddr == block && i == Find(entries, block)
    {
      i := Find(entries, block);
      if i < |lru| {
        assert lru[i].diskAddr == entries[i].block;
        NodePlaced(lru, chains, i);
      }
      ghost var k;
      n, k := GetCacheObj(block);
      if n != null {
        ChainListed(lru, chains, Hash(block), k);
        i :| 0 <= i < |lru| && lru[i] == n;
        assert entries[i].block == block;
        FindAt(entries, i);
      }
    }

    /**
      The hit: a new node takes the old one's place, in front of the list, and keeps its slot and, with repair
      (a), its dirty flag.
     */
    method ReplaceNode(node: CacheObj, ghost i: nat) returns (n: CacheObj)
      requires LruOk() && ChainsOk() && IndexedBy(lru, chains) && i < |lru| && lru[i] == node && OneNodeEach(lru)
      modifies `left, `right, `size, `lru, `nodes, `chains, table, nodes`left, nodes`right, nodes`next
      ensures LruOk() && ChainsOk() && IndexedBy(lru, chains)
      ensures fresh(n) && lru == [n] + Cut(old(lru), i) && nodes == old(nodes) + {n}
      ensures n.diskAddr == node.diskAddr && n.cacheAddr == node.cacheAddr && n.dirty == node.dirty
    {
      NodesOfBlocksApart(lru);
      n := new CacheObj(node.diskAddr, node.cacheAddr);
      n.dirty := node.dirty;
      RemoveNode(node, i);
      InsertNode(n);
    }

    lemma HoldsMoved(l: seq<CacheObj>, e: seq<Entry<T>>, i: nat, n: CacheObj)
      requires Holds(l, e) && i < |l| && n.diskAddr == l[i].diskAddr && n.cacheAddr == l[i].cacheAddr
               && n.dirty == l[i].dirty
      ensures Holds([n] + Cut(l, i), [e[i]] + Cut(e, i))
    {
    }

    /** Record what the nodes and slots hold, after both were set. */
    ghost method SetEntries(e: seq<Entry<T>>)
      requires Separate() && LruOk() && ChainsOk() && IndexedBy(lru, chains)
      requires slots.Valid() && SlotsBy(lru, slots.bits[..])
      requires Holds(lru, e) && WellFormed(Cache(e, disk[..]))
      modifies `entries
      ensures Valid() && View() == Cache(e, disk[..])
    {
      entries := e;
    }

    method Hit(node: CacheObj, ghost i: nat) returns (n: CacheObj)
      requires Valid() && i < |lru| && lru[i] == node
      modifies this, table, nodes
      ensures Valid() && fresh(n) && nodes == old(nodes) + {n}
      ensures |old(entries)| == |old(lru)| && entries == [old(entries)[i]] + Cut(old(entries), i)
      ensures |lru| > 0 && n == lru[0] && n.diskAddr == node.diskAddr
    {
      ghost var l, e := lru, entries;
      MovedWellFormed(View(), i, e[i]);
      EntriesApart(l, e);
      n := ReplaceNode(node, i);
      SlotsMoved(l, slots.bits[..], i, n);
      HoldsMoved(l, e, i, n);
      SetEntries([e[i]] + Cut(e, i));
    }

    /** `retrieve_block_from_cache` */
    method Retrieve(block: nat) returns (n: CacheObj?, ghost i: nat)
      requires Valid()
      modifies this, table, nodes
      ensures Valid() && fresh(nodes - old(nodes))
      ensures n == null <==> !old(Resident(View(), block))
      ensures n == null ==> View() == old(View())
      ensures n != null ==> i == Find(old(View()).lru, block) && View() == ToFront(old(View()), i)
      ensures n != null ==> |lru| > 0 && n == lru[0] && n.diskAddr == block
    {
      var node;
      node, i := FindResident(block);
      if node == null {
        return null, i;
      }
      n := Hit(node, i);
    }

    method ReplaceInList(node: CacheObj, ghost i: nat) returns (n: CacheObj)
      requires LruOk() && ChainsOk() && i < |lru| && lru[i] == node
      modifies `left, `right, `size, `lru, `nodes, nodes`left, nodes`right
      ensures LruOk() && ChainsOk() && fresh(n) && n.diskAddr == node.diskAddr
      ensures lru == [n] + Cut(old(lru), i) && nodes == old(nodes) + {n} && node !in lru
    {
      NodesApart(lru);
      n := new CacheObj(node.diskAddr, node.cacheAddr);
      Unlink(node, i);
      nodes := nodes + {n};
      AddAtTop(n);
      forall h | 0 <= h < CACHE_HTSIZE ensures ChainOk(h) { assert old(ChainOk(h)); }
    }

    /**
      The hit without repair (c): the old node leaves the list and is discarded, its successor enters in
      front, and only then is the chain searched for the block to remove. At every hit the search stops at
      the discarded node, whose fields it reads.
     */
    method HitAsWritten(node: CacheObj, ghost i: nat) returns (n: CacheObj, itr: CacheObj?)
      requires Valid() && i < |lru| && lru[i] == node
      modifies `left, `right, `size, `lru, `nodes, nodes`left, nodes`right
      ensures LruOk() && fresh(n) && lru == [n] + Cut(old(lru), i)
      ensures n.diskAddr == node.diskAddr && node !in lru && itr == node
    {
      EntriesApart(lru, entries);
      NodesOfBlocksApart(lru);
      NodePlaced(lru, chains, i);
      n := ReplaceInList(node, i);
      var par;
      ghost var k;
      par, itr, k := FindWithParent(n.diskAddr);
      assert ChainOk(Hash(node.diskAddr));
      NodesOfBlocksApart(chains[Hash(node.diskAddr)]);
    }

    /**
      A removal without repair (b), of the block at the head of another's chain: the other stays in the list
      and is not found.
     */
    method LoseFromIndex(a: nat, b: nat) returns (n: CacheObj?)
      requires Valid() && Resident(View(), b) && Hash(a) == Hash(b) && a != b
      requires |chains[Hash(a)]| > 0 && chains[Hash(a)][0].diskAddr == a
      modifies `chains, table, nodes`next
      ensures n == null && lru == old(lru) && exists i :: 0 <= i < |lru| && lru[i].diskAddr == b
    {
      ghost var i := Find(entries, b);
      assert lru[i].diskAddr == entries[i].block == b;
      ghost var h, c := Hash(a), chains[Hash(a)];
      assert ChainOk(h);
      NodesOfBlocksApart(c);
      ghost var k := RemoveFromChainAsWritten(a);
      ghost var j;
      n, j := GetCacheObj(b);
    }

    // ---- Misses ----

    lemma HoldsCut(l: seq<CacheObj>, e: seq<Entry<T>>, i: nat)
      requires Holds(l, e) && i < |l|
      ensures Holds(Cut(l, i), Cut(e, i))
    {
    }

    /** `free_cache_id` on the last node's slot, and its write-back if it is dirty. */
    method WriteBack(node: CacheObj)
      requires Separate() && slots.Valid() && node.cacheAddr < SLOTS == 8 * slots.bits.Length
               && node.diskAddr < disk.Length
      modifies disk, slots.bits
      ensures forall k :: 0 <= k < SLOTS ==>
              (Bit(slots.bits[..], k) <==> k != node.cacheAddr && Bit(old(slots.bits[..]), k))
      ensures disk[..] == if node.dirty then old(disk[..])[node.diskAddr := cache[node.cacheAddr]] else old(disk[..])
    {
      slots.Free(node.cacheAddr);
      if node.dirty {
        disk[node.diskAddr] := cache[node.cacheAddr];
      }
    }

    /** The eviction of `insert_block_to_cache`: the last node leaves chain, slot map and list. */
    method EvictLast()
      requires Valid() && |lru| > 0
      modifies `left, `right, `size, `lru, `chains, `entries, table, disk, slots.bits, nodes`left, nodes`right,
               nodes`next
      ensures Valid() && View() == Evict(old(View())) && |lru| == |old(lru)| - 1
    {
      ghost var l, e, m := lru, entries, slots.bits[..];
      ghost var last := |l| - 1;
      EvictKeeps(View());
      EntriesApart(l, e);
      SlotOf(l, m, last);
      var node := right;
      WriteBack(node);
      RemoveNode(node, last);
      SlotsCut(l, m, slots.bits[..], last);
      HoldsCut(l, e, last);
      EvictWithout(old(View()));
      SetEntries(Cut(e, last));
    }

    lemma HoldsAdded(l: seq<CacheObj>, e: seq<Entry<T>>, n: CacheObj, x: T)
      requires Holds(l, e) && n.cacheAddr < cache.Length && cache[n.cacheAddr] == x
      ensures Holds([n] + l, [Entry(n.diskAddr, x, n.dirty)] + e)
    {
    }

    /** `get_block_for_cache` and the copy into the slot; with repair (d) there is a free one. */
    method TakeSlot(data: T) returns (c: nat)
      requires Separate() && slots.Valid() && SlotsBy(lru, slots.bits[..]) && |lru| < SLOTS - 2 && Holds(lru, entries)
      modifies cache, slots, slots.bits
      ensures slots.Valid() && Clear(old(slots.bits[..]), c) && cache[c] == data && Holds(lru, entries)
      ensures forall k :: 0 <= k < SLOTS ==> (Bit(slots.bits[..], k) <==> k == c || Bit(old(slots.bits[..]), k))
    {
      SlotLeft(lru, slots.bits[..]);
      c := slots.Alloc();
      SlotsKnown(lru, old(slots.bits[..]));
      forall i | 0 <= i < |lru| ensures lru[i].cacheAddr != c {
        assert Addrs(lru)[i] == lru[i].cacheAddr;
      }
      cache[c] := data;
    }

    method NewNode(block: nat, c: nat, dirty: bool) returns (n: CacheObj)
      requires LruOk() && ChainsOk() && IndexedBy(lru, chains)
      requires forall i :: 0 <= i < |lru| ==> lru[i].diskAddr != block
      modifies `left, `right, `size, `lru, `nodes, `chains, table, nodes`left, nodes`right, nodes`next
      ensures LruOk() && ChainsOk() && IndexedBy(lru, chains)
      ensures fresh(n) && lru == [n] + old(lru) && nodes == old(nodes) + {n}
      ensures n.diskAddr == block && n.cacheAddr == c && n.dirty == dirty
    {
      n := new CacheObj(block, c);
      n.dirty := dirty;
      InsertNode(n);
    }

    /** The node for a slot just taken and filled; `m` is the slot map before. */
    method AddEntry(block: nat, c: nat, dirty: bool, ghost data: T, ghost m: seq<bv8>)
      requires Separate() && LruOk() && ChainsOk() && IndexedBy(lru, chains) && slots.Valid()
      requires Holds(lru, entries) && WellFormed(View()) && !Resident(View(), block)
      requires block < disk.Length && (!dirty ==> data == disk[block])
      requires SlotsBy(lru, m) && Clear(m, c) && cache[c] == data && |m| == slots.bits.Length
      requires forall k :: 0 <= k < SLOTS ==> (Bit(slots.bits[..], k) <==> k == c || Bit(m, k))
      modifies `left, `right, `size, `lru, `nodes, `chains, `entries, table, nodes`left, nodes`right, nodes`next
      ensures Valid() && fresh(nodes - old(nodes))
      ensures entries == [Entry(block, data, dirty)] + old(entries)
    {
      ghost var l, e := lru, entries;
      forall i | 0 <= i < |l| ensures l[i].diskAddr != block {
        assert e[i].block == l[i].diskAddr;
      }
      AddInFront(View(), Entry(block, data, dirty));
      var n := NewNode(block, c, dirty);
      SlotsAdded(l, m, slots.bits[..], n);
      HoldsAdded(l, e, n, data);
      SetEntries([Entry(block, data, dirty)] + e);
    }

    /** The rest of a miss: take a slot, fill it, and put a node for it in front. */
    method InsertEntry(block: nat, data: T, dirty: bool)
      requires Valid() && block < disk.Length && !Resident(View(), block) && |lru| < SLOTS - 2
      requires !dirty ==> data == disk[block]
      modifies this, table, cache, slots, slots.bits, nodes
      ensures Valid() && fresh(nodes - old(nodes))
      ensures View() == old(View()).(lru := [Entry(block, data, dirty)] + old(entries))
    {
      ghost var m := slots.bits[..];
      var c := TakeSlot(data);
      AddEntry(block, c, dirty, data, m);
    }

    /** `write_block` on a block the cache does not hold. */
    method WriteAround(block: nat, data: T)
      requires Valid() && block < disk.Length && !Resident(View(), block)
      modifies disk
      ensures Valid() && View() == old(View()).(disk := old(View()).disk[block := data])
    {
      disk[block] := data;
      assert forall i :: 0 <= i < |entries| ==> entries[i].block != block;
    }

    // ---- read_block_modified, write_block_modified, obj_sync ----

    /**
      Evict the last block if the cache is full; block `b`, which is not resident, stays so, and the disk
      holds its contents.
     */
    method EnsureRoom(ghost b: nat)
      requires Valid() && b < disk.Length && !Resident(View(), b)
      modifies `left, `right, `size, `lru, `chains, `entries, table, disk, slots.bits, nodes`left, nodes`right,
               nodes`next
      ensures Valid() && View() == MakeRoom(old(View()), SLOTS - 2) && |lru| < SLOTS - 2
      ensures !Resident(View(), b) && disk[b] == old(disk[b])
    {
      SlotLeft(lru, slots.bits[..]);
      if size >= SLOTS - 2 {
        FoundInPrefix(entries, |entries| - 1, b);
        EvictKeeps(View());
        assert Contents(Evict(View()), b) == disk[b];
        EvictLast();
      }
    }

    /** A miss, with room made before the slot is taken (repair (d)): at 32766 residents every slot is in use. */
    method Miss(block: nat, data: T, dirty: bool)
      requires Valid() && block < disk.Length && !Resident(View(), block)
      requires !dirty ==> data == disk[block]
      modifies this, table, cache, disk, slots, slots.bits, nodes
      ensures Valid() && fresh(nodes - old(nodes))
      ensures View() == var r := MakeRoom(old(View()), SLOTS - 2); r.(lru := [Entry(block, data, dirty)] + r.lru)
    {
      EnsureRoom(block);
      InsertEntry(block, data, dirty);
    }

    method Read(block: nat) returns (data: T)
      requires Valid() && block < disk.Length
      modifies this, table, cache, disk, slots, slots.bits, nodes
      ensures Valid() && fresh(nodes - old(nodes))
      ensures View() == ReadStep(old(View()), block, SLOTS - 2)
      ensures data == Contents(old(View()), block)
    {
      var n, i := Retrieve(block);
      if n == null {
        data := disk[block];
        Miss(block, data, false);
      } else {
        data := cache[n.cacheAddr];
      }
    }

    /** The block at the front gets new contents and is dirty. */
    method Overwrite(n: CacheObj, data: T)
      requires Valid() && |lru| > 0 && n == lru[0]
      modifies `entries, cache, n`dirty
      ensures Valid() && |old(View()).lru| > 0
      ensures View() == InFront(old(View()), Entry(n.diskAddr, data, true))
    {
      ghost var e := entries;
      Apart(Addrs(lru));
      forall i | 0 < i < |lru| ensures lru[i].cacheAddr != n.cacheAddr {
        assert Addrs(lru)[i] != Addrs(lru)[0];
      }
      NodesApart(lru);
      BlocksApart(e);
      SlotOf(lru, slots.bits[..], 0);
      cache[n.cacheAddr] := data;
      n.dirty := true;
      entries := entries[0 := Entry(n.diskAddr, data, true)];
      assert Holds(lru, entries);
    }

    /** The write to the block that a hit has just brought to the front of what was `v`. */
    method Rewrite(n: CacheObj, data: T, ghost v: Cache<T>)
      requires Valid() && |lru| > 0 && n == lru[0] && n.diskAddr < disk.Length
      requires WellFormed(v) && Resident(v, n.diskAddr) && View() == ToFront(v, Find(v.lru, n.diskAddr))
      modifies `entries, cache, n`dirty
      ensures Valid() && View() == WriteStep(v, n.diskAddr, data, SLOTS - 2)
    {
      WriteHit(v, n.diskAddr, data, SLOTS - 2, Find(v.lru, n.diskAddr));
      Overwrite(n, data);
    }

    /** The rest of a write, after the block was looked for in what was `v`. */
    method Finish(n: CacheObj?, block: nat, data: T, ghost v: Cache<T>)
      requires Valid() && WellFormed(v) && block < disk.Length == |v.disk| && (n == null <==> !Resident(v, block))
      requires n == null ==> View() == v
      requires n != null ==> |lru| > 0 && n == lru[0] && n.diskAddr == block && View() == ToFront(v, Find(v.lru, block))
      modifies this, table, cache, disk, slots, slots.bits, nodes
      ensures Valid() && fresh(nodes - old(nodes))
      ensures View() == WriteStep(v, block, data, SLOTS - 2)
    {
      if n == null {
        Miss(block, data, true);
      } else {
        Rewrite(n, data, v);
      }
    }

    method Write(block: nat, data: T)
      requires Valid() && block < disk.Length
      modifies this, table, cache, disk, slots, slots.bits, nodes
      ensures Valid() && fresh(nodes - old(nodes))
      ensures View() == WriteStep(old(View()), block, data, SLOTS - 2)
    {
      ghost var v := View();
      var n, _ := Retrieve(block);
      Finish(n, block, data, v);
    }

    /** The disk on its way from `was` to what `obj_sync` leaves: every block is as before or done. */
    ghost predicate Syncing(was: seq<T>)
      reads `entries, disk
    {
      && |was| == disk.Length && WellFormed(Cache(entries, was))
      && forall b :: 0 <= b < disk.Length ==> disk[b] == was[b] || disk[b] == Flushed(entries, was)[b]
    }

    ghost predicate Done(was: seq<T>, b: nat)
      reads `entries, disk
    {
      |was| == disk.Length && b < disk.Length && disk[b] == Flushed(entries, was)[b]
    }

    /** What the disk is to hold for a resident block. */
    lemma Target(was: seq<T>, n: CacheObj)
      requires Holds(lru, entries) && Syncing(was) && n in lru
      ensures n.diskAddr < disk.Length && n.cacheAddr < cache.Length
      ensures Flushed(entries, was)[n.diskAddr] == if n.dirty then cache[n.cacheAddr] else was[n.diskAddr]
    {
      var i :| 0 <= i < |lru| && lru[i] == n;
      assert entries[i].block == n.diskAddr;
      FindAt(entries, i);
      FlushedAt(entries, was, n.diskAddr);
    }

    method SyncNode(n: CacheObj, ghost was: seq<T>)
      requires Separate() && Holds(lru, entries) && Syncing(was) && n in lru
      modifies disk
      ensures Syncing(was) && Done(was, n.diskAddr)
      ensures forall b {:trigger Done(was, b)} :: old(Done(was, b)) ==> Done(was, b)
    {
      Target(was, n);
      if n.dirty {
        disk[n.diskAddr] := cache[n.cacheAddr];
      }
    }

    /** The inner loop of `obj_sync`. */
    method SyncChain(h: nat, ghost was: seq<T>)
      requires Separate() && ChainsOk() && IndexedBy(lru, chains) && Holds(lru, entries) && Syncing(was)
               && h < CACHE_HTSIZE
      modifies disk
      ensures Syncing(was) && forall n :: n in chains[h] ==> Done(was, n.diskAddr)
      ensures forall b {:trigger Done(was, b)} :: old(Done(was, b)) ==> Done(was, b)
    {
      assert ChainOk(h);
      var itr := table[h];
      ghost var k := 0;
      while itr != null
        invariant k <= |chains[h]| && itr == At(chains[h], k)
        invariant Syncing(was) && forall i :: 0 <= i < k ==> Done(was, chains[h][i].diskAddr)
        invariant forall b {:trigger Done(was, b)} :: old(Done(was, b)) ==> Done(was, b)
        decreases |chains[h]| - k
      {
        ChainListed(lru, chains, h, k);
        SyncNode(itr, was);
        itr := itr.next;
        k := k + 1;
      }
    }

    lemma AllDone(was: seq<T>)
      requires IndexedBy(lru, chains) && Holds(lru, entries) && Syncing(was)
      requires forall h: nat :: h < CACHE_HTSIZE ==> forall n :: n in chains[h] ==> Done(was, n.diskAddr)
      ensures disk[..] == Flushed(entries, was)
    {
      Indexed(lru, chains);
      forall b | 0 <= b < disk.Length ensures disk[b] == Flushed(entries, was)[b] {
        FlushedAt(entries, was, b);
        var i := Find(entries, b);
        if i < |entries| {
          assert lru[i] in lru && lru[i].diskAddr == b;
        }
      }
    }

    /** `obj_sync` */
    method Sync()
      requires Valid()
      modifies disk
      ensures Valid() && View() == SyncStep(old(View()))
    {
      ghost var was := disk[..];
      SyncFlushes(View());
      for h := 0 to CACHE_HTSIZE
        invariant Syncing(was) && Holds(lru, entries)
        invariant forall g: nat :: g < h ==> forall n :: n in chains[g] ==> Done(was, n.diskAddr)
      {
        SyncChain(h, was);
      }
      AllDone(was);
    }

    method ServeOne(op: CacheSpec.Op<T>) returns (x: T)
      requires Valid() && (op.Sync? || op.block < disk.Length)
      modifies this, table, cache, disk, slots, slots.bits, nodes
      ensures Valid() && fresh(nodes - old(nodes))
      ensures View() == Apply(old(View()), op, SLOTS - 2)
      ensures op.Read? ==> x == Contents(old(View()), op.block)
    {
      x := *;
      match op
      case Read(b) => x := Read(b);
      case Write(b, y) => Write(b, y);
      case Sync => Sync();
    }

    /** Any run of reads, writes and syncs on a cache that starts empty: each read answers the last value written. */
    method Serve(ops: seq<CacheSpec.Op<T>>) returns (answers: seq<T>)
      requires Valid() && View().lru == [] && InRange(ops, disk.Length)
      modifies this, table, cache, disk, slots, slots.bits, nodes
      ensures Valid() && View() == After(old(disk[..]), ops, SLOTS - 2)
      ensures Answered(old(disk[..]), ops, answers, |ops|)
    {
      ghost var d := disk[..];
      answers := [];
      for i := 0 to |ops|
        invariant Valid() && fresh(nodes - old(nodes)) && View() == After(d, ops[..i], SLOTS - 2)
        invariant Answered(d, ops, answers, i)
      {
        var x := ServeOne(ops[i]);
        OneMore(d, ops, i, SLOTS - 2, answers, x);
        answers := answers + [x];
      }
      assert ops[..|ops|] == ops;
    }
  }

  lemma TwoWrites<T>(disk: seq<T>, x: T, y: T)
    requires |disk| > CACHE_HTSIZE
    ensures var c1 := WriteStep(Cache([], disk), 0, x, SLOTS - 2);
            WellFormed(c1) &&
            WriteStep(c1, CACHE_HTSIZE, y, SLOTS - 2) ==
            Cache([Entry(CACHE_HTSIZE, y, true), Entry(0, x, true)], disk)
  {
  }

  method TwoInAChain<T(0,!new)>(disk: array<T>, x: T, y: T) returns (c: BlockCache<T>)
    requires disk.Length > CACHE_HTSIZE
    modifies disk
    ensures c.Valid() && c.disk == disk && fresh(c) && fresh(c.table) && fresh(c.nodes)
    ensures c.View() == Cache([Entry(CACHE_HTSIZE, y, true), Entry(0, x, true)], old(disk[..]))
  {
    TwoWrites(disk[..], x, y);
    c := new BlockCache(disk);
    c.Write(0, x);
    c.Write(CACHE_HTSIZE, y);
  }

  /**
    Such a cache is reached by writing two blocks that share a chain: after the removal of the one at its head the
    other, dirty and not yet on the disk, is in the list and not in the index.
   */
  method LoseWrittenBlock<T(0,!new)>(disk: array<T>, x: T, y: T) returns (c: BlockCache<T>, b: nat, n: CacheObj?)
    requires disk.Length > CACHE_HTSIZE
    modifies disk
    ensures n == null && disk[..] == old(disk[..]) && c.View().disk == disk[..]
    ensures b in {0, CACHE_HTSIZE} && Find(c.View().lru, b) < 2 == |c.View().lru|
    ensures c.View().lru[Find(c.View().lru, b)] == Entry(b, if b == 0 then x else y, true)
    ensures exists i :: 0 <= i < |c.lru| && c.lru[i].diskAddr == b
  {
    c := TwoInAChain(disk, x, y);
    ghost var e := c.entries;
    assert c.lru[0].diskAddr == e[0].block && c.lru[1].diskAddr == e[1].block;
    NodePlaced(c.lru, c.chains, 0);
    assert c.ChainOk(0);
    ChainListed(c.lru, c.chains, 0, 0);
    var a := c.table[0].diskAddr;
    b := if a == 0 then CACHE_HTSIZE else 0;
    n := c.LoseFromIndex(a, b);
  }
}
