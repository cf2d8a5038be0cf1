/**
  The page-table format that the address-space code writes and the processor reads
  (Intel SDM Vol. 3A, sections 4.5 and 4.6), and the theory of the tree it forms.

  Physical memory is a sequence of 64-bit words, 512 to a frame, so the word that
  `*(osmap(pfn) + index)` names is word `512 * pfn + index`.
 */
module Paging {
  import opened Common

  const ENTRIES: nat := 512
  const PAGE: nat := 4096
  const U32: nat := 0x1_0000_0000
  const MAX_FRAMES: nat := 0x10_0000

  const PR: nat := 1
  const RW: nat := 2
  const US: nat := 4

  // ---- Page-table entries ----

  /** `(pfn << 12) | flags`. The shift is done on a `u32`, so bits above 31 are lost. */
  function Encode(pfn: nat, flags: nat): nat
    requires flags < 8
  {
    pfn * PAGE % U32 + flags
  }

  predicate Present(e: nat) { e % 2 == 1 }

  predicate Writable(e: nat) { e / 2 % 2 == 1 }

  predicate User(e: nat) { e / 4 % 2 == 1 }

  /** `entry >> 12`, held in a `u32`. */
  function Frame(e: nat): nat { e / PAGE % U32 }

  /** `entry & ~1`. */
  function ClearPresent(e: nat): nat { e - e % 2 }

  lemma Scale(d: nat, t: int)
    ensures t >= 1 ==> d * t >= d
    ensures t <= -1 ==> d * t + d <= 0
  {
    if t >= 1 { assert d * t == d + d * (t - 1); }
    if t <= -1 { assert d * t + d == d * (t + 1); }
  }

  lemma QuotientUnique(a: nat, d: nat, q: nat, r: nat)
    requires d > 0 && a == d * q + r && r < d
    ensures a / d == q && a % d == r
  {
    assert d * (a / d - q) == r - a % d;
    Scale(d, a / d - q);
  }

  lemma EncodeLow(pfn: nat)
    ensures pfn * PAGE % U32 == PAGE * (pfn % MAX_FRAMES)
  {
    QuotientUnique(pfn * PAGE, U32, pfn / MAX_FRAMES, PAGE * (pfn % MAX_FRAMES));
  }

  /** What is encoded is decoded exactly when the frame number survives the 32-bit shift. */
  lemma EncodeDecode(pfn: nat, flags: nat)
    requires flags < 8
    ensures Frame(Encode(pfn, flags)) == pfn <==> pfn < MAX_FRAMES
    ensures Encode(pfn, flags) % 8 == flags
    ensures pfn < MAX_FRAMES ==> Encode(pfn, flags) == 4096 * pfn + flags
    // bit 0 is the present bit, bit 1 the write bit and bit 2 the user bit
    ensures Present(flags) == (flags % 2 == 1) && Writable(flags) == (flags / 2 % 2 == 1)
    ensures User(flags) == (flags / 4 % 2 == 1)
    ensures Present(Encode(pfn, flags)) == Present(flags)
    ensures Writable(Encode(pfn, flags)) == Writable(flags)
    ensures User(Encode(pfn, flags)) == User(flags)
  {
    EncodeLow(pfn);
    var e, low := Encode(pfn, flags), pfn % MAX_FRAMES;
    QuotientUnique(e, PAGE, low, flags);
    QuotientUnique(e, 8, 512 * low, flags);
    QuotientUnique(e, 2, 2048 * low + flags / 2, flags % 2);
    QuotientUnique(2048 * low + flags / 2, 2, 1024 * low + flags / 4, flags / 2 % 2);
    QuotientUnique(e, 4, 1024 * low + flags / 4, flags % 4);
    QuotientUnique(1024 * low + flags / 4, 2, 512 * low, flags / 4);
  }

  /** Clearing bit 0 leaves the stale frame number behind, in an entry that is not present. */
  lemma ClearedEntry(e: nat)
    ensures !Present(ClearPresent(e))
    ensures Frame(ClearPresent(e)) == Frame(e)
  {
    assert ClearPresent(e) / PAGE == e / PAGE;
  }

  // ---- Addresses ----

  type Path = seq<nat>

  const PAGES: nat := 0x10_0000_0000

  /** The low `k` base-512 digits of `n`, most significant first. */
  function Digits(n: nat, k: nat): (x: Path)
    ensures |x| == k && forall i :: 0 <= i < k ==> x[i] < ENTRIES
  {
    if k == 0 then [] else Digits(n / ENTRIES, k - 1) + [n % ENTRIES]
  }

  function Span(k: nat): (n: nat)
    ensures n > 0
  {
    if k == 0 then 1 else ENTRIES * Span(k - 1)
  }

  /** The indices of a page number, level 4 first. */
  function PagePath(page: nat): Path { Digits(page, 4) }

  /** The page number the processor uses for an address: bits 12 to 47. */
  function PageOf(address: nat): nat { address / PAGE % PAGES }

  /** The indices of an address. */
  function Indices(address: nat): Path { Digits(address / PAGE, 4) }

  lemma FourDigits(q: nat)
    ensures Digits(q, 4) == [q / ENTRIES / ENTRIES / ENTRIES % ENTRIES, q / ENTRIES / ENTRIES % ENTRIES,
                             q / ENTRIES % ENTRIES, q % ENTRIES]
  {
    var q1, q2 := q / ENTRIES, q / ENTRIES / ENTRIES;
    assert Digits(q2, 2) == [q2 / ENTRIES % ENTRIES, q2 % ENTRIES];
    assert Digits(q1, 3) == Digits(q2, 2) + [q1 % ENTRIES];
    assert Digits(q, 4) == Digits(q1, 3) + [q % ENTRIES];
  }

  lemma Regroup(b: nat, c: nat, q: nat, r: nat)
    ensures b * (c * q + r) == (b * c) * q + b * r
  {
  }

  lemma Below(b: nat, c: nat, r: nat, s: nat)
    requires r < c && s < b
    ensures 0 <= b * r && b * r + s < b * c
  {
    Scale(b, c - r);
    assert b * c == b * r + b * (c - r);
  }

  lemma DivDivParts(a: nat, b: nat, c: nat, q1: nat, s: nat, q: nat, r: nat)
    requires a == b * q1 + s && s < b && q1 == c * q + r && r < c
    ensures 0 <= b * r && a == (b * c) * q + (b * r + s) && b * r + s < b * c
  {
    Regroup(b, c, q, r);
    Below(b, c, r, s);
  }

  lemma DivDiv(a: nat, b: nat, c: nat)
    requires b > 0 && c > 0
    ensures b * c > 0 && a / b / c == a / (b * c)
  {
    var q1 := a / b;
    DivDivParts(a, b, c, q1, a % b, q1 / c, q1 % c);
    QuotientUnique(a, b * c, q1 / c, b * (q1 % c) + a % b);
  }

  lemma Split(n: nat, b: nat, c: nat)
    requires b > 0 && c > 0
    ensures b * c > 0 && n % (b * c) == b * (n / b % c) + n % b
  {
    DivDivParts(n, b, c, n / b, n % b, n / b / c, n / b % c);
    QuotientUnique(n, b * c, n / b / c, b * (n / b % c) + n % b);
  }

  /** Put together again, the four fields of an address and its offset in the page are its low 48 bits. */
  lemma Recomposed(address: nat)
    ensures 0x80_0000_0000 * (address / 0x80_0000_0000 % 512) + 0x4000_0000 * (address / 0x4000_0000 % 512)
            + 0x20_0000 * (address / 0x20_0000 % 512) + 0x1000 * (address / 0x1000 % 512) + address % 0x1000
            == address % 0x1_0000_0000_0000
  {
    Split(address, 0x1000, 512);
    Split(address, 0x20_0000, 512);
    Split(address, 0x4000_0000, 512);
    Split(address, 0x80_0000_0000, 512);
  }

  /** The four extractions `0x1FF & (address >> shift)` of the source are the digits of the page number. */
  method ExtractOffsets(address: nat) returns (x: Path)
    ensures x == Indices(address)
    // level 4 first, nine bits a level, and nothing lost but the bits above 47
    ensures |x| == 4 && 0x80_0000_0000 * x[0] + 0x4000_0000 * x[1] + 0x20_0000 * x[2] + 0x1000 * x[3]
                        + address % 0x1000 == address % 0x1_0000_0000_0000
    ensures forall i :: 0 <= i < 4 ==> x[i] < 512
  {
    var offsetL4 := address / 0x80_0000_0000 % ENTRIES;
    var offsetL3 := address / 0x4000_0000 % ENTRIES;
    var offsetL2 := address / 0x20_0000 % ENTRIES;
    var offsetL1 := address / 0x1000 % ENTRIES;
    FourDigits(address / PAGE);
    DivDiv(address, PAGE, ENTRIES);
    DivDiv(address, 0x20_0000, ENTRIES);
    DivDiv(address, 0x4000_0000, ENTRIES);
    Recomposed(address);
    x := [offsetL4, offsetL3, offsetL2, offsetL1];
  }

  lemma SnocInjective(p: Path, a: nat, q: Path, b: nat)
    ensures p + [a] == q + [b] <==> p == q && a == b
  {
    if p + [a] == q + [b] {
      assert (p + [a])[..|p|] == p && (q + [b])[..|q|] == q;
      assert (p + [a])[|p|] == a && (q + [b])[|q|] == b;
    }
  }

  /** Different numbers below 512^k have different digits. */
  lemma {:induction false} DigitsInjective(p: nat, q: nat, k: nat)
    requires p < Span(k) && q < Span(k) && Digits(p, k) == Digits(q, k)
    ensures p == q
  {
    if k > 0 {
      SnocInjective(Digits(p / ENTRIES, k - 1), p % ENTRIES, Digits(q / ENTRIES, k - 1), q % ENTRIES);
      assert p / ENTRIES < Span(k - 1) && q / ENTRIES < Span(k - 1);
      DigitsInjective(p / ENTRIES, q / ENTRIES, k - 1);
    }
  }

  lemma LowSplit(n: nat, k: nat)
    requires k > 0
    ensures n % Span(k) % ENTRIES == n % ENTRIES && n % Span(k) / ENTRIES == n / ENTRIES % Span(k - 1)
  {
    var s, h := Span(k - 1), n / ENTRIES;
    var low := ENTRIES * (h % s) + n % ENTRIES;
    assert n == Span(k) * (h / s) + low by { Regroup(ENTRIES, s, h / s, h % s); }
    assert low < Span(k) by { Below(ENTRIES, s, h % s, n % ENTRIES); }
    QuotientUnique(n, Span(k), h / s, low);
    QuotientUnique(low, ENTRIES, h % s, n % ENTRIES);
  }

  /** Bits above the digits do not show in them. */
  lemma {:induction false} DigitsLow(n: nat, k: nat)
    ensures Digits(n % Span(k), k) == Digits(n, k)
  {
    if k > 0 {
      LowSplit(n, k);
      DigitsLow(n / ENTRIES, k - 1);
    }
  }

  /** Different pages below 2^48 use different index quadruples. */
  lemma PagePathInjective(p: nat, q: nat)
    requires p < PAGES && q < PAGES && PagePath(p) == PagePath(q)
    ensures p == q
  {
    assert Span(4) == PAGES by { assert Span(2) == 0x4_0000; }
    DigitsInjective(p, q, 4);
  }

  lemma IndicesArePagePath(address: nat)
    ensures Indices(address) == PagePath(PageOf(address))
  {
    assert Span(4) == PAGES by { assert Span(2) == 0x4_0000; }
    DigitsLow(address / PAGE, 4);
  }

  // ---- The walk ----

  datatype Hit = Hit(frame: nat, write: bool, user: bool)

  function Word(m: seq<nat>, frame: nat, index: nat): nat {
    if ENTRIES * frame + index < |m| then m[ENTRIES * frame + index] else 0
  }

  function Follow(h: Hit, e: nat): Option<Hit> {
    if Present(e) then Some(Hit(Frame(e), h.write && Writable(e), h.user && User(e))) else None
  }

  /** Follow a path of indices from the root. The access rights are the AND over the levels passed. */
  function Walk(m: seq<nat>, root: nat, path: Path): Option<Hit>
    decreases |path|
  {
    if |path| == 0 then Some(Hit(root, true, true))
    else
      match Walk(m, root, path[..|path| - 1])
      case None => None
      case Some(h) => Follow(h, Word(m, h.frame, path[|path| - 1]))
  }

  function Translate(m: seq<nat>, root: nat, page: nat): Option<Hit> {
    Walk(m, root, PagePath(page))
  }

  // ---- The tree ----

  /** Every present entry of a table names an owned frame, one index further down. */
  ghost predicate Linked(m: seq<nat>, owner: map<nat, Path>) {
    forall f, i: nat :: f in owner && |owner[f]| < 4 && i < ENTRIES && Present(Word(m, f, i)) ==>
      Frame(Word(m, f, i)) in owner && owner[Frame(Word(m, f, i))] == owner[f] + [i]
  }

  ghost predicate Leads(m: seq<nat>, root: nat, path: Path, frame: nat) {
    Walk(m, root, path).Some? && Walk(m, root, path).value.frame == frame
  }

  predicate Bounded(path: Path) {
    |path| <= 4 && forall i :: 0 <= i < |path| ==> path[i] < ENTRIES
  }

  /** `owner` gives every frame in use its one path: tables have paths shorter than 4, leaves paths of length 4. */
  ghost predicate Owns(m: seq<nat>, root: nat, owner: map<nat, Path>) {
    && root in owner && owner[root] == []
    && (forall f :: f in owner ==> Bounded(owner[f]))
    && (forall f :: f in owner && |owner[f]| < 4 ==> ENTRIES * f + ENTRIES <= |m|)
    && Linked(m, owner)
    && (forall f {:trigger Leads(m, root, owner[f], f)} :: f in owner ==> Leads(m, root, owner[f], f))
  }

  /** The paths that statements over all walks speak of, under a name that only they mention. */
  predicate Asked(path: Path) { Bounded(path) }

  /** A walk that succeeds ends in an owned frame, at that frame's own path. */
  lemma {:induction false} WalkOwned(m: seq<nat>, root: nat, owner: map<nat, Path>, path: Path)
    requires Owns(m, root, owner) && Bounded(path) && Walk(m, root, path).Some?
    ensures Walk(m, root, path).value.frame in owner
    ensures owner[Walk(m, root, path).value.frame] == path
    decreases |path|
  {
    if |path| > 0 {
      var q := path[..|path| - 1];
      WalkOwned(m, root, owner, q);
      assert path == q + [path[|path| - 1]];
    }
  }

  /** Tree: no frame, table or leaf, is reached by two different paths. */
  lemma NoSharing(m: seq<nat>, root: nat, owner: map<nat, Path>, p: Path, q: Path)
    requires Owns(m, root, owner) && Bounded(p) && Bounded(q)
    requires Walk(m, root, p).Some? && Walk(m, root, q).Some?
    requires Walk(m, root, p).value.frame == Walk(m, root, q).value.frame
    ensures p == q
  {
    WalkOwned(m, root, owner, p);
    WalkOwned(m, root, owner, q);
  }

  /** No two pages translate to the same frame. */
  lemma TranslationInjective(m: seq<nat>, root: nat, owner: map<nat, Path>, p: nat, q: nat)
    requires Owns(m, root, owner) && p < PAGES && q < PAGES
    requires Translate(m, root, p).Some? && Translate(m, root, q).Some?
    requires Translate(m, root, p).value.frame == Translate(m, root, q).value.frame
    ensures p == q
  {
    NoSharing(m, root, owner, PagePath(p), PagePath(q));
    PagePathInjective(p, q);
  }

  // ---- One write to one entry ----

  lemma WordAfter(m: seq<nat>, t: nat, i: nat, e: nat, frame: nat, index: nat)
    requires ENTRIES * t + i < |m| && i < ENTRIES && index < ENTRIES
    ensures Word(m[ENTRIES * t + i := e], frame, index) ==
            if frame == t && index == i then e else Word(m, frame, index)
  {
  }

  /** The setting of one write: entry `i` of table `t`, before the write to be made there. */
  ghost predicate Target(m: seq<nat>, root: nat, owner: map<nat, Path>, t: nat, i: nat) {
    Owns(m, root, owner) && t in owner && |owner[t]| < 4 && i < ENTRIES && Leads(m, root, owner[t], t)
  }

  ghost predicate Blank(m: seq<nat>, f: nat) {
    forall j: nat :: j < ENTRIES ==> !Present(Word(m, f, j))
  }

  /** Frame `f` is unused, and if it is to become a table it holds no present entry. */
  ghost predicate Fresh(m: seq<nat>, owner: map<nat, Path>, t: nat, f: nat)
    requires t in owner
  {
    && f !in owner && f < MAX_FRAMES
    && (|owner[t]| < 3 ==> ENTRIES * f + ENTRIES <= |m| && Blank(m, f))
  }

  /** Pointing an absent entry at a fresh frame adds one path to the walk and changes no other. */
  lemma {:induction false} InstallWalk(m: seq<nat>, root: nat, owner: map<nat, Path>, t: nat, i: nat, f: nat,
                                       flags: nat, path: Path)
    requires Target(m, root, owner, t, i) && !Present(Word(m, t, i))
    requires Fresh(m, owner, t, f) && flags < 8 && Present(flags) && Bounded(path)
    ensures Walk(m[ENTRIES * t + i := Encode(f, flags)], root, path) ==
            if path == owner[t] + [i] then Follow(Walk(m, root, owner[t]).value, Encode(f, flags))
            else Walk(m, root, path)
    decreases |path|
  {
    if |path| > 0 {
      var m' := m[ENTRIES * t + i := Encode(f, flags)];
      var n := |path| - 1;
      var q := path[..n];
      assert path == q + [path[n]];
      InstallWalk(m, root, owner, t, i, f, flags, q);
      EncodeDecode(f, flags);
      assert Leads(m, root, owner[t], t);
      if q == owner[t] + [i] {
        assert q[..n - 1] == owner[t];
        WordAfter(m, t, i, Encode(f, flags), f, path[n]);
      } else if Walk(m, root, q).Some? {
        WalkOwned(m, root, owner, q);
        WordAfter(m, t, i, Encode(f, flags), Walk(m, root, q).value.frame, path[n]);
      }
    }
  }

  ghost predicate Added(m: seq<nat>, m': seq<nat>, root: nat, new_: Path, h: Option<Hit>) {
    forall path {:trigger Asked(path)} :: Asked(path) ==>
      Walk(m', root, path) == if path == new_ then h else Walk(m, root, path)
  }

  lemma InstallAdds(m: seq<nat>, m': seq<nat>, root: nat, owner: map<nat, Path>, t: nat, i: nat, f: nat, flags: nat)
    requires Target(m, root, owner, t, i) && !Present(Word(m, t, i))
    requires Fresh(m, owner, t, f) && flags < 8 && Present(flags)
    requires m' == m[ENTRIES * t + i := Encode(f, flags)]
    ensures Added(m, m', root, owner[t] + [i], Follow(Walk(m, root, owner[t]).value, Encode(f, flags)))
  {
    forall path | Asked(path)
      ensures Walk(m', root, path) ==
              if path == owner[t] + [i] then Follow(Walk(m, root, owner[t]).value, Encode(f, flags))
              else Walk(m, root, path)
    {
      InstallWalk(m, root, owner, t, i, f, flags, path);
    }
  }

  lemma InstallEntries(m: seq<nat>, m': seq<nat>, root: nat, owner: map<nat, Path>, t: nat, i: nat, f: nat, flags: nat)
    requires Target(m, root, owner, t, i) && Fresh(m, owner, t, f) && flags < 8
    requires m' == m[ENTRIES * t + i := Encode(f, flags)]
    ensures Linked(m', owner[f := owner[t] + [i]])
  {
    var owner' := owner[f := owner[t] + [i]];
    EncodeDecode(f, flags);
    forall x, j: nat | x in owner' && |owner'[x]| < 4 && j < ENTRIES && Present(Word(m', x, j))
      ensures Frame(Word(m', x, j)) in owner' && owner'[Frame(Word(m', x, j))] == owner'[x] + [j]
    {
      WordAfter(m, t, i, Encode(f, flags), x, j);
    }
  }

  lemma WalkAbsent(m: seq<nat>, root: nat, owner: map<nat, Path>, t: nat, i: nat)
    requires Target(m, root, owner, t, i)
    ensures Walk(m, root, owner[t] + [i]) == Follow(Walk(m, root, owner[t]).value, Word(m, t, i))
  {
    assert Leads(m, root, owner[t], t);
    assert (owner[t] + [i])[..|owner[t]|] == owner[t];
  }

  lemma Install(m: seq<nat>, m': seq<nat>, root: nat, owner: map<nat, Path>, t: nat, i: nat, f: nat, flags: nat)
    requires Target(m, root, owner, t, i) && !Present(Word(m, t, i))
    requires Fresh(m, owner, t, f) && flags < 8 && Present(flags)
    requires m' == m[ENTRIES * t + i := Encode(f, flags)]
    ensures Owns(m', root, owner[f := owner[t] + [i]])
    ensures Added(m, m', root, owner[t] + [i], Follow(Walk(m, root, owner[t]).value, Encode(f, flags)))
  {
    var path := owner[t] + [i];
    var owner' := owner[f := path];
    InstallAdds(m, m', root, owner, t, i, f, flags);
    WalkAbsent(m, root, owner, t, i);
    EncodeDecode(f, flags);
    InstallEntries(m, m', root, owner, t, i, f, flags);
    forall x | x in owner'
      ensures Leads(m', root, owner'[x], x)
    {
      assert Asked(owner'[x]);
      if x in owner { assert Leads(m, root, owner[x], x); }
    }
  }

  /** Clearing the present bit of a leaf entry removes one path from the walk and changes no other. */
  lemma {:induction false} ClearWalk(m: seq<nat>, root: nat, owner: map<nat, Path>, t: nat, i: nat, path: Path)
    requires Target(m, root, owner, t, i) && |owner[t]| == 3 && Bounded(path)
    ensures Walk(m[ENTRIES * t + i := ClearPresent(Word(m, t, i))], root, path) ==
            if path == owner[t] + [i] then None else Walk(m, root, path)
    decreases |path|
  {
    if |path| > 0 {
      var n := |path| - 1;
      var q := path[..n];
      assert path == q + [path[n]];
      ClearWalk(m, root, owner, t, i, q);
      ClearedEntry(Word(m, t, i));
      assert Leads(m, root, owner[t], t);
      if Walk(m, root, q).Some? {
        WalkOwned(m, root, owner, q);
        WordAfter(m, t, i, ClearPresent(Word(m, t, i)), Walk(m, root, q).value.frame, path[n]);
      }
    }
  }

  ghost predicate Removed(m: seq<nat>, m': seq<nat>, root: nat, gone: Path) {
    forall path {:trigger Asked(path)} :: Asked(path) ==>
      Walk(m', root, path) == if path == gone then None else Walk(m, root, path)
  }

  lemma ClearLinked(m: seq<nat>, m': seq<nat>, root: nat, owner: map<nat, Path>, t: nat, i: nat)
    requires Target(m, root, owner, t, i) && |owner[t]| == 3 && Present(Word(m, t, i))
    requires m' == m[ENTRIES * t + i := ClearPresent(Word(m, t, i))]
    ensures Linked(m', owner - {Frame(Word(m, t, i))})
  {
    var owner' := owner - {Frame(Word(m, t, i))};
    ClearedEntry(Word(m, t, i));
    forall x, j: nat | x in owner' && |owner'[x]| < 4 && j < ENTRIES && Present(Word(m', x, j))
      ensures Frame(Word(m', x, j)) in owner' && owner'[Frame(Word(m', x, j))] == owner'[x] + [j]
    {
      WordAfter(m, t, i, ClearPresent(Word(m, t, i)), x, j);
      assert Leads(m, root, owner[x], x) && Leads(m, root, owner[t], t);
      SnocInjective(owner[x], j, owner[t], i);
    }
  }

  lemma Clear(m: seq<nat>, m': seq<nat>, root: nat, owner: map<nat, Path>, t: nat, i: nat)
    requires Target(m, root, owner, t, i) && |owner[t]| == 3 && Present(Word(m, t, i))
    requires m' == m[ENTRIES * t + i := ClearPresent(Word(m, t, i))]
    ensures Owns(m', root, owner - {Frame(Word(m, t, i))})
    ensures Removed(m, m', root, owner[t] + [i])
  {
    var f := Frame(Word(m, t, i));
    var owner' := owner - {f};
    forall path | Asked(path)
      ensures Walk(m', root, path) == if path == owner[t] + [i] then None else Walk(m, root, path)
    {
      ClearWalk(m, root, owner, t, i, path);
    }
    WalkAbsent(m, root, owner, t, i);
    ClearedEntry(Word(m, t, i));
    ClearLinked(m, m', root, owner, t, i);
    forall x | x in owner'
      ensures Leads(m', root, owner'[x], x)
    {
      assert Asked(owner'[x]) && Leads(m, root, owner[x], x) && Leads(m, root, owner[f], f);
    }
  }

  ghost predicate SameTables(m: seq<nat>, m': seq<nat>, owner: map<nat, Path>) {
    forall x, j: nat :: x in owner && |owner[x]| < 4 && j < ENTRIES ==> Word(m', x, j) == Word(m, x, j)
  }

  ghost predicate SameWalks(m: seq<nat>, m': seq<nat>, root: nat) {
    forall path {:trigger Asked(path)} :: Asked(path) ==> Walk(m', root, path) == Walk(m, root, path)
  }

  /** Writes to a frame outside the tree change no walk. */
  lemma {:induction false} OutsideWalk(m: seq<nat>, m': seq<nat>, root: nat, owner: map<nat, Path>, path: Path)
    requires Owns(m, root, owner) && Bounded(path) && SameTables(m, m', owner)
    ensures Walk(m', root, path) == Walk(m, root, path)
    decreases |path|
  {
    if |path| > 0 {
      var q := path[..|path| - 1];
      OutsideWalk(m, m', root, owner, q);
      if Walk(m, root, q).Some? {
        WalkOwned(m, root, owner, q);
      }
    }
  }

  lemma Outside(m: seq<nat>, m': seq<nat>, root: nat, owner: map<nat, Path>)
    requires Owns(m, root, owner) && |m'| == |m| && SameTables(m, m', owner)
    ensures Owns(m', root, owner)
    ensures SameWalks(m, m', root)
  {
    forall path | Asked(path) ensures Walk(m', root, path) == Walk(m, root, path) {
      OutsideWalk(m, m', root, owner, path);
    }
    forall x | x in owner ensures Leads(m', root, owner[x], x) {
      assert Leads(m, root, owner[x], x);
    }
  }

  /** Zero-filling an unused frame changes no word of a table. */
  lemma ZeroFilled(m: seq<nat>, m': seq<nat>, owner: map<nat, Path>, f: nat)
    requires |m'| == |m| && f !in owner
    requires forall k: nat :: k < |m| && !(ENTRIES * f <= k < ENTRIES * f + ENTRIES) ==> m'[k] == m[k]
    ensures SameTables(m, m', owner)
  {
    forall x, j: nat | x in owner && |owner[x]| < 4 && j < ENTRIES
      ensures Word(m', x, j) == Word(m, x, j)
    {
      assert x != f;
      assert !(ENTRIES * f <= ENTRIES * x + j < ENTRIES * f + ENTRIES);
    }
  }
}
