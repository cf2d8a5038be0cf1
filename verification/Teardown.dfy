/**
  The frames that `cleanup_context_mm` frees.
 */
module Teardown {
  import opened Paging
  import opened Segments
  import opened Growth

  // ---- cleanup_context_mm ----

  lemma CleanupIndices(code: Segment, rodata: Segment, data: Segment, stack: Segment)
    requires Layout(code, rodata, data, stack) && Top(stack) / L3_SPAN != data.start / L3_SPAN
    ensures var s, c, d := Indices(Top(stack)), Indices(code.start), Indices(data.start);
            s[0] == c[0] == d[0] == 0 && s[1] != c[1] && s[1] != d[1] && c[1] != d[1]
  {
    PreparedPaths(code, rodata, data, stack);
    TopIndices(Top(stack));
    TopIndices(data.start);
  }

  lemma ThreeWalked(m: seq<nat>, root: nat, s: Path, c: Path, d: Path)
    requires Prepared(m, root, s, c, d) && Bounded(s) && Bounded(c) && Bounded(d) && |s| == |c| == |d| == 4
    ensures Walk(m, root, s).Some? && Walk(m, root, c).Some? && Walk(m, root, d).Some?
  {
    PreparedAt(m, root, s, c, d, s);
    PreparedAt(m, root, s, c, d, c);
    PreparedAt(m, root, s, c, d, d);
    assert s[..4] == s && c[..4] == c && d[..4] == d;
  }

  /** Two owned frames with one path are one frame. */
  lemma OwnerInjective(m: seq<nat>, root: nat, owner: map<nat, Path>, f: nat, g: nat)
    requires Owns(m, root, owner) && f in owner && g in owner
    ensures f == g <==> owner[f] == owner[g]
  {
    assert Leads(m, root, owner[f], f) && Leads(m, root, owner[g], g);
  }

  function FreedTables(x: Path, freeL3: bool): seq<Path>
    requires |x| == 4
  {
    if freeL3 then [x[..1], x[..2]] else [x[..2]]
  }

  function FreedLeaf(x: Path, leaf: bool, last: Path): seq<Path>
    requires |x| == 4
  {
    if leaf then [x[..3], x] else [last]
  }

  /**
    The paths of the frames that one segment's block of teardown frees, in order. Without a leaf the L1
    table is not freed, and the frame of the last leaf found, at `last`, is freed again.
   */
  function FreedPaths(x: Path, freeL3: bool, leaf: bool, last: Path): seq<Path>
    requires |x| == 4
  {
    FreedTables(x, freeL3) + FreedLeaf(x, leaf, last)
  }

  /** Stack, code, data; `cl` and `dl` say whether the code and data leaves are there. */
  function CleanupOrder(s: Path, c: Path, d: Path, cl: bool, dl: bool): seq<Path>
    requires |s| == |c| == |d| == 4
  {
    FreedPaths(s, true, true, s) + FreedPaths(c, false, cl, s) + FreedPaths(d, true, dl, if cl then c else s)
  }

  /** Paths of which teardown frees the frames: those along a leaf that is there, and the upper tables of the others. */
  predicate FreedAlong(path: Path, x: Path, leaf: bool) {
    Along(path, x) && (leaf || |path| <= 2)
  }

  /** `log` lists the frames that own the paths of `o`. */
  ghost predicate Lists(owner: map<nat, Path>, log: seq<nat>, o: seq<Path>) {
    |log| == |o| && forall i :: 0 <= i < |log| ==> log[i] in owner && owner[log[i]] == o[i]
  }

  /** The frames of `log` went back to their pools: tables to OS_PT_REG, pages to USER_REG. */
  ghost predicate Returned(owner: map<nat, Path>, os: set<nat>, user: set<nat>, os': set<nat>, user': set<nat>,
                           log: seq<nat>) {
    && (forall f :: f in os' <==> f in os || (f in log && f in owner && |owner[f]| < 4))
    && (forall f :: f in user' <==> f in user || (f in log && f in owner && |owner[f]| == 4))
  }

  lemma ReturnedMore(owner: map<nat, Path>, os: set<nat>, user: set<nat>, os1: set<nat>, user1: set<nat>,
                     log1: seq<nat>,
                     os2: set<nat>, user2: set<nat>, log2: seq<nat>)
    requires Returned(owner, os, user, os1, user1, log1) && Returned(owner, os1, user1, os2, user2, log2)
    ensures Returned(owner, os, user, os2, user2, log1 + log2)
  {
  }

  lemma ListsAppend(owner: map<nat, Path>, l1: seq<nat>, o1: seq<Path>, l2: seq<nat>, o2: seq<Path>)
    requires Lists(owner, l1, o1) && Lists(owner, l2, o2)
    ensures Lists(owner, l1 + l2, o1 + o2)
  {
  }

  lemma Joined(a: seq<nat>, b: seq<nat>, c: seq<nat>)
    ensures a + b + c == a + (b + c)
  {
  }

  lemma Regrouped(a: seq<nat>, b: seq<nat>, c: seq<nat>, d: seq<nat>)
    ensures a + b + c + d == a + (b + c + d)
  {
  }

  predicate Twice<T(==)>(s: seq<T>, x: T) {
    exists i, j :: 0 <= i < j < |s| && s[i] == x && s[j] == x
  }

  lemma ListsMembers(m: seq<nat>, root: nat, owner: map<nat, Path>, log: seq<nat>, o: seq<Path>, f: nat)
    requires Owns(m, root, owner) && Lists(owner, log, o)
    ensures f in log <==> f in owner && owner[f] in o
    ensures Twice(log, f) <==> f in owner && Twice(o, owner[f])
  {
    if f in owner {
      forall i | 0 <= i < |log| ensures log[i] == f <==> o[i] == owner[f] {
        OwnerInjective(m, root, owner, log[i], f);
      }
      if owner[f] in o {
        var i :| 0 <= i < |o| && o[i] == owner[f];
        assert log[i] == f;
      }
      if Twice(o, owner[f]) {
        var i, j :| 0 <= i < j < |o| && o[i] == owner[f] && o[j] == owner[f];
        assert log[i] == f && log[j] == f;
      }
    }
  }

  lemma FreedMembers(x: Path, freeL3: bool, leaf: bool, last: Path, path: Path)
    requires |x| == 4
    ensures path in FreedPaths(x, freeL3, leaf, last) <==>
            (freeL3 && path == x[..1]) || path == x[..2] || (if leaf then path == x[..3] || path == x else path == last)
  {
    var a, b := FreedTables(x, freeL3), FreedLeaf(x, leaf, last);
    assert path in a + b <==> path in a || path in b;
  }

  lemma AlongIs(path: Path, x: Path)
    requires |x| == 4
    ensures Along(path, x) <==> path == x[..1] || path == x[..2] || path == x[..3] || path == x
  {
    assert x[..4] == x;
  }

  lemma CleanupCovers(s: Path, c: Path, d: Path, cl: bool, dl: bool, path: Path)
    requires |s| == |c| == |d| == 4 && s[0] == c[0] == d[0]
    ensures path in CleanupOrder(s, c, d, cl, dl) <==>
            FreedAlong(path, s, true) || FreedAlong(path, c, cl) || FreedAlong(path, d, dl)
  {
    FreedMembers(s, true, true, s, path);
    FreedMembers(c, false, cl, s, path);
    FreedMembers(d, true, dl, if cl then c else s, path);
    AlongIs(path, s);
    AlongIs(path, c);
    AlongIs(path, d);
    assert c[..1] == s[..1] && d[..1] == s[..1];
  }

  /** Freed twice: the shared L3 table, always, and the last leaf found, when a later one is missing. */
  lemma CleanupTwice(s: Path, c: Path, d: Path, cl: bool, dl: bool, path: Path)
    requires |s| == |c| == |d| == 4 && s[0] == c[0] == d[0] && s[1] != c[1] && s[1] != d[1] && c[1] != d[1]
    ensures Twice(CleanupOrder(s, c, d, cl, dl), path) <==>
            path == s[..1] || (!cl && path == s) || (!dl && path == if cl then c else s)
  {
    var o := CleanupOrder(s, c, d, cl, dl);
    assert d[..1] == s[..1];
    var n := if cl then 7 else 6;
    assert o[0] == s[..1] && o[1] == s[..2] && o[2] == s[..3] && o[3] == s && o[4] == c[..2];
    assert if cl then o[5] == c[..3] && o[6] == c else o[5] == s;
    assert o[n] == d[..1] && o[n + 1] == d[..2];
    assert if dl then o[n + 2] == d[..3] && o[n + 3] == d else o[n + 2] == if cl then c else s;
    assert |o| == n + if dl then 4 else 3;
    forall i | 0 <= i < |o| && |o[i]| >= 2
      ensures o[i][1] == if i < 4 || (!cl && i == 5) || (!dl && !cl && i == n + 2) then s[1]
                         else if i < n || (!dl && i == n + 2) then c[1] else d[1]
    {
    }
  }

  lemma CleanupLog(m: seq<nat>, root: nat, owner: map<nat, Path>, log: seq<nat>, s: Path, c: Path, d: Path, cl: bool,
                   dl: bool)
    requires |s| == |c| == |d| == 4 && s[0] == c[0] == d[0] && s[1] != c[1] && s[1] != d[1] && c[1] != d[1]
    requires Owns(m, root, owner) && Lists(owner, log, CleanupOrder(s, c, d, cl, dl))
    ensures forall f :: f in log <==>
              f in owner
                && (FreedAlong(owner[f], s, true) || FreedAlong(owner[f], c, cl) || FreedAlong(owner[f], d, dl))
    ensures forall f :: Twice(log, f) <==>
              f in owner && (owner[f] == s[..1] || (!cl && owner[f] == s) || (!dl && owner[f] == if cl then c else s))
    ensures |log| == 4 + (if cl then 3 else 2) + if dl then 4 else 3
  {
    var o := CleanupOrder(s, c, d, cl, dl);
    forall f ensures f in log <==> f in owner && owner[f] in o {
      ListsMembers(m, root, owner, log, o, f);
    }
    forall f ensures Twice(log, f) <==> f in owner && Twice(o, owner[f]) {
      ListsMembers(m, root, owner, log, o, f);
    }
    forall f | f in owner ensures owner[f] in o <==>
               FreedAlong(owner[f], s, true) || FreedAlong(owner[f], c, cl) || FreedAlong(owner[f], d, dl)
    {
      CleanupCovers(s, c, d, cl, dl, owner[f]);
    }
    forall f | f in owner ensures Twice(o, owner[f]) <==>
               owner[f] == s[..1] || (!cl && owner[f] == s) || (!dl && owner[f] == if cl then c else s)
    {
      CleanupTwice(s, c, d, cl, dl, owner[f]);
    }
  }

  /** Straight after preparation, the frames along the three paths are all but the root. */
  lemma PreparedOwners(m: seq<nat>, root: nat, owner: map<nat, Path>, s: Path, c: Path, d: Path, f: nat)
    requires Owns(m, root, owner) && Prepared(m, root, s, c, d) && f in owner
    ensures Along(owner[f], s) || Along(owner[f], c) || Along(owner[f], d) <==> f != root
  {
    assert Leads(m, root, owner[f], f);
    WalkOwned(m, root, owner, owner[f]);
    PreparedAt(m, root, s, c, d, owner[f]);
    OwnerInjective(m, root, owner, f, root);
  }
}
