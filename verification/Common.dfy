/** What the other modules share. */
module Common {
  const U64: nat := 0x1_0000_0000_0000_0000

  datatype Option<+T> = None | Some(value: T)

  /** Always true; the quantifiers over pairs of positions are instantiated at the pairs it is asserted of. */
  predicate Pair(i: int, j: int) { true }

  ghost predicate Distinct(s: seq<nat>) {
    forall i, j {:trigger Pair(i, j)} :: Pair(i, j) && 0 <= i < j < |s| ==> s[i] != s[j]
  }

  lemma Apart(s: seq<nat>)
    requires Distinct(s)
    ensures forall i, j :: 0 <= i < j < |s| ==> s[i] != s[j]
  {
    forall i, j | 0 <= i < j < |s| ensures s[i] != s[j] {
      assert Pair(i, j);
    }
  }

  /** An index that wraps around once. */
  lemma WrapIndex(n: nat, i: nat)
    requires 0 < n && i < 2 * n
    ensures i % n == if i < n then i else i - n
  {
    if i >= n { assert i == n * 1 + (i - n); }
  }

  /** The sequence without its element at `i`. */
  function Cut<T>(s: seq<T>, i: nat): (r: seq<T>)
    requires i < |s|
    ensures |r| == |s| - 1 && forall k {:trigger r[k]} :: 0 <= k < |r| ==> r[k] == if k < i then s[k] else s[k + 1]
  {
    s[..i] + s[i + 1..]
  }

  lemma CardGrows<T>(a: set<T>, b: set<T>)
    requires a <= b
    ensures |a| <= |b|
  {
    assert b == a + (b - a);
  }
}
