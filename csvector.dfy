/**
 * The inline part of `csVector` (cs/csvector.h): a growable array of
 * untyped slots. `count` is the length, `root` the storage of `limit`
 * slots. Only the inline members have bodies in the header; `SetLength`
 * and the constructor are declared there and defined elsewhere, so here
 * they carry the contract their callers rely on (and the simplest body
 * that meets it).
 */
module CsVector {

  import opened Wrappers

  /** The slots `Exchange(i, j)` leaves: `s[i]` and `s[j]` swapped. */
  function Swapped<T>(s: seq<T>, i: nat, j: nat): (r: seq<T>)
    requires i < |s| && j < |s|
    ensures |r| == |s|
  {
    s[i := s[j]][j := s[i]]
  }

  /** `Exchange` moves exactly the two slots named. */
  lemma SwappedAt<T>(s: seq<T>, i: nat, j: nat, k: nat)
    requires i < |s| && j < |s| && k < |s|
    ensures Swapped(s, i, j)[k] == if k == i then s[j] else if k == j then s[i] else s[k]
  {
  }

  /** Exchanging twice restores the vector. */
  lemma SwappedTwice<T>(s: seq<T>, i: nat, j: nat)
    requires i < |s| && j < |s|
    ensures Swapped(Swapped(s, i, j), i, j) == s
  {
  }

  /** Exchanging a slot with itself is a no-op. */
  lemma SwappedSame<T>(s: seq<T>, i: nat)
    requires i < |s|
    ensures Swapped(s, i, i) == s
  {
  }

  /** Exchanging only permutes the slots. */
  lemma SwappedPermutes<T>(s: seq<T>, i: nat, j: nat)
    requires i < |s| && j < |s|
    ensures multiset(Swapped(s, i, j)) == multiset(s)
  {
  }

  /**
   * The range `QuickSort(Mode)` hands to `QuickSort(Left, Right, Mode)`:
   * none for an empty vector, otherwise exactly the slots `0 .. count-1`.
   */
  function QuickSortBounds(count: int): (r: Option<(int, int)>)
    ensures r.Some? <==> count > 0
    ensures r.Some? ==> r.value.0 == 0 && r.value.1 + 1 == count
  {
    if count > 0 then Some((0, count - 1)) else None
  }

  class Vector<T(0)> {
    var count: int
    var limit: int
    var threshold: int
    var root: array<T>

    ghost predicate Valid()
      reads this
    {
      0 <= count <= limit && limit == root.Length && threshold > 0
    }

    /** The elements in order: the first `count` slots. */
    ghost function Elements(): seq<T>
      reads this, root
      requires Valid()
    {
      root[..count]
    }

    /** `csVector(ilimit, ithreshold)`: an empty vector with room for `ilimit` slots. */
    constructor (ilimit: nat, ithreshold: nat)
      requires ithreshold > 0
      ensures Valid() && Elements() == [] && limit == ilimit && threshold == ithreshold
      ensures fresh(root)
    {
      count, limit, threshold := 0, ilimit, ithreshold;
      root := new T[ilimit];
    }

    /** `Length()`. */
    function Length(): (n: int)
      reads this, root
      requires Valid()
      ensures n == |Elements()|
    {
      count
    }

    /** `Get(n)` and `operator[](n)`: slot `n`, which must be below `Length()`. */
    method Get(n: int) returns (x: T)
      requires Valid() && 0 <= n < count
      ensures x == Elements()[n]
    {
      x := root[n];
    }

    /**
     * `SetLength(n)`: the length becomes `n`; the elements below both the
     * old and the new length are kept. When `n` exceeds the storage, the
     * storage grows by `threshold` slots beyond `n` into a fresh array.
     */
    method SetLength(n: nat)
      requires Valid()
      modifies this
      ensures Valid() && count == n && threshold == old(threshold)
      ensures root == old(root) || fresh(root)
      ensures var keep := if n < old(count) then n else old(count);
        Elements()[..keep] == old(Elements())[..keep]
    {
      if n > limit {
        var grown := new T[n + threshold];
        var i := 0;
        while i < count
          modifies grown
          invariant 0 <= i <= count
          invariant grown[..i] == root[..i]
        {
          grown[i] := root[i];
          i := i + 1;
        }
        root, limit := grown, n + threshold;
      }
      count := n;
    }

    /** `Push(what)`: appends `what` and returns its index, the old `Length()`. */
    method Push(what: T) returns (index: int)
      requires Valid()
      modifies this, root
      ensures Valid() && threshold == old(threshold)
      ensures Elements() == old(Elements()) + [what]
      ensures index == old(count)
    {
      SetLength(count + 1);
      root[count - 1] := what;
      index := count - 1;
    }

    /** `Pop()`: removes and returns the last element. */
    method Pop() returns (last: T)
      requires Valid() && count > 0
      modifies this
      ensures Valid() && threshold == old(threshold)
      ensures last == old(Elements())[old(count) - 1]
      ensures Elements() == old(Elements())[..old(count) - 1]
    {
      last := root[count - 1];
      SetLength(count - 1);
    }

    /** `Exchange(n1, n2)`: swaps two slots in place. */
    method Exchange(n1: int, n2: int)
      requires Valid() && 0 <= n1 < count && 0 <= n2 < count
      modifies root
      ensures Valid()
      ensures Elements() == Swapped(old(Elements()), n1, n2)
    {
      var tmp := root[n1];
      root[n1] := root[n2];
      root[n2] := tmp;
    }
  }

  /** `Push(x)` followed by `Pop()` returns `x` and restores the vector. */
  method PushThenPop<T(0)>(v: Vector<T>, x: T) returns (popped: T)
    requires v.Valid()
    modifies v, v.root
    ensures v.Valid()
    ensures popped == x && v.Elements() == old(v.Elements())
  {
    var index := v.Push(x);
    popped := v.Pop();
  }
}
