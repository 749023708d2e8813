/**
 The menu carousel: the first three catalog donuts, one of which is active.
 A cursor `activeIdx` moves left and right with clamping, or jumps to a
 clicked item; after every move the items' active flags are redrawn.
 */
module MenuCarousel {
  import Catalog

  /** How many catalog donuts the carousel shows. */
  const Shown := 3

  /** The cursor after the "previous" button: one step left, never below the first item. */
  function PrevIndex(i: int): (r: int)
    ensures 0 <= r
    ensures 0 <= i ==> i - 1 <= r <= i
    ensures 0 <= i ==> (r == i <==> i == 0)
  {
    if i > 0 then i - 1 else 0
  }

  /** The cursor after the "next" button: one step right, never past the last of `n` items. */
  function NextIndex(i: int, n: int): (r: int)
    ensures r <= n - 1
    ensures i <= n - 1 ==> i <= r <= i + 1
    ensures i <= n - 1 ==> (r == i <==> i == n - 1)
  {
    if i < n - 1 then i + 1 else n - 1
  }

  /** From an item of a non-empty track, both buttons land on an item of the track. */
  lemma MovesStayOnTrack(i: int, n: int)
    requires 0 <= i < n
    ensures 0 <= PrevIndex(i) < n
    ensures 0 <= NextIndex(i, n) < n
  {
  }

  /** Prev and next undo each other away from the ends. */
  lemma PrevNextInverse(i: int, n: int)
    ensures 0 < i < n ==> NextIndex(PrevIndex(i), n) == i
    ensures 0 <= i < n - 1 ==> PrevIndex(NextIndex(i, n)) == i
  {
  }

  /** The active flags of `n` items when the item at `k` is the active one. */
  function Marks(n: nat, k: int): (s: seq<bool>)
    ensures |s| == n
  {
    seq(n, j => j == k)
  }

  /** The positions whose item is marked active. */
  function ActiveItems(s: seq<bool>): set<int>
  {
    set j | 0 <= j < |s| && s[j]
  }

  /** With an in-range cursor, exactly one item is active: the one at the cursor. */
  lemma ExactlyOneActive(n: nat, k: int)
    requires 0 <= k < n
    ensures ActiveItems(Marks(n, k)) == {k}
    ensures |ActiveItems(Marks(n, k))| == 1
  {
  }

  class Carousel {
    /** The items on the track, in order. */
    const items: seq<Catalog.Donut>
    /** The index of the active item. */
    var activeIdx: int
    /** Whether each item currently carries the "active" class. */
    var active: seq<bool>

    /** The cursor is on an item and exactly that item is marked. */
    ghost predicate Valid()
      reads this
    {
      && |items| == Shown
      && 0 <= activeIdx < |items|
      && active == Marks(|items|, activeIdx)
    }

    /** Renders the first three donuts with the middle one active, and puts the cursor on it. */
    constructor ()
      ensures Valid()
      ensures items == Catalog.Donuts[..Shown] && activeIdx == 1
    {
      items := Catalog.Donuts[..Shown];
      var flags: seq<bool> := [];
      var index := 0;
      while index < Shown
        invariant 0 <= index <= Shown
        invariant flags == Marks(index, 1)
      {
        flags := flags + [index == 1];
        index := index + 1;
      }
      active := flags;
      activeIdx := 1;
    }

    /** Redraws the active flags: every item loses it, the one at the cursor regains it. */
    method Update()
      requires |active| == |items|
      modifies this
      ensures activeIdx == old(activeIdx)
      ensures active == Marks(|items|, activeIdx)
    {
      var idx := 0;
      while idx < |items|
        invariant 0 <= idx <= |items|
        invariant |active| == |items|
        invariant activeIdx == old(activeIdx)
        invariant forall j :: 0 <= j < idx ==> active[j] == (j == activeIdx)
      {
        active := active[idx := false];
        if idx == activeIdx {
          active := active[idx := true];
        }
        idx := idx + 1;
      }
    }

    /** The "previous" button. */
    method Prev()
      requires Valid()
      modifies this
      ensures Valid()
      ensures activeIdx == PrevIndex(old(activeIdx))
    {
      activeIdx := if activeIdx > 0 then activeIdx - 1 else 0;
      Update();
    }

    /** The "next" button. */
    method Next()
      requires Valid()
      modifies this
      ensures Valid()
      ensures activeIdx == NextIndex(old(activeIdx), |items|)
    {
      activeIdx := if activeIdx < |items| - 1 then activeIdx + 1 else |items| - 1;
      Update();
    }

    /** A click on the item at `idx`. */
    method Select(idx: int)
      requires Valid()
      requires 0 <= idx < |items|
      modifies this
      ensures Valid()
      ensures activeIdx == idx
    {
      activeIdx := idx;
      Update();
    }
  }
}
