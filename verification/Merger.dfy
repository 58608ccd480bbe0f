/** The merging cursor (table/merger.cc) over several sorted children. */
module Merger {
  import opened Wrappers

  type Key = real
  type Value = seq<bv8>
  datatype Item = Item(key: Key, value: Value)
  datatype Direction = Forward | Reverse

  /** A set of keys by position in the key order. */
  datatype Range = All | From(lo: Key) | After(lo: Key) | Before(hi: Key) {
    predicate Holds(k: Key) {
      match this
      case All => true
      case From(lo) => lo <= k
      case After(lo) => lo < k
      case Before(hi) => k < hi
    }
    predicate Up() { !Before? }
    predicate Down() { All? || Before? }
  }

  ghost predicate Sorted(s: seq<Item>) {
    forall i, j :: 0 <= i < j < |s| ==> s[i].key < s[j].key
  }

  /** A child's position: the first item of an upward range (|s| if there is none). */
  ghost predicate FirstIn(s: seq<Item>, p: nat, r: Range) {
    p <= |s| && (forall j :: 0 <= j < p ==> !r.Holds(s[j].key)) && (forall j :: p <= j < |s| ==> r.Holds(s[j].key))
  }

  /** The last item of a downward range; |s| stands for "not valid". */
  ghost predicate LastIn(s: seq<Item>, p: nat, r: Range) {
    p <= |s| && (forall j :: 0 <= j < |s| && (j > p || p == |s|) ==> !r.Holds(s[j].key))
    && (p < |s| ==> forall j :: 0 <= j <= p ==> r.Holds(s[j].key))
  }

  class MergingIterator {
    const children: seq<seq<Item>>
    var at: seq<nat>             // where each child is; its length if not valid
    var current: Option<nat>     // the child with the smallest (largest) key
    var direction: Direction

    /** Keys are distinct within and across the children. */
    ghost predicate Wf()
      reads this
    {
      && |at| == |children|
      && (forall i :: 0 <= i < |children| ==> Sorted(children[i]) && at[i] <= |children[i]|)
      && (forall i, j, a, b :: 0 <= i < j < |children| && 0 <= a < |children[i]| && 0 <= b < |children[j]| ==>
            children[i][a].key != children[j][b].key)
      && (current.Some? ==> current.value < |children| && at[current.value] < |children[current.value]|)
    }

    predicate Valid()
      reads this
    {
      current.Some?
    }

    function Current(): Item
      requires Wf() && Valid()
      reads this
    {
      children[current.value][at[current.value]]
    }

    /** The other children are just behind the current key, in the direction of travel. */
    ghost predicate Inv()
      reads this
    {
      && Wf()
      && (Valid() ==> forall i :: 0 <= i < |children| && i != current.value ==>
            if direction == Forward then FirstIn(children[i], at[i], After(Current().key))
            else LastIn(children[i], at[i], Before(Current().key)))
    }

    /** The cursor is on the first item, over all children, of the range; or there is none. */
    ghost predicate OnFirst(r: Range)
      requires Wf()
      reads this
    {
      if Valid() then
        r.Holds(Current().key) && forall i, j :: 0 <= i < |children| && 0 <= j < |children[i]| && r.Holds(children[i][j].key) ==> Current().key <= children[i][j].key
      else forall i, j :: 0 <= i < |children| && 0 <= j < |children[i]| ==> !r.Holds(children[i][j].key)
    }

    ghost predicate OnLast(r: Range)
      requires Wf()
      reads this
    {
      if Valid() then
        r.Holds(Current().key) && forall i, j :: 0 <= i < |children| && 0 <= j < |children[i]| && r.Holds(children[i][j].key) ==> children[i][j].key <= Current().key
      else forall i, j :: 0 <= i < |children| && 0 <= j < |children[i]| ==> !r.Holds(children[i][j].key)
    }

    constructor (children: seq<seq<Item>>)
      requires forall i :: 0 <= i < |children| ==> Sorted(children[i])
      requires forall i, j, a, b :: 0 <= i < j < |children| && 0 <= a < |children[i]| && 0 <= b < |children[j]| ==>
        children[i][a].key != children[j][b].key
      ensures Inv() && !Valid() && this.children == children
    {
      this.children := children;
      at := seq(|children|, i requires 0 <= i < |children| => |children[i]|);
      current, direction := None, Forward;
    }

    // ------------------------------------------------------------- child operations

    /** `child->Seek(k)`. */
    method ChildSeek(i: nat, k: Key)
      requires |at| == |children| && i < |children| && Sorted(children[i])
      modifies this`at
      ensures |at| == |children| && (forall j :: 0 <= j < |at| && j != i ==> at[j] == old(at)[j])
      ensures FirstIn(children[i], at[i], From(k))
    {
      var s, p := children[i], 0;
      while p < |s| && s[p].key < k
        invariant p <= |s| && forall j :: 0 <= j < p ==> s[j].key < k
      {
        p := p + 1;
      }
      at := at[i := p];
    }

    /** Next's repositioning of a child behind the current key. */
    method ChildAfter(i: nat, k: Key)
      requires |at| == |children| && i < |children| && Sorted(children[i])
      modifies this`at
      ensures |at| == |children| && (forall j :: 0 <= j < |at| && j != i ==> at[j] == old(at)[j])
      ensures FirstIn(children[i], at[i], After(k))
    {
      ChildSeek(i, k);
      if at[i] < |children[i]| && children[i][at[i]].key == k {
        at := at[i := at[i] + 1];
      }
    }

    /** Prev's repositioning of a child before the current key. */
    method ChildBefore(i: nat, k: Key)
      requires |at| == |children| && i < |children| && Sorted(children[i])
      modifies this`at
      ensures |at| == |children| && (forall j :: 0 <= j < |at| && j != i ==> at[j] == old(at)[j])
      ensures LastIn(children[i], at[i], Before(k))
    {
      ChildSeek(i, k);
      if at[i] < |children[i]| {
        // The child is at or behind the current key: one step back
        at := at[i := PrevOf(|children[i]|, at[i])];
      } else {
        // Everything in the child is before the current key
        at := at[i := LastOf(|children[i]|)];
      }
    }

    // ------------------------------------------------------------------ the choices

    lemma SmallestIsFirst(r: Range)
      requires Wf() && r.Up() && direction == Forward && forall i :: 0 <= i < |children| ==> FirstIn(children[i], at[i], r)
      requires current.None? ==> forall j :: 0 <= j < |children| ==> at[j] == |children[j]|
      requires current.Some? ==> forall j :: 0 <= j < |children| && at[j] < |children[j]| ==> Current().key <= children[j][at[j]].key
      ensures Inv() && OnFirst(r)
    {
    }

    lemma LargestIsLast(r: Range)
      requires Wf() && r.Down() && direction == Reverse && forall i :: 0 <= i < |children| ==> LastIn(children[i], at[i], r)
      requires current.None? ==> forall j :: 0 <= j < |children| ==> at[j] == |children[j]|
      requires current.Some? ==> forall j :: 0 <= j < |children| && at[j] < |children[j]| ==> children[j][at[j]].key <= Current().key
      ensures Inv() && OnLast(r)
    {
    }

    method FindSmallest(ghost r: Range)
      requires Wf() && r.Up() && forall i :: 0 <= i < |children| ==> FirstIn(children[i], at[i], r)
      modifies this`current, this`direction
      ensures direction == Forward && Inv() && OnFirst(r)
    {
      hide FirstIn;
      var smallest: Option<nat> := None;
      for i := 0 to |children|
        invariant smallest.Some? ==> smallest.value < i && at[smallest.value] < |children[smallest.value]|
        invariant smallest.None? ==> forall j :: 0 <= j < i ==> at[j] == |children[j]|
        invariant smallest.Some? ==> forall j :: 0 <= j < i && at[j] < |children[j]| ==>
          children[smallest.value][at[smallest.value]].key <= children[j][at[j]].key
      {
        if at[i] < |children[i]| {
          if smallest.None? || children[i][at[i]].key < children[smallest.value][at[smallest.value]].key {
            smallest := Some(i);
          }
        }
      }
      current, direction := smallest, Forward;
      SmallestIsFirst(r);
    }

    method FindLargest(ghost r: Range)
      requires Wf() && r.Down() && forall i :: 0 <= i < |children| ==> LastIn(children[i], at[i], r)
      modifies this`current, this`direction
      ensures direction == Reverse && Inv() && OnLast(r)
    {
      hide LastIn;
      var largest: Option<nat> := None;
      for i := |children| downto 0
        invariant largest.Some? ==> i <= largest.value < |children| && at[largest.value] < |children[largest.value]|
        invariant largest.None? ==> forall j :: i <= j < |children| ==> at[j] == |children[j]|
        invariant largest.Some? ==> forall j :: i <= j < |children| && at[j] < |children[j]| ==>
          children[j][at[j]].key <= children[largest.value][at[largest.value]].key
      {
        if at[i] < |children[i]| {
          if largest.None? || children[i][at[i]].key > children[largest.value][at[largest.value]].key {
            largest := Some(i);
          }
        }
      }
      current, direction := largest, Reverse;
      LargestIsLast(r);
    }

    // ------------------------------------------------------------------- operations

    method SeekToFirst()
      requires Inv()
      modifies this
      ensures Inv() && OnFirst(All)
    {
      current := None;
      for i := 0 to |children|
        invariant Wf() && forall j :: 0 <= j < i ==> FirstIn(children[j], at[j], All)
      {
        at := at[i := 0];
      }
      FindSmallest(All);
    }

    method SeekToLast()
      requires Inv()
      modifies this
      ensures Inv() && OnLast(All)
    {
      current := None;
      for i := 0 to |children|
        invariant Wf() && forall j :: 0 <= j < i ==> LastIn(children[j], at[j], All)
      {
        at := at[i := LastOf(|children[i]|)];
      }
      FindLargest(All);
    }

    method Seek(target: Key)
      requires Inv()
      modifies this
      ensures Inv() && OnFirst(From(target))
    {
      current := None;
      for i := 0 to |children|
        invariant Wf() && current == None && forall j :: 0 <= j < i ==> FirstIn(children[j], at[j], From(target))
      {
        ChildSeek(i, target);
      }
      FindSmallest(From(target));
    }

    method Next()
      requires Inv() && Valid()
      modifies this
      ensures Inv() && OnFirst(After(old(Current().key)))
    {
      var c, k := current.value, Current().key;
      if direction != Forward {
        for i := 0 to |children|
          invariant Wf() && current == Some(c) && Current().key == k
          invariant forall j :: 0 <= j < i && j != c ==> FirstIn(children[j], at[j], After(k))
        {
          if i != c {
            ChildAfter(i, k);
          }
        }
      }
      current := None;
      at := at[c := at[c] + 1];
      FindSmallest(After(k));
    }

    method Prev()
      requires Inv() && Valid()
      modifies this
      ensures Inv() && OnLast(Before(old(Current().key)))
    {
      var c, k := current.value, Current().key;
      if direction != Reverse {
        for i := 0 to |children|
          invariant Wf() && current == Some(c) && Current().key == k
          invariant forall j :: 0 <= j < i && j != c ==> LastIn(children[j], at[j], Before(k))
        {
          if i != c {
            ChildBefore(i, k);
          }
        }
      }
      current := None;
      at := at[c := PrevOf(|children[c]|, at[c])];
      FindLargest(Before(k));
    }
  }

  /** `child->Prev()` and `child->SeekToLast()` on positions. */
  function PrevOf(n: nat, p: nat): nat {
    if p == 0 then n else p - 1
  }

  function LastOf(n: nat): nat {
    if n == 0 then 0 else n - 1
  }
}
