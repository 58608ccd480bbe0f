/** The two-level cursor (table/two_level_iterator.cc): an index whose entries lead to blocks,
    some of which may be empty, read as one sequence. */
module TwoLevel {
  import opened Wrappers
  import opened Merger

  class TwoLevelIterator {
    const separators: seq<Key>        // the keys of the index entries
    const blocks: seq<seq<Item>>      // what the block function returns for each of them
    var index: nat                    // the index iterator; |blocks| if not valid
    var data: Option<nat>             // the block of the data iterator, if there is one
    var pos: nat                      // its position; the block's length if not valid

    /** Keys ascend over all blocks; each separator is at or above its block and below the
        next. */
    ghost predicate Wf() {
      && |separators| == |blocks|
      && (forall i :: 0 <= i < |blocks| ==> Sorted(blocks[i]))
      && (forall i, a :: 0 <= i < |blocks| && 0 <= a < |blocks[i]| ==> blocks[i][a].key <= separators[i])
      && (forall i, j, a :: 0 <= i < j < |blocks| && 0 <= a < |blocks[j]| ==> separators[i] < blocks[j][a].key)
    }

    predicate Valid()
      reads this
    {
      data.Some? && data.value < |blocks| && pos < |blocks[data.value]|
    }

    /** A data iterator belongs to the current index entry. */
    ghost predicate Inv()
      reads this
    {
      && Wf() && index <= |blocks|
      && (data.Some? ==> data.value == index < |blocks| && pos <= |blocks[index]|)
    }

    function Current(): Item
      requires Inv() && Valid()
      reads this
    {
      blocks[index][pos]
    }

    ghost predicate OnFirst(r: Range)
      requires Inv()
      reads this
    {
      if Valid() then
        r.Holds(Current().key) && forall i, j :: 0 <= i < |blocks| && 0 <= j < |blocks[i]| && r.Holds(blocks[i][j].key) ==> Current().key <= blocks[i][j].key
      else forall i, j :: 0 <= i < |blocks| && 0 <= j < |blocks[i]| ==> !r.Holds(blocks[i][j].key)
    }

    ghost predicate OnLast(r: Range)
      requires Inv()
      reads this
    {
      if Valid() then
        r.Holds(Current().key) && forall i, j :: 0 <= i < |blocks| && 0 <= j < |blocks[i]| && r.Holds(blocks[i][j].key) ==> blocks[i][j].key <= Current().key
      else forall i, j :: 0 <= i < |blocks| && 0 <= j < |blocks[i]| ==> !r.Holds(blocks[i][j].key)
    }

    constructor (separators: seq<Key>, blocks: seq<seq<Item>>)
      ensures this.separators == separators && this.blocks == blocks && index == |blocks| && data == None
    {
      this.separators, this.blocks := separators, blocks;
      index, data, pos := |blocks|, None, 0;
    }

    /** `InitDataBlock`: keeps the data iterator if it is already on this block. */
    method InitDataBlock()
      requires index <= |blocks| && (data.Some? ==> data.value < |blocks| && pos <= |blocks[data.value]|)
      modifies this`data, this`pos
      ensures data == if index < |blocks| then Some(index) else None
      ensures index < |blocks| ==> pos <= |blocks[index]|
    {
      if index == |blocks| {
        data := None;
      } else if data != Some(index) {
        data, pos := Some(index), |blocks[index]|;
      }
    }

    /** Below the range before (index, pos), in the range from there on. */
    ghost predicate StartsAt(r: Range)
      requires Inv()
      reads this
    {
      && (forall i, j :: 0 <= i < index && 0 <= j < |blocks[i]| ==> !r.Holds(blocks[i][j].key))
      && (forall i, j :: index < i < |blocks| && 0 <= j < |blocks[i]| ==> r.Holds(blocks[i][j].key))
      && (index < |blocks| ==> data.Some? && FirstIn(blocks[index], pos, r))
    }

    method SkipEmptyDataBlocksForward(ghost r: Range)
      requires Inv() && StartsAt(r)
      modifies this
      ensures Inv() && OnFirst(r)
    {
      while data.None? || pos == |blocks[data.value]|
        invariant Inv() && StartsAt(r)
        decreases |blocks| - index, data.Some?
      {
        // The block is exhausted: on to its neighbour
        if index == |blocks| {
          data := None;
          return;
        }
        index := index + 1;
        InitDataBlock();
        if data.Some? {
          pos := 0;
        }
      }
      ValidIsFirst(r);
    }

    lemma ValidIsFirst(r: Range)
      requires Inv() && StartsAt(r) && Valid()
      ensures OnFirst(r)
    {
      forall i, j | 0 <= i < |blocks| && 0 <= j < |blocks[i]| && r.Holds(blocks[i][j].key) ensures Current().key <= blocks[i][j].key {
        assert Current().key <= separators[index];
      }
    }

    /** In the range up to (index, pos), beyond it afterwards; `front` says that the index
        has been exhausted. */
    ghost predicate EndsAt(r: Range, front: bool)
      requires Inv()
      reads this
    {
      if front then index == |blocks| && forall i, j :: 0 <= i < |blocks| && 0 <= j < |blocks[i]| ==> !r.Holds(blocks[i][j].key)
      else
        && index < |blocks| && data.Some? && LastIn(blocks[index], pos, r)
        && (forall i, j :: 0 <= i < index && 0 <= j < |blocks[i]| ==> r.Holds(blocks[i][j].key))
        && (forall i, j :: index < i < |blocks| && 0 <= j < |blocks[i]| ==> !r.Holds(blocks[i][j].key))
    }

    method SkipEmptyDataBlocksBackward(ghost r: Range, ghost start: bool)
      requires Inv() && EndsAt(r, start)
      modifies this
      ensures Inv() && OnLast(r)
    {
      ghost var front := start;
      while data.None? || pos == |blocks[data.value]|
        invariant Inv() && EndsAt(r, front)
        decreases if front then 0 else index + 1
      {
        // Move to previous block
        if index == |blocks| {
          data := None;
          return;
        }
        front := index == 0;
        index := PrevOf(|blocks|, index);
        InitDataBlock();
        if data.Some? {
          pos := LastOf(|blocks[index]|);
        }
      }
      ValidIsLast(r, front);
    }

    lemma ValidIsLast(r: Range, front: bool)
      requires Inv() && EndsAt(r, front) && Valid()
      ensures OnLast(r)
    {
      forall i, j | 0 <= i < |blocks| && 0 <= j < |blocks[i]| && r.Holds(blocks[i][j].key) ensures blocks[i][j].key <= Current().key {
        assert blocks[i][j].key <= separators[i];
      }
    }

    method SeekToFirst()
      requires Inv()
      modifies this
      ensures Inv() && OnFirst(All)
    {
      index := 0;
      InitDataBlock();
      if data.Some? {
        pos := 0;
      }
      SkipEmptyDataBlocksForward(All);
    }

    method SeekToLast()
      requires Inv()
      modifies this
      ensures Inv() && OnLast(All)
    {
      index := LastOf(|blocks|);
      InitDataBlock();
      if data.Some? {
        pos := LastOf(|blocks[index]|);
      }
      SkipEmptyDataBlocksBackward(All, blocks == []);
    }

    /** First the block whose separator is not below the target, then the item in it. */
    method Seek(target: Key)
      requires Inv()
      modifies this
      ensures Inv() && OnFirst(From(target))
    {
      var i := 0;
      while i < |blocks| && separators[i] < target
        invariant i <= |blocks| && forall j :: 0 <= j < i ==> separators[j] < target
      {
        i := i + 1;
      }
      index := i;
      InitDataBlock();
      if data.Some? {
        pos := SeekIn(blocks[index], target);
      }
      SkipEmptyDataBlocksForward(From(target));
    }

    method Next()
      requires Inv() && Valid()
      modifies this
      ensures Inv() && OnFirst(After(old(Current().key)))
    {
      Around();
      pos := pos + 1;
      SkipEmptyDataBlocksForward(After(old(Current().key)));
    }

    method Prev()
      requires Inv() && Valid()
      modifies this
      ensures Inv() && OnLast(Before(old(Current().key)))
    {
      Around();
      pos := PrevOf(|blocks[index]|, pos);
      SkipEmptyDataBlocksBackward(Before(old(Current().key)), false);
    }

    /** Earlier blocks lie below the current key, later ones above. */
    lemma Around()
      requires Inv() && Valid()
      ensures forall i, j :: 0 <= i < index && 0 <= j < |blocks[i]| ==> blocks[i][j].key < Current().key
      ensures forall i, j :: index < i < |blocks| && 0 <= j < |blocks[i]| ==> Current().key < blocks[i][j].key
    {
      assert Current().key <= separators[index];
      forall i, j | 0 <= i < index && 0 <= j < |blocks[i]| ensures blocks[i][j].key < Current().key {
        assert blocks[i][j].key <= separators[i];
      }
    }
  }

  method SeekIn(s: seq<Item>, target: Key) returns (p: nat)
    requires Sorted(s)
    ensures FirstIn(s, p, From(target))
  {
    p := 0;
    while p < |s| && s[p].key < target
      invariant p <= |s| && forall j :: 0 <= j < p ==> s[j].key < target
    {
      p := p + 1;
    }
  }
}
