/** The compaction loop as it runs: never-rewound base-level cursors and the loop that
    cuts the surviving entries into output files. */
module CompactionLoop {
  import opened DbFormat
  import opened Tables
  import opened VersionedMap
  import opened Compaction

  /** The part of `Compaction` that answers the base-level test (db/version_set.h).  One
      cursor per deeper level; user keys must arrive in ascending order. */
  class BaseLevelCursors {
    const deeper: seq<seq<File>>
    const levelPtrs: array<nat>

    // The last user key asked for, once there is one.
    ghost var started: bool
    ghost var lastKey: UserKey

    ghost predicate Valid()
      reads this, levelPtrs
    {
      && DeeperLevels(deeper)
      && levelPtrs.Length == |deeper|
      && (forall l :: 0 <= l < |deeper| ==> levelPtrs[l] <= |deeper[l]|)
      && (forall l, i :: 0 <= l < |deeper| && 0 <= i < levelPtrs[l] ==> started && deeper[l][i].Largest().key < lastKey)
    }

    ghost predicate MayAsk(k: UserKey)
      reads this
    {
      started ==> lastKey <= k
    }

    constructor (deeper: seq<seq<File>>)
      requires DeeperLevels(deeper)
      ensures Valid() && !started && this.deeper == deeper && fresh(levelPtrs)
    {
      this.deeper := deeper;
      levelPtrs := new nat[|deeper|](_ => 0);
      started := false;
    }

    method IsBaseLevelForKey(k: UserKey) returns (isBase: bool)
      requires Valid() && MayAsk(k)
      modifies this, levelPtrs
      ensures Valid() && started && lastKey == k
      ensures isBase <==> IsBaseLevel(deeper, k)
    {
      started, lastKey := true, k;
      for lvl := 0 to |deeper|
        invariant Valid() && started && lastKey == k
        invariant forall l, f :: 0 <= l < lvl && f in deeper[l] ==> !f.Covers(k)
      {
        var files := deeper[lvl];
        while levelPtrs[lvl] < |files|
          invariant Valid() && started && lastKey == k
          decreases |files| - levelPtrs[lvl]
        {
          var f := files[levelPtrs[lvl]];
          if k <= f.Largest().key {
            // The cursor is at the only file that can cover k
            if k >= f.Smallest().key {
              assert f in deeper[lvl] && f.Covers(k);
              return false;
            }
            break;
          }
          levelPtrs[lvl] := levelPtrs[lvl] + 1;
        }
        forall f | f in files ensures !f.Covers(k) {
          var i :| 0 <= i < |files| && files[i] == f;
          if i > levelPtrs[lvl] {
            assert Precedes(files[levelPtrs[lvl]].Largest(), files[i].Smallest());
          }
        }
      }
      return true;
    }
  }

  /** `CompactionState::Output` together with what its table builder received. */
  datatype Output = Output(smallest: Entry, largest: Entry, entries: seq<Entry>) {
    ghost predicate WellFormed() {
      |entries| > 0 && smallest == entries[0] && largest == entries[|entries| - 1]
    }
  }

  ghost function Flatten(outputs: seq<Output>): seq<Entry> {
    if outputs == [] then [] else Flatten(outputs[..|outputs| - 1]) + outputs[|outputs| - 1].entries
  }

  /** Growing the open output by one entry grows the flattened outputs by that entry. */
  lemma FlattenSnoc(outputs: seq<Output>, o: Output)
    ensures Flatten(outputs + [o]) == Flatten(outputs) + o.entries
  {
    assert (outputs + [o])[..|outputs|] == outputs;
  }

  /** Opens an output file if none is being built, and adds an entry to it. */
  method AddOutput(outputs: seq<Output>, building: bool, key: Entry) returns (r: seq<Output>)
    requires building ==> outputs != []
    requires forall o :: o in outputs ==> o.WellFormed()
    ensures Flatten(r) == Flatten(outputs) + [key] && r != []
    ensures forall o :: o in r ==> o.WellFormed()
  {
    if !building {
      FlattenSnoc(outputs, Output(key, key, [key]));
      return outputs + [Output(key, key, [key])];
    }
    var open := outputs[|outputs| - 1];
    var finished := outputs[..|outputs| - 1];
    assert outputs == finished + [open];
    var grown := open.(largest := key, entries := open.entries + [key]);
    FlattenSnoc(finished, open);
    FlattenSnoc(finished, grown);
    assert open in outputs && grown.WellFormed();
    r := finished + [grown];
  }

  /** What is to be in the outputs: at the last sequence number only what does not parse. */
  ghost predicate Written(input: seq<Entry>, e: Entry, smallest: Sequence, deeper: seq<seq<File>>) {
    if smallest == MAX_SEQUENCE then e in input && !e.Parses() else Survives(Elems(input), e, smallest, deeper)
  }

  lemma WrittenIs(input: seq<Entry>, e: Entry, smallest: Sequence, deeper: seq<seq<File>>)
    requires Sorted(input) && DeeperLevels(deeper) && Functional(Elems(input))
    ensures e in Kept(input, |input|, smallest, deeper) <==> Written(input, e, smallest, deeper)
  {
    if smallest == MAX_SEQUENCE {
      EverythingDroppedAtMaxSequence(input, |input|, deeper);
      assert input[..|input|] == input;
    } else {
      OutputIs(input, smallest, deeper, e);
    }
  }

  /** The merge loop.  `stopBefore[i]` and `bigEnough[i]` are the answers of
      `ShouldStopBefore` and of the file-size test at entry `i`; the result holds for all
      of them. */
  method DoCompactionWork(input: seq<Entry>, smallestSnapshot: Sequence, compaction: BaseLevelCursors,
                          stopBefore: seq<bool>, bigEnough: seq<bool>) returns (outputs: seq<Output>)
    requires compaction.Valid() && !compaction.started
    requires Sorted(input) && |stopBefore| == |bigEnough| == |input|
    modifies compaction, compaction.levelPtrs
    ensures Flatten(outputs) == Kept(input, |input|, smallestSnapshot, compaction.deeper)
    ensures Sorted(Flatten(outputs)) && forall o :: o in outputs ==> o.WellFormed()
    ensures Functional(Elems(input)) ==> forall e :: e in Flatten(outputs) <==> Written(input, e, smallestSnapshot, compaction.deeper)
  {
    outputs := [];
    var building := false;
    var hasCurrentUserKey := false;
    var currentUserKey := 0.0;
    var lastSequenceForKey: Sequence := MAX_SEQUENCE;

    for i := 0 to |input|
      invariant compaction.Valid()
      invariant compaction.started ==> i > 0 && compaction.lastKey <= input[i - 1].key
      invariant hasCurrentUserKey <==> i > 0 && input[i - 1].Parses()
      invariant hasCurrentUserKey ==> currentUserKey == input[i - 1].key && lastSequenceForKey == input[i - 1].seqno
      invariant building ==> |outputs| > 0
      invariant Flatten(outputs) == Kept(input, i, smallestSnapshot, compaction.deeper)
      invariant forall o :: o in outputs ==> o.WellFormed()
    {
      var key := input[i];
      assert i > 0 ==> Precedes(input[i - 1], key);
      if stopBefore[i] && building {
        building := false;
      }

      var drop := false;
      if !key.Parses() {
        // An unparseable key hides nothing
        hasCurrentUserKey := false;
        lastSequenceForKey := MAX_SEQUENCE;
      } else {
        if !hasCurrentUserKey || key.key != currentUserKey {
          // A new user key starts
          currentUserKey := key.key;
          hasCurrentUserKey := true;
          lastSequenceForKey := MAX_SEQUENCE;
        }
        if lastSequenceForKey <= smallestSnapshot {
          drop := true;  // (A)
        } else if key.IsDeletion() && key.seqno <= smallestSnapshot {
          drop := compaction.IsBaseLevelForKey(key.key);
        }
        lastSequenceForKey := key.seqno;
      }
      assert drop <==> Dropped(input, i, smallestSnapshot, compaction.deeper);

      if !drop {
        outputs := AddOutput(outputs, building, key);
        building := !bigEnough[i];
      }
    }
    KeptSorted(input, |input|, smallestSnapshot, compaction.deeper);
    if Functional(Elems(input)) {
      forall e ensures e in Flatten(outputs) <==> Written(input, e, smallestSnapshot, compaction.deeper) {
        WrittenIs(input, e, smallestSnapshot, compaction.deeper);
      }
    }
  }
}
