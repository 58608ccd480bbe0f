/** Table files as the level structure sees them: a number and the sorted entries.
    `FileMetaData::smallest` and `largest` are the first and last key of the table. */
module Tables {
  import opened DbFormat

  datatype Table = Table(number: nat, entries: seq<Entry>) {
    ghost predicate WellFormed() {
      |entries| > 0 && Sorted(entries)
    }

    function Smallest(): Entry
      requires |entries| > 0
    {
      entries[0]
    }

    function Largest(): Entry
      requires |entries| > 0
    {
      entries[|entries| - 1]
    }

    /** The user key lies in [smallest, largest]. */
    predicate Covers(k: UserKey)
      requires |entries| > 0
    {
      Smallest().key <= k <= Largest().key
    }

    /** The user-key range of the file meets [lo, hi]. */
    predicate Overlaps(lo: UserKey, hi: UserKey)
      requires |entries| > 0
    {
      Smallest().key <= hi && lo <= Largest().key
    }
  }

  /** A table that reached a level: never empty, keys strictly ascending. */
  type File = t: Table | t.WellFormed() witness Table(0, [Entry(0.0, 0, VALUE, [])])

  lemma FileBounds(f: File, e: Entry)
    requires e in f.entries
    ensures e == f.Smallest() || Precedes(f.Smallest(), e)
    ensures e == f.Largest() || Precedes(e, f.Largest())
    ensures f.Covers(e.key)
  {
    var i :| 0 <= i < |f.entries| && f.entries[i] == e;
  }

  /** Levels >= 1: files in key order, ranges disjoint as internal keys.  Two neighbours
      may still share a boundary user key. */
  ghost predicate Disjoint(files: seq<File>) {
    forall i, j :: 0 <= i < j < |files| ==> Precedes(files[i].Largest(), files[j].Smallest())
  }

  /** All entries of a set of files. */
  ghost function Contents(files: set<File>): set<Entry> {
    set f, e | f in files && e in f.entries :: e
  }
}
