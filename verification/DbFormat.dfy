/** Internal keys (db/dbformat.h, db/dbformat.cc).

    The code touches user keys only through `Comparator::Compare`, a total order
    chosen by the caller.  Every countable total order embeds in the rationals, so
    `UserKey` is `real` under `<` and no comparator is excluded. */
module DbFormat {
  type UserKey = real
  type Value = seq<bv8>

  const NUM_LEVELS := 7

  const MAX_SEQUENCE := 0xFF_FFFF_FFFF_FFFF
  type Sequence = n: nat | n <= MAX_SEQUENCE

  /** The low byte of the tag; only 0 and 1 are value types. */
  type KindByte = n: nat | n < 256
  const DELETION: KindByte := 0
  const VALUE: KindByte := 1
  const KIND_FOR_SEEK: KindByte := 1

  datatype Entry = Entry(key: UserKey, seqno: Sequence, kind: KindByte, value: Value) {
    function Tag(): nat { Pack(seqno, kind) }

    /** `ParseInternalKey` accepts the key. */
    predicate Parses() { kind <= VALUE }

    predicate IsDeletion() { kind == DELETION }
  }

  /** `PackSequenceAndType`: the 64-bit number stored after the user key. */
  function Pack(seqno: Sequence, kind: KindByte): nat {
    seqno * 256 + kind
  }

  /** `InternalKeyComparator::Compare(a, b) < 0`: user keys ascending, tags descending. */
  predicate KeyPrecedes(ak: UserKey, atag: nat, bk: UserKey, btag: nat) {
    ak < bk || (ak == bk && atag > btag)
  }

  predicate Precedes(a: Entry, b: Entry) {
    KeyPrecedes(a.key, a.Tag(), b.key, b.Tag())
  }

  /** `Compare(e, target) < 0` for the target `(k, s, KIND_FOR_SEEK)` of a lookup. */
  predicate BeforeTarget(e: Entry, k: UserKey, s: Sequence) {
    KeyPrecedes(e.key, e.Tag(), k, Pack(s, KIND_FOR_SEEK))
  }

  ghost predicate Sorted(es: seq<Entry>) {
    forall i, j :: 0 <= i < j < |es| ==> Precedes(es[i], es[j])
  }

  function Elems(es: seq<Entry>): set<Entry> {
    set e | e in es
  }
}
