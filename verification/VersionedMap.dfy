/** What a LevelDB database means: a versioned map.

    `Read(E, k, s)` is the value of user key `k` at snapshot `s` when the database
    holds the entries `E`: the newest entry of `k` at or below `s` decides, and a
    deletion reads as absent.  Every structure of the project is compared with it. */
module VersionedMap {
  import opened DbFormat

  datatype Answer = Absent | Found(value: Value)

  predicate Visible(e: Entry, k: UserKey, s: Sequence) {
    e.key == k && e.seqno <= s && e.Parses()
  }

  ghost predicate Newest(e: Entry, E: set<Entry>, k: UserKey, s: Sequence) {
    && e in E
    && Visible(e, k, s)
    && forall x :: x in E && Visible(x, k, s) ==> x.seqno <= e.seqno
  }

  function AnswerOf(e: Entry): Answer {
    if e.IsDeletion() then Absent else Found(e.value)
  }

  ghost function TheNewest(E: set<Entry>, k: UserKey, s: Sequence): Entry
    requires exists x :: Newest(x, E, k, s)
  {
    var e :| Newest(e, E, k, s); e
  }

  ghost function Read(E: set<Entry>, k: UserKey, s: Sequence): Answer {
    if exists e :: Newest(e, E, k, s) then AnswerOf(TheNewest(E, k, s)) else Absent
  }

  /** A user key has at most one entry per sequence number. */
  ghost predicate Functional(E: set<Entry>) {
    forall a, b :: a in E && b in E && a.key == b.key && a.seqno == b.seqno ==> a == b
  }

  /** For one user key, everything in `N` is newer than everything in `O`. */
  ghost predicate NewerThan(N: set<Entry>, O: set<Entry>) {
    forall a, b :: a in N && b in O && a.key == b.key ==> a.seqno > b.seqno
  }

  lemma ReadIs(E: set<Entry>, k: UserKey, s: Sequence, e: Entry)
    requires Functional(E) && Newest(e, E, k, s)
    ensures Read(E, k, s) == AnswerOf(e)
  {
    assert TheNewest(E, k, s) == e;
  }

  lemma {:induction false} NewestExists(E: set<Entry>, k: UserKey, s: Sequence)
    requires exists e :: e in E && Visible(e, k, s)
    ensures exists e :: Newest(e, E, k, s)
    decreases E
  {
    var e :| e in E && Visible(e, k, s);
    var rest := E - {e};
    if exists x :: x in rest && Visible(x, k, s) {
      NewestExists(rest, k, s);
      var n :| Newest(n, rest, k, s);
      var best := if n.seqno < e.seqno then e else n;
      assert Newest(best, E, k, s);
    } else {
      forall x | x in E && Visible(x, k, s) ensures x.seqno <= e.seqno {
        assert x in rest || x == e;
      }
      assert Newest(e, E, k, s);
    }
  }

  /** Reading newer data in front of older data: the newer layer decides whenever it
      holds anything visible, otherwise the older layer does. */
  lemma ReadLayered(N: set<Entry>, O: set<Entry>, k: UserKey, s: Sequence)
    requires Functional(N + O) && NewerThan(N, O)
    ensures Read(N + O, k, s) == if exists e :: e in N && Visible(e, k, s) then Read(N, k, s) else Read(O, k, s)
  {
    if exists e :: e in N && Visible(e, k, s) {
      NewestExists(N, k, s);
      var n :| Newest(n, N, k, s);
      assert Newest(n, N + O, k, s);
      ReadIs(N, k, s, n);
      ReadIs(N + O, k, s, n);
    } else if exists e :: e in O && Visible(e, k, s) {
      NewestExists(O, k, s);
      var n :| Newest(n, O, k, s);
      assert Newest(n, N + O, k, s);
      ReadIs(O, k, s, n);
      ReadIs(N + O, k, s, n);
    } else {
      forall e ensures !Newest(e, N + O, k, s) && !Newest(e, O, k, s) {
      }
    }
  }

  /** Sets that agree on what is visible read alike. */
  lemma ReadAgrees(A: set<Entry>, B: set<Entry>, k: UserKey, s: Sequence)
    requires Functional(A) && Functional(B)
    requires forall e :: Visible(e, k, s) ==> (e in A <==> e in B)
    ensures Read(A, k, s) == Read(B, k, s)
  {
    forall e ensures Newest(e, A, k, s) <==> Newest(e, B, k, s) {
    }
    if e :| Newest(e, A, k, s) {
      ReadIs(A, k, s, e);
      ReadIs(B, k, s, e);
    }
  }
}
