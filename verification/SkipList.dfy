/** The skip list (db/skiplist.h) with one writer and readers that take no lock.

    Shared memory is a map from (node, level) to the pointer stored there; a place that was
    never written is not in the map.  One step is one load or store by the writer or by the
    reader, in any interleaving (sequentially consistent).  Nodes are named by their keys,
    which are immutable and distinct. */
module SkipList {
  import opened Wrappers

  type Key = real

  const MAX_HEIGHT := 12

  datatype Node = Head | At(key: Key)
  type Place = (Node, nat)

  /** The three searches: FindGreaterOrEqual, FindLessThan and FindLast. */
  datatype Goal = AtOrAfter(target: Key) | Before(target: Key) | Last {
    /** The search moves on to a node with this key. */
    predicate Passes(k: Key) {
      Last? || k < target
    }
  }

  /** Insert at one level: the pointer of the node before is loaded, stored in the new node,
      and then the new node is published. */
  datatype Stage = ToLoad | Loaded(link: Option<Key>) | Filled

  datatype Writer =
    | Quiet
    | Searching(key: Key, x: Node, level: nat, prev: map<nat, Node>)
    | Found(key: Key, prev: map<nat, Node>)
    | Linking(key: Key, height: nat, i: nat, stage: Stage, prev: map<nat, Node>)

  /** The reader looks for something, or holds an iterator position (None: not valid). */
  datatype Reader =
    | Holding(node: Option<Key>)
    | Looking(goal: Goal, x: Node, level: nat)

  /** `linked[l]` records which keys have been published at level `l`. */
  datatype State = State(next: map<Place, Option<Key>>, maxHeight: nat, linked: seq<set<Key>>,
                         writer: Writer, reader: Reader)

  // ------------------------------------------------------------------------ order

  predicate Precedes(n: Node, k: Key) {
    n.Head? || n.key < k
  }

  predicate On(keys: set<Key>, n: Node) {
    n.Head? || n.key in keys
  }

  /** `r` is the first of `keys` behind `n`. */
  ghost predicate IsNext(keys: set<Key>, n: Node, r: Option<Key>) {
    match r
    case None => forall k :: k in keys ==> !Precedes(n, k)
    case Some(m) => m in keys && Precedes(n, m) && forall k :: k in keys && Precedes(n, k) ==> m <= k
  }

  /** What a search must return for the keys in the list. */
  ghost predicate Answers(keys: set<Key>, goal: Goal, r: Option<Key>) {
    match goal
    case AtOrAfter(t) =>
      (match r
       case None => forall k :: k in keys ==> k < t
       case Some(m) => m in keys && t <= m && forall k :: k in keys && t <= k ==> m <= k)
    case _ =>
      (match r
       case None => forall k :: k in keys ==> !goal.Passes(k)
       case Some(m) => m in keys && goal.Passes(m) && forall k :: k in keys && goal.Passes(k) ==> k <= m)
  }

  // ------------------------------------------------------------------------ steps

  ghost predicate Init(s: State) {
    && s.next == (map l | 0 <= l < MAX_HEIGHT :: (Head, l) := None)
    && s.maxHeight == 1
    && s.linked == seq(MAX_HEIGHT, _ => {})
    && s.writer == Quiet && s.reader == Holding(None)
  }

  /** Insert starts; its caller guarantees that the key is new. */
  ghost predicate BeginInsert(s: State, s': State, key: Key) {
    && s.writer == Quiet && s.linked != [] && s.maxHeight > 0 && key !in s.linked[0]
    && s' == s.(writer := Searching(key, Head, s.maxHeight - 1, map[]))
  }

  /** One round of the writer's FindGreaterOrEqual. */
  ghost predicate WriterLoad(s: State, s': State) {
    && s.writer.Searching? && (s.writer.x, s.writer.level) in s.next
    && var w, link := s.writer, s.next[(s.writer.x, s.writer.level)];
       s' == s.(writer :=
         if link.Some? && link.value < w.key then w.(x := At(link.value))
         else if w.level == 0 then Found(w.key, w.prev[0 := w.x])
         else w.(level := w.level - 1, prev := w.prev[w.level := w.x]))
  }

  /** `prev[i] = head_` on the levels lo..hi-1. */
  function HeadFrom(lo: nat, hi: nat): map<nat, Node>
    decreases hi - lo
  {
    if hi <= lo then map[] else HeadFrom(lo + 1, hi)[lo := Head]
  }

  lemma {:induction false} HeadFromIs(lo: nat, hi: nat, l: nat)
    ensures l in HeadFrom(lo, hi) <==> lo <= l < hi
    ensures l in HeadFrom(lo, hi) ==> HeadFrom(lo, hi)[l] == Head
    decreases hi - lo
  {
    if lo < hi {
      HeadFromIs(lo + 1, hi, l);
    }
  }

  /** A random height; new levels start at the head, and max_height_ is stored first. */
  ghost predicate ChooseHeight(s: State, s': State, height: nat) {
    && s.writer.Found? && 1 <= height <= MAX_HEIGHT
    && var prev := s.writer.prev + HeadFrom(s.maxHeight, height);
       s' == s.(maxHeight := if height > s.maxHeight then height else s.maxHeight,
                writer := Linking(s.writer.key, height, 0, ToLoad, prev))
  }

  /** `prev[i]->NoBarrier_Next(i)`. */
  ghost predicate LoadPointer(s: State, s': State) {
    && s.writer.Linking? && s.writer.stage.ToLoad?
    && s.writer.i in s.writer.prev && (s.writer.prev[s.writer.i], s.writer.i) in s.next
    && s' == s.(writer := s.writer.(stage := Loaded(s.next[(s.writer.prev[s.writer.i], s.writer.i)])))
  }

  /** `x->NoBarrier_SetNext(i, ...)`. */
  ghost predicate FillPointer(s: State, s': State) {
    && s.writer.Linking? && s.writer.stage.Loaded?
    && var w := s.writer;
       s' == s.(next := s.next[(At(w.key), w.i) := w.stage.link], writer := w.(stage := Filled))
  }

  /** `prev[i]->SetNext(i, x)`. */
  ghost predicate Publish(s: State, s': State) {
    && s.writer.Linking? && s.writer.stage.Filled? && s.writer.i in s.writer.prev && s.writer.i < |s.linked|
    && var w := s.writer;
       s' == s.(next := s.next[(w.prev[w.i], w.i) := Some(w.key)],
                linked := s.linked[w.i := s.linked[w.i] + {w.key}],
                writer := if w.i + 1 == w.height then Quiet else w.(i := w.i + 1, stage := ToLoad))
  }

  /** Seek, SeekToLast, or Prev (which seeks before the current key) starts. */
  ghost predicate BeginSearch(s: State, s': State, goal: Goal) {
    && s.reader.Holding? && s.maxHeight > 0
    && s' == s.(reader := Looking(goal, Head, s.maxHeight - 1))
  }

  ghost predicate StopsAt(goal: Goal, link: Option<Key>) {
    link.None? || !goal.Passes(link.value)
  }

  /** What a search returns when it stops at level 0: an iterator turns the head into
      "not valid". */
  function Found0(goal: Goal, x: Node, link: Option<Key>): Option<Key> {
    if goal.AtOrAfter? then link else match x case Head => None case At(k) => Some(k)
  }

  /** One round of a reader's search. */
  ghost predicate ReaderLoad(s: State, s': State) {
    && s.reader.Looking? && (s.reader.x, s.reader.level) in s.next
    && var r, link := s.reader, s.next[(s.reader.x, s.reader.level)];
       s' == s.(reader :=
         if !StopsAt(r.goal, link) then r.(x := At(link.value))
         else if r.level == 0 then Holding(Found0(r.goal, r.x, link))
         else r.(level := r.level - 1))
  }

  /** SeekToFirst and Next: one load at level 0. */
  ghost predicate ReaderNext(s: State, s': State, n: Node) {
    && s.reader.Holding? && (n.At? ==> s.reader.node == Some(n.key)) && (n, 0) in s.next
    && s' == s.(reader := Holding(s.next[(n, 0)]))
  }

  ghost predicate Next(s: State, s': State) {
    || (exists key :: BeginInsert(s, s', key)) || WriterLoad(s, s') || (exists h :: ChooseHeight(s, s', h))
    || LoadPointer(s, s') || FillPointer(s, s') || Publish(s, s')
    || (exists goal :: BeginSearch(s, s', goal)) || ReaderLoad(s, s') || (exists n :: ReaderNext(s, s', n))
  }

  // -------------------------------------------------------------------- invariant

  /** At level `l` the pointers from the head run through exactly `linked[l]`, in order. */
  ghost predicate LevelOk(next: map<Place, Option<Key>>, keys: set<Key>, l: nat) {
    forall n: Node :: On(keys, n) ==> (n, l) in next && IsNext(keys, n, next[(n, l)])
  }

  ghost predicate ListOk(s: State) {
    && |s.linked| == MAX_HEIGHT
    && 0 < s.maxHeight <= MAX_HEIGHT
    && (forall l :: 0 <= l < MAX_HEIGHT ==> LevelOk(s.next, s.linked[l], l))
    && (forall l :: 0 <= l < MAX_HEIGHT - 1 ==> s.linked[l + 1] <= s.linked[l])
    && (forall l :: s.maxHeight <= l < MAX_HEIGHT ==> s.linked[l] == {})
  }

  /** `n` is the last node before `key`. */
  ghost predicate IsPrev(keys: set<Key>, n: Node, key: Key) {
    On(keys, n) && Precedes(n, key) && forall k :: k in keys && k < key ==> !Precedes(n, k)
  }

  ghost predicate PrevOk(s: State, prev: map<nat, Node>, key: Key, lo: nat, hi: nat)
    requires |s.linked| == MAX_HEIGHT
  {
    forall l :: lo <= l < hi && l < MAX_HEIGHT ==> l in prev && IsPrev(s.linked[l], prev[l], key)
  }

  ghost predicate WriterOk(s: State)
    requires |s.linked| == MAX_HEIGHT
  {
    match s.writer
    case Quiet => true
    case Searching(key, x, level, prev) =>
      && level < s.maxHeight <= MAX_HEIGHT && key !in s.linked[0]
      && On(s.linked[level], x) && Precedes(x, key)
      && PrevOk(s, prev, key, level + 1, s.maxHeight)
    case Found(key, prev) => key !in s.linked[0] && PrevOk(s, prev, key, 0, s.maxHeight)
    case Linking(key, height, i, stage, prev) =>
      && i < height <= s.maxHeight
      && PrevOk(s, prev, key, i, height)
      && (forall l :: 0 <= l < MAX_HEIGHT ==> (key in s.linked[l] <==> l < i))
      && (!stage.ToLoad? ==> i in prev && (prev[i], i) in s.next)
      && (stage.Loaded? ==> stage.link == s.next[(prev[i], i)])
      && (stage.Filled? ==> (At(key), i) in s.next && s.next[(At(key), i)] == s.next[(prev[i], i)])
  }

  ghost predicate ReaderOk(s: State)
    requires |s.linked| == MAX_HEIGHT
  {
    match s.reader
    case Holding(node) => node.Some? ==> node.value in s.linked[0]
    case Looking(goal, x, level) =>
      && level < s.maxHeight <= MAX_HEIGHT
      && On(s.linked[level], x) && (x.At? ==> goal.Passes(x.key))
  }

  ghost predicate Inv(s: State) {
    ListOk(s) && WriterOk(s) && ReaderOk(s)
  }

  // ------------------------------------------------------------ the steps keep it

  /** A level that gains `key` between `p` and its old successor stays a sorted list. */
  lemma PublishKeepsLevel(next: map<Place, Option<Key>>, keys: set<Key>, l: nat, p: Node, key: Key)
    requires LevelOk(next, keys, l) && IsPrev(keys, p, key) && key !in keys
    requires (At(key), l) in next && (p, l) in next && next[(At(key), l)] == next[(p, l)]
    ensures LevelOk(next[(p, l) := Some(key)], keys + {key}, l)
  {
    var next', keys' := next[(p, l) := Some(key)], keys + {key};
    assert IsNext(keys, p, next[(p, l)]);
    forall n: Node | On(keys', n)
      ensures (n, l) in next' && IsNext(keys', n, next'[(n, l)])
    {
      if n == At(key) {
        SuccessorOfNew(keys, p, key, next[(p, l)]);
      } else if n != p {
        assert On(keys, n);
        OthersKeepNext(keys, p, key, n, next[(n, l)]);
      }
    }
  }

  lemma SuccessorOfNew(keys: set<Key>, p: Node, key: Key, r: Option<Key>)
    requires IsPrev(keys, p, key) && key !in keys && IsNext(keys, p, r)
    ensures IsNext(keys + {key}, At(key), r)
  {
  }

  lemma OthersKeepNext(keys: set<Key>, p: Node, key: Key, n: Node, r: Option<Key>)
    requires IsPrev(keys, p, key) && key !in keys && On(keys, n) && n != p && IsNext(keys, n, r)
    ensures IsNext(keys + {key}, n, r)
  {
    if Precedes(n, key) && p.At? {
      assert n.At? ==> !Precedes(p, n.key);
      assert Precedes(n, p.key);
    }
  }

  lemma PublishKeepsList(s: State, s': State)
    requires Inv(s) && Publish(s, s')
    ensures ListOk(s')
  {
    var w := s.writer;
    assert LevelOk(s.next, s.linked[w.i], w.i);
    PublishKeepsLevel(s.next, s.linked[w.i], w.i, w.prev[w.i], w.key);
    forall l | 0 <= l < MAX_HEIGHT ensures LevelOk(s'.next, s'.linked[l], l) {
      assert LevelOk(s.next, s.linked[l], l);
    }
  }

  lemma PublishKeepsWriter(s: State, s': State)
    requires Inv(s) && Publish(s, s')
    ensures WriterOk(s')
  {
  }

  lemma PublishKeepsInv(s: State, s': State)
    requires Inv(s) && Publish(s, s')
    ensures Inv(s')
  {
    PublishKeepsList(s, s');
    PublishKeepsWriter(s, s');
  }

  lemma LoadKeepsInv(s: State, s': State)
    requires Inv(s) && LoadPointer(s, s')
    ensures Inv(s')
  {
  }

  lemma FillKeepsInv(s: State, s': State)
    requires Inv(s) && FillPointer(s, s')
    ensures Inv(s')
  {
    forall l | 0 <= l < MAX_HEIGHT ensures LevelOk(s'.next, s'.linked[l], l) {
      assert LevelOk(s.next, s.linked[l], l);
    }
  }

  lemma WriterLoadKeepsInv(s: State, s': State)
    requires Inv(s) && WriterLoad(s, s')
    ensures Inv(s')
  {
    var w := s.writer;
    assert LevelOk(s.next, s.linked[w.level], w.level);
    assert IsNext(s.linked[w.level], w.x, s.next[(w.x, w.level)]);
  }

  lemma ReaderLoadKeepsInv(s: State, s': State)
    requires Inv(s) && ReaderLoad(s, s')
    ensures Inv(s')
  {
    var r := s.reader;
    assert LevelOk(s.next, s.linked[r.level], r.level);
    assert IsNext(s.linked[r.level], r.x, s.next[(r.x, r.level)]);
  }

  /** Every level is a sublist of the lowest one. */
  lemma LowestHasAll(s: State)
    requires ListOk(s)
    ensures forall l :: 0 <= l < MAX_HEIGHT ==> s.linked[l] <= s.linked[0]
  {
    forall l | 0 <= l < MAX_HEIGHT ensures s.linked[l] <= s.linked[0] {
      SublistOf(s, 0, l);
    }
  }

  lemma {:induction false} SublistOf(s: State, lo: nat, hi: nat)
    requires ListOk(s) && lo <= hi < MAX_HEIGHT
    ensures s.linked[hi] <= s.linked[lo]
    decreases hi
  {
    if lo < hi {
      SublistOf(s, lo, hi - 1);
    }
  }

  lemma ChooseHeightKeepsInv(s: State, s': State, height: nat)
    requires Inv(s) && ChooseHeight(s, s', height)
    ensures Inv(s')
  {
    LowestHasAll(s);
    forall l: nat | s.maxHeight <= l < height ensures l in s'.writer.prev && s'.writer.prev[l] == Head {
      HeadFromIs(s.maxHeight, height, l);
    }
    forall l: nat | l < s.maxHeight ensures l !in HeadFrom(s.maxHeight, height) {
      HeadFromIs(s.maxHeight, height, l);
    }
  }

  lemma BeginKeepsInv(s: State, s': State)
    requires Inv(s) && ((exists key :: BeginInsert(s, s', key)) || exists goal :: BeginSearch(s, s', goal))
    ensures Inv(s')
  {
  }

  lemma ReaderNextKeepsInv(s: State, s': State, n: Node)
    requires Inv(s) && ReaderNext(s, s', n)
    ensures Inv(s')
  {
    assert LevelOk(s.next, s.linked[0], 0);
    assert On(s.linked[0], n);
  }

  lemma StepKeepsInv(s: State, s': State)
    requires Inv(s) && Next(s, s')
    ensures Inv(s')
  {
    hide Inv, BeginInsert, WriterLoad, ChooseHeight, LoadPointer, FillPointer, Publish, BeginSearch, ReaderLoad, ReaderNext;
    if key :| BeginInsert(s, s', key) {
      BeginKeepsInv(s, s');
    } else if WriterLoad(s, s') {
      WriterLoadKeepsInv(s, s');
    } else if h :| ChooseHeight(s, s', h) {
      ChooseHeightKeepsInv(s, s', h);
    } else if LoadPointer(s, s') {
      LoadKeepsInv(s, s');
    } else if FillPointer(s, s') {
      FillKeepsInv(s, s');
    } else if Publish(s, s') {
      PublishKeepsInv(s, s');
    } else if goal :| BeginSearch(s, s', goal) {
      BeginKeepsInv(s, s');
    } else if ReaderLoad(s, s') {
      ReaderLoadKeepsInv(s, s');
    } else {
      var n :| ReaderNext(s, s', n);
      ReaderNextKeepsInv(s, s', n);
    }
  }

  // ---------------------------------------------------------------- over every run

  ghost predicate StepAt(states: seq<State>, i: nat)
    requires i + 1 < |states|
  {
    Next(states[i], states[i + 1])
  }

  ghost predicate Run(states: seq<State>) {
    && states != []
    && Init(states[0])
    && forall i :: 0 <= i < |states| - 1 ==> StepAt(states, i)
  }

  lemma InitEstablishesInv(s: State)
    requires Init(s)
    ensures Inv(s)
  {
    forall l | 0 <= l < MAX_HEIGHT ensures LevelOk(s.next, s.linked[l], l) {
      assert (Head, l) in s.next;
    }
  }

  lemma {:induction false} RunsKeepInv(states: seq<State>, n: nat)
    requires Run(states) && n < |states|
    ensures Inv(states[n])
  {
    if n == 0 {
      InitEstablishesInv(states[0]);
    } else {
      RunsKeepInv(states, n - 1);
      assert StepAt(states, n - 1);
      StepKeepsInv(states[n - 1], states[n]);
    }
  }

  /** The keys behind a node. */
  ghost function Behind(keys: set<Key>, n: Node): set<Key> {
    set k | k in keys && Precedes(n, k)
  }

  /** The list one gets by following the pointers of level `l` from `n`. */
  ghost function Walk(s: State, n: Node, l: nat): seq<Key>
    requires ListOk(s) && l < MAX_HEIGHT && On(s.linked[l], n)
    decreases |Behind(s.linked[l], n)|
  {
    assert LevelOk(s.next, s.linked[l], l);
    assert IsNext(s.linked[l], n, s.next[(n, l)]);
    match s.next[(n, l)]
    case None => []
    case Some(k) =>
      Shrinks(s.linked[l], n, k);
      [k] + Walk(s, At(k), l)
  }

  lemma Shrinks(keys: set<Key>, n: Node, k: Key)
    requires k in keys && Precedes(n, k)
    ensures |Behind(keys, At(k))| < |Behind(keys, n)|
  {
    var after, before := Behind(keys, At(k)), Behind(keys, n);
    assert k !in after && |after + {k}| == |after| + 1;
    assert before * (after + {k}) == after + {k};
    assert |before - (after + {k})| == |before| - |after + {k}|;
  }

  lemma {:induction false} WalkIsSorted(s: State, n: Node, l: nat)
    requires ListOk(s) && l < MAX_HEIGHT && On(s.linked[l], n)
    ensures var w := Walk(s, n, l);
            && (forall i, j :: 0 <= i < j < |w| ==> w[i] < w[j])
            && (forall k :: k in w <==> k in Behind(s.linked[l], n))
    decreases |Behind(s.linked[l], n)|
  {
    assert LevelOk(s.next, s.linked[l], l);
    assert IsNext(s.linked[l], n, s.next[(n, l)]);
    if s.next[(n, l)].Some? {
      var k := s.next[(n, l)].value;
      Shrinks(s.linked[l], n, k);
      WalkIsSorted(s, At(k), l);
      var w, rest := Walk(s, n, l), Walk(s, At(k), l);
      assert w == [k] + rest;
      forall x ensures x in w <==> x in Behind(s.linked[l], n) {
        assert x in w <==> x == k || x in rest;
      }
      forall i, j | 0 <= i < j < |w| ensures w[i] < w[j] {
        assert w[j] in rest;
      }
    }
  }

  /** In every reachable state, also in the middle of an insertion, each level walked from
      the head is sorted, without repetition, and its keys are among those of the level
      below. */
  lemma LevelsAreSortedSublists(states: seq<State>, n: nat, l: nat)
    requires Run(states) && n < |states| && l + 1 < MAX_HEIGHT
    ensures ListOk(states[n])
    ensures var upper, lower := Walk(states[n], Head, l + 1), Walk(states[n], Head, l);
            && (forall i, j :: 0 <= i < j < |upper| ==> upper[i] < upper[j])
            && (forall i, j :: 0 <= i < j < |lower| ==> lower[i] < lower[j])
            && (forall k :: k in upper ==> k in lower)
  {
    RunsKeepInv(states, n);
    WalkIsSorted(states[n], Head, l);
    WalkIsSorted(states[n], Head, l + 1);
  }

  /** A reader never loads a pointer that was not written. */
  lemma ReaderLoadsAreInitialised(states: seq<State>, n: nat)
    requires Run(states) && n < |states| && states[n].reader.Looking?
    ensures (states[n].reader.x, states[n].reader.level) in states[n].next
  {
    RunsKeepInv(states, n);
    var s := states[n];
    assert LevelOk(s.next, s.linked[s.reader.level], s.reader.level);
  }

  /** A finished search gave the exact answer for the list at the moment of its last load,
      whatever the writer did during the search. */
  lemma SearchIsExact(states: seq<State>, n: nat)
    requires Run(states) && n + 1 < |states|
    requires ReaderLoad(states[n], states[n + 1]) && states[n + 1].reader.Holding?
    ensures ListOk(states[n])
    ensures Answers(states[n].linked[0], states[n].reader.goal, states[n + 1].reader.node)
  {
    RunsKeepInv(states, n);
    var s, r := states[n], states[n].reader;
    assert LevelOk(s.next, s.linked[0], 0);
    assert IsNext(s.linked[0], r.x, s.next[(r.x, 0)]);
  }

  /** Next moves to the exact successor at the moment of its load. */
  lemma NextIsExact(states: seq<State>, n: nat, x: Node)
    requires Run(states) && n + 1 < |states| && ReaderNext(states[n], states[n + 1], x)
    ensures ListOk(states[n]) && On(states[n].linked[0], x)
    ensures IsNext(states[n].linked[0], x, states[n + 1].reader.node)
  {
    RunsKeepInv(states, n);
    assert LevelOk(states[n].next, states[n].linked[0], 0);
  }

  /** A key enters the list at one step, the store at level 0, and never leaves. */
  lemma InsertionIsOneStep(states: seq<State>, n: nat)
    requires Run(states) && n + 1 < |states|
    ensures ListOk(states[n]) && ListOk(states[n + 1])
    ensures var s, s' := states[n], states[n + 1];
            if s.writer.Linking? && s.writer.stage.Filled? && s.writer.i == 0 && s.writer != s'.writer
            then s.writer.key !in s.linked[0] && s'.linked[0] == s.linked[0] + {s.writer.key}
            else s'.linked[0] == s.linked[0]
  {
    RunsKeepInv(states, n);
    RunsKeepInv(states, n + 1);
    assert StepAt(states, n);
  }

  // -------------------------------------------------------------------- one run

  /** The steps of inserting into an empty list. */
  lemma InsertFirst(s0: State, key: Key) returns (s1: State, s2: State, s3: State, s4: State, s5: State, s6: State)
    requires Init(s0)
    ensures Next(s0, s1) && Next(s1, s2) && Next(s2, s3) && Next(s3, s4) && Next(s4, s5) && Next(s5, s6)
    ensures s6.reader == s0.reader && (Head, 0) in s6.next && s6.next[(Head, 0)] == Some(key)
    ensures s6.linked != [] && s6.linked[0] == {key} && s6.maxHeight == 1
  {
    s1 := s0.(writer := Searching(key, Head, 0, map[]));
    assert BeginInsert(s0, s1, key);
    s2 := s1.(writer := Found(key, map[0 := Head]));
    assert WriterLoad(s1, s2);
    var prev := map[0 := Head] + HeadFrom(1, 1);
    s3 := s2.(writer := Linking(key, 1, 0, ToLoad, prev));
    assert ChooseHeight(s2, s3, 1);
    s4 := s3.(writer := Linking(key, 1, 0, Loaded(None), prev));
    assert LoadPointer(s3, s4);
    s5 := s4.(next := s4.next[(At(key), 0) := None], writer := Linking(key, 1, 0, Filled, prev));
    assert FillPointer(s4, s5);
    s6 := s5.(next := s5.next[(Head, 0) := Some(key)], linked := s5.linked[0 := s5.linked[0] + {key}], writer := Quiet);
    assert Publish(s5, s6);
  }

  /** The steps of finding a key that the head points to. */
  lemma FindFirst(s6: State, key: Key) returns (s7: State, s8: State)
    requires s6.reader.Holding? && s6.maxHeight == 1 && (Head, 0) in s6.next && s6.next[(Head, 0)] == Some(key)
    ensures Next(s6, s7) && Next(s7, s8) && s8 == s6.(reader := Holding(Some(key)))
  {
    s7 := s6.(reader := Looking(AtOrAfter(key), Head, 0));
    assert BeginSearch(s6, s7, AtOrAfter(key));
    s8 := s7.(reader := Holding(Some(key)));
    assert ReaderLoad(s7, s8);
  }

  lemma StartsQuiet(s: State)
    requires Init(s)
    ensures s.reader.Holding?
  {
  }

  /** A run in which one key is inserted and then found. */
  lemma InsertThenFind(s0: State, key: Key) returns (states: seq<State>)
    requires Init(s0)
    ensures Run(states) && states[0] == s0 && |states| == 9
    ensures states[8].linked != [] && states[8].linked[0] == {key} && states[8].reader == Holding(Some(key))
  {
    hide Init, Next;
    var s1, s2, s3, s4, s5, s6 := InsertFirst(s0, key);
    StartsQuiet(s0);
    var s7, s8 := FindFirst(s6, key);
    states := [s0, s1, s2, s3, s4, s5, s6, s7, s8];
    forall i | 0 <= i < |states| - 1 ensures StepAt(states, i) {
    }
  }
}
