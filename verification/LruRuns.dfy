/** What a client of the cache may rely on, over any sequence of calls: an entry that it
    holds stays alive, and in the cache until its key is erased or inserted anew. */
module LruRuns {
  import opened Wrappers
  import opened HandleTable
  import opened LruCache

  /** What a call does: an entry is found and taken, given back, erased by its key, or made and
      inserted; all evictable entries are pruned; or nothing happens to the entries. */
  datatype Op = Take(e: Handle) | GiveBack(e: Handle) | Drop(key: string, hash: nat) | Put(e: Handle) | Purge | Idle

  ghost predicate Drops(b: Books, key: string, hash: nat, b': Books) {
    (exists r: Handle :: r.Matches(key, hash) && LetsGo(b, r, b')) || (b' == b && forall r :: r in b.inCache ==> !r.Matches(key, hash))
  }

  ghost predicate Puts(b: Books, e: Handle, b': Books) {
    e !in b.refs && exists capacity: nat, displaced: Option<Handle>, n: nat :: Inserted(b, capacity, e, displaced, n, b')
  }

  ghost predicate Purges(b: Books, b': Books) {
    && b'.lru == [] && b'.inUse == b.inUse && b'.clients == b.clients
    && b'.freed == b.freed + b.lru && b'.inCache == b.inCache - Members(b.lru)
  }

  ghost predicate Step(b: Balanced, op: Op, b': Balanced) {
    match op
    case Take(e) => Takes(b, e, b')
    case GiveBack(e) => GivesBack(b, e, b')
    case Drop(key, hash) => Drops(b, key, hash, b')
    case Put(e) => Puts(b, e, b')
    case Purge => Purges(b, b')
    case Idle => b' == b
  }

  lemma StepOfBooks(b: Balanced, op: Op, b': Balanced)
    requires match op
             case Take(e) => Takes(b, e, b')
             case GiveBack(e) => GivesBack(b, e, b')
             case Drop(key, hash) => Drops(b, key, hash, b')
             case Put(e) => Puts(b, e, b')
             case Purge => Purges(b, b')
             case Idle => b' == b
    ensures Step(b, op, b')
  {
  }

  /** A call on the cache is a step. */
  datatype Call = Lookup(key: string, hash: nat) | Release(e: Handle) | Erase(key: string, hash: nat)
                | Insert(key: string, hash: nat, charge: nat) | Prune | SetCapacity(capacity: nat)

  method Perform(cache: Cache, call: Call) returns (e: Option<Handle>, ghost op: Op)
    requires cache.Valid() && (call.Release? ==> call.e in cache.books.clients)
    modifies cache, cache.table
    ensures cache.Valid() && Step(old(cache.books), op, cache.books)
    ensures match call
            case Lookup(key, hash) => op == (if e.Some? then Take(e.value) else Idle) && (e.Some? ==> e.value.Matches(key, hash))
            case Release(h) => op == GiveBack(h)
            case Erase(key, hash) => op == Drop(key, hash)
            case Insert(key, hash, charge) => e.Some? && op == Put(e.value) && e.value.Matches(key, hash)
            case Prune => op == Purge
            case SetCapacity(_) => op == Idle
  {
    hide Takes, GivesBack, LetsGo, Inserted, Ok, Step;
    e := None;
    match call
    case Lookup(key, hash) =>
      e := cache.Lookup(key, hash);
      op := if e.Some? then Take(e.value) else Idle;
      StepOfBooks(old(cache.books), op, cache.books);
    case Release(h) =>
      cache.Release(h);
      op := GiveBack(h);
      StepOfBooks(old(cache.books), op, cache.books);
    case Erase(key, hash) =>
      ghost var gone := cache.Erase(key, hash);
      op := Drop(key, hash);
      StepOfBooks(old(cache.books), op, cache.books);
    case Insert(key, hash, charge) =>
      var h; ghost var displaced; ghost var n;
      h, displaced, n := cache.Insert(key, hash, charge);
      e, op := Some(h), Put(h);
      StepOfBooks(old(cache.books), op, cache.books);
    case Prune =>
      cache.Prune();
      op := Purge;
      StepOfBooks(old(cache.books), op, cache.books);
    case SetCapacity(c) =>
      cache.SetCapacity(c);
      op := Idle;
      StepOfBooks(old(cache.books), op, cache.books);
  }

  // ------------------------------------------------------------------------ one step

  /** How many references to `e` the call hands out, less those it takes back. */
  function Gain(op: Op, e: Handle): int {
    if op == Take(e) || op == Put(e) then 1 else if op == GiveBack(e) then -1 else 0
  }

  /** The call erases the key of `e`, or inserts it anew. */
  predicate Renames(op: Op, e: Handle) {
    match op
    case Drop(key, hash) => e.Matches(key, hash)
    case Put(h) => e.Matches(h.key, h.hash)
    case _ => false
  }

  lemma StepCounts(b: Balanced, op: Op, b': Balanced, e: Handle)
    requires Step(b, op, b')
    ensures b'.clients[e] == b.clients[e] + Gain(op, e)
  {
    hide Ok, Loses, Charges, Over, Unlisted;
  }

  /** A live entry is one that a client holds or that is cached. */
  predicate Alive(b: Books, e: Handle) {
    e in b.clients || e in b.inCache
  }

  lemma AliveIs(b: Balanced, e: Handle)
    ensures Alive(b, e) <==> e in b.refs
    ensures Alive(b, e) ==> e !in b.freed
  {
  }

  lemma PutFrees(b: Balanced, h: Handle, b': Balanced, e: Handle)
    requires Puts(b, h, b')
    ensures b.freed <= b'.freed && Alive(b', h)
    ensures Alive(b, e) ==> Alive(b', e) || e in b'.freed
  {
    hide Ok, Loses, Charges, Over;
    var capacity: nat, displaced: Option<Handle>, n: nat :| Inserted(b, capacity, h, displaced, n, b');
    var gone := Unlisted(b.lru, displaced)[..n];
    assert b.freed <= FreedBy(b, displaced) <= b'.freed;
    assert e in gone ==> e in b'.freed;
    assert displaced == Some(e) && e !in b.clients ==> e in FreedBy(b, displaced);
  }

  /** Nothing that was freed comes back, and nothing disappears without being freed. */
  lemma StepFrees(b: Balanced, op: Op, b': Balanced, e: Handle)
    requires Step(b, op, b')
    ensures b.freed <= b'.freed
    ensures Alive(b, e) ==> Alive(b', e) || e in b'.freed
  {
    hide RefsOk, Loses, Charges, Inserted;
    if op.Put? {
      PutFrees(b, op.e, b', e);
    }
  }

  /** What a client holds stays in the cache unless its key is erased or inserted anew. */
  lemma StepKeeps(b: Balanced, op: Op, b': Balanced, e: Handle)
    requires Step(b, op, b') && e in b.inCache && e in b.clients && !Renames(op, e)
    ensures e in b'.inCache
  {
  }

  // ----------------------------------------------------------------- sequences of calls

  const EMPTY := Entries(0, [], [], map[], {}, multiset{}, [])

  /** The books of a new cache, and after each of the calls. */
  ghost predicate Run(states: seq<Balanced>, ops: seq<Op>) {
    && |states| == |ops| + 1 && states[0] == EMPTY
    && forall i :: 0 <= i < |ops| ==> Step(states[i], ops[i], states[i + 1])
  }

  /** References to `e` handed out and not yet given back. */
  function Held(ops: seq<Op>, e: Handle): int {
    if ops == [] then 0 else Held(ops[..|ops| - 1], e) + Gain(ops[|ops| - 1], e)
  }

  lemma Shorter(states: seq<Balanced>, ops: seq<Op>)
    requires Run(states, ops) && ops != []
    ensures Run(states[..|ops|], ops[..|ops| - 1])
    ensures Step(states[|ops| - 1], ops[|ops| - 1], states[|ops|])
  {
  }

  /** Entries that are held are counted right; they are neither freed nor up for eviction. */
  lemma {:induction false} HeldIsAlive(states: seq<Balanced>, ops: seq<Op>, e: Handle)
    requires Run(states, ops)
    ensures var b := states[|ops|];
            b.clients[e] == Held(ops, e) && (Held(ops, e) > 0 ==> e !in b.freed && e !in b.lru)
    decreases |ops|
  {
    hide Step, Run;
    RunLength(states, ops);
    if ops == [] {
      StartsEmpty(states, ops);
    } else {
      Shorter(states, ops);
      HeldIsAlive(states[..|ops|], ops[..|ops| - 1], e);
      StepCounts(states[|ops| - 1], ops[|ops| - 1], states[|ops|], e);
    }
    AliveIs(states[|ops|], e);
  }

  lemma RunLength(states: seq<Balanced>, ops: seq<Op>)
    requires Run(states, ops)
    ensures |states| == |ops| + 1
  {
  }

  lemma StartsEmpty(states: seq<Balanced>, ops: seq<Op>)
    requires Run(states, ops)
    ensures states[0] == EMPTY
  {
  }

  /** An entry is freed once: when nobody holds it any more and it is out of the cache. */
  lemma {:induction false} FreedExactly(states: seq<Balanced>, ops: seq<Op>, e: Handle)
    requires Run(states, ops) && Put(e) in ops
    ensures var b := states[|ops|];
            NoDups(b.freed) && (e in b.freed <==> Held(ops, e) == 0 && e !in b.inCache)
    decreases |ops|
  {
    hide Step, Run;
    RunLength(states, ops);
    Shorter(states, ops);
    var init, last := ops[..|ops| - 1], ops[|ops| - 1];
    HeldIsAlive(states, ops, e);
    if Put(e) in init {
      FreedExactly(states[..|ops|], init, e);
      HeldIsAlive(states[..|ops|], init, e);
      StepFrees(states[|ops| - 1], last, states[|ops|], e);
    } else {
      PutIsAlive(states[|ops| - 1], e, states[|ops|]);
    }
    AliveIs(states[|ops|], e);
    FreedOnce(states[|ops|]);
  }

  lemma PutIsAlive(b: Balanced, e: Handle, b': Balanced)
    requires Step(b, Put(e), b')
    ensures Alive(b', e)
  {
    PutFrees(b, e, b', e);
  }

  lemma FreedOnce(b: Balanced)
    ensures NoDups(b.freed)
  {
  }

  /** What is held all the time stays cached until its key is erased or inserted anew. */
  lemma {:induction false} HeldIsNotEvicted(states: seq<Balanced>, ops: seq<Op>, e: Handle, i: nat)
    requires Run(states, ops) && i <= |ops| && e in states[i].inCache
    requires forall j: nat :: i <= j < |ops| ==> Held(ops[..j], e) > 0 && !Renames(ops[j], e)
    ensures e in states[|ops|].inCache
    decreases |ops|
  {
    hide Step, Run, Held;
    RunLength(states, ops);
    if i < |ops| {
      var n := |ops| - 1;
      Shorter(states, ops);
      assert forall j: nat :: i <= j < n ==> ops[..n][..j] == ops[..j] && ops[..n][j] == ops[j];
      HeldIsNotEvicted(states[..|ops|], ops[..n], e, i);
      HeldIsAlive(states[..|ops|], ops[..n], e);
      StepKeeps(states[n], ops[n], states[n + 1], e);
    }
  }
}
