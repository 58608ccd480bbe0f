/** One shard of the cache (util/cache.cc: LRUCache).

    The two circular lists are sequences, oldest entry first.  `clients` counts the handles
    that callers hold and `freed` lists the entries whose deleter ran, in order; neither
    exists in the program. */
module LruCache {
  import opened Wrappers
  import opened HandleTable

  function Charges(s: seq<Handle>): nat {
    if s == [] then 0 else s[0].charge + Charges(s[1..])
  }

  lemma {:induction false} ChargesConcat(a: seq<Handle>, b: seq<Handle>)
    ensures Charges(a + b) == Charges(a) + Charges(b)
  {
    if a == [] {
      assert a + b == b;
    } else {
      assert (a + b)[1..] == a[1..] + b;
      ChargesConcat(a[1..], b);
    }
  }

  /** `LRU_Remove`: unlinks `e` from the list it is on. */
  function Without(s: seq<Handle>, e: Handle): seq<Handle> {
    if s == [] then [] else if s[0] == e then s[1..] else [s[0]] + Without(s[1..], e)
  }

  /** `e` is gone, and the others are where they were. */
  ghost predicate Loses(s: seq<Handle>, e: Handle, s': seq<Handle>) {
    exists i :: 0 <= i < |s| && s[i] == e && s' == s[..i] + s[i + 1..]
  }

  lemma {:induction false} WithoutLoses(s: seq<Handle>, e: Handle)
    requires e in s
    ensures Loses(s, e, Without(s, e))
  {
    if s[0] == e {
      assert s[1..] == s[..0] + s[0 + 1..];
    } else {
      WithoutLoses(s[1..], e);
      LosesLater(s, e, Without(s[1..], e));
    }
  }

  lemma LosesLater(s: seq<Handle>, e: Handle, t: seq<Handle>)
    requires s != [] && Loses(s[1..], e, t)
    ensures Loses(s, e, [s[0]] + t)
  {
    var tail := s[1..];
    var i :| 0 <= i < |tail| && tail[i] == e && t == tail[..i] + tail[i + 1..];
    assert s[i + 1] == e;
    assert [s[0]] + tail[..i] == s[..i + 1] && tail[i + 1..] == s[i + 2..];
    assert [s[0]] + t == s[..i + 1] + s[i + 2..];
  }

  lemma {:induction false} WithoutIs(s: seq<Handle>, e: Handle)
    requires NoDups(s)
    ensures NoDups(Without(s, e)) && forall x :: x in Without(s, e) <==> x in s && x != e
    ensures Charges(s) == Charges(Without(s, e)) + if e in s then e.charge else 0
    ensures e !in s ==> Without(s, e) == s
  {
    if s != [] {
      var rest := Without(s[1..], e);
      WithoutIs(s[1..], e);
      assert s == [s[0]] + s[1..];
      assert s[0] !in s[1..] && s[0] !in rest;
      if s[0] != e {
        assert Without(s, e) == [s[0]] + rest && Without(s, e)[1..] == rest;
        assert NoDups([s[0]] + rest);
      }
    }
  }

  lemma WithoutSnoc(s: seq<Handle>, e: Handle, x: Handle)
    requires x != e
    ensures Without(s + [x], e) == Without(s, e) + [x]
  {
    if s != [] {
      assert (s + [x])[1..] == s[1..] + [x];
    }
  }

  /** The bookkeeping of the cache beside the hash table. */
  datatype Books = Entries(usage: nat, lru: seq<Handle>, inUse: seq<Handle>, refs: map<Handle, nat>, inCache: set<Handle>,
                         clients: multiset<Handle>, freed: seq<Handle>)

  /** Every live entry is referenced by its clients, and once more by the cache if cached. */
  ghost predicate RefsOk(b: Books) {
    && (forall h :: h in b.refs ==> 0 < b.refs[h] == b.clients[h] + if h in b.inCache then 1 else 0)
    && (forall h :: h in b.clients || h in b.inCache ==> h in b.refs)
    && NoDups(b.freed) && (forall h :: h in b.freed ==> h !in b.refs)
  }

  /** The lru list holds the cached entries that only the cache references, the in-use list
      the other cached ones. */
  ghost predicate ListsOk(b: Books) {
    && NoDups(b.lru) && NoDups(b.inUse)
    && (forall h :: h in b.lru <==> h in b.inCache && h !in b.clients)
    && (forall h :: h in b.inUse <==> h in b.inCache && h in b.clients)
    && b.usage == Charges(b.lru) + Charges(b.inUse)
  }

  ghost predicate Ok(b: Books) { RefsOk(b) && ListsOk(b) }

  function Unlinked(b: Books, e: Handle): Books {
    b.(lru := Without(b.lru, e), inUse := Without(b.inUse, e))
  }

  /** `Ref`. */
  ghost function Reffed(b: Books, e: Handle): Books
    requires e in b.refs
  {
    var b1 := if b.refs[e] == 1 && e in b.inCache then Unlinked(b, e).(inUse := Without(b.inUse, e) + [e]) else b;
    b1.(refs := b.refs[e := b.refs[e] + 1], clients := b.clients + multiset{e})
  }

  /** A client takes a reference to a cached entry.  Its first client takes it off the eviction
      list; all else stays as it is. */
  ghost predicate Takes(b: Books, e: Handle, b': Books) {
    && e in b.inCache && b'.clients == b.clients + multiset{e}
    && b'.inCache == b.inCache && b'.usage == b.usage && b'.freed == b.freed
    && (forall h :: h in b.refs <==> h in b'.refs)
    && (forall h :: h in b.refs ==> b'.refs[h] == b.refs[h] + if h == e then 1 else 0)
    && if e in b.clients then b'.lru == b.lru && b'.inUse == b.inUse
       else Loses(b.lru, e, b'.lru) && b'.inUse == b.inUse + [e]
  }

  lemma ReffedIs(b: Books, e: Handle)
    requires Ok(b) && e in b.inCache
    ensures Takes(b, e, Reffed(b, e))
  {
    hide Loses, Charges;
    WithoutIs(b.inUse, e);
    if e !in b.clients {
      WithoutLoses(b.lru, e);
    }
  }

  lemma RefKeepsOk(b: Books, e: Handle)
    requires Ok(b) && e in b.inCache
    ensures Ok(Reffed(b, e))
  {
    WithoutIs(b.lru, e);
    WithoutIs(b.inUse, e);
    ChargesConcat(b.inUse, [e]);
    assert Charges([e]) == e.charge + Charges([]);
  }

  /** `Unref`; `client` tells whose reference is dropped. */
  ghost function Unreffed(b: Books, e: Handle, client: bool): Books
    requires e in b.refs && b.refs[e] > 0
  {
    var b1 := if client then b.(clients := b.clients - multiset{e}) else b;
    if b.refs[e] == 1 then b1.(refs := b.refs - {e}, freed := b.freed + [e])
    else
      var b2 := b1.(refs := b.refs[e := b.refs[e] - 1]);
      if e in b.inCache && b.refs[e] == 2 then b2.(lru := Without(b.lru, e) + [e], inUse := Without(b.inUse, e)) else b2
  }

  /** A client gives a reference back.  With its last client a cached entry goes to the end of
      the eviction list, and another one is freed. */
  ghost predicate GivesBack(b: Books, e: Handle, b': Books) {
    && e in b.clients && b'.clients == b.clients - multiset{e}
    && b'.inCache == b.inCache && b'.usage == b.usage
    && b'.freed == (if e !in b'.clients && e !in b.inCache then b.freed + [e] else b.freed)
    && if e !in b'.clients && e in b.inCache then b'.lru == b.lru + [e] && Loses(b.inUse, e, b'.inUse)
       else b'.lru == b.lru && b'.inUse == b.inUse
  }

  lemma ReleaseIs(b: Books, e: Handle)
    requires Ok(b) && e in b.clients
    ensures GivesBack(b, e, Unreffed(b, e, true)) && forall n :: IdsBelow(b, n) ==> IdsBelow(Unreffed(b, e, true), n)
  {
    hide Loses, Charges;
    WithoutIs(b.lru, e);
    if e in b.inCache {
      WithoutLoses(b.inUse, e);
    }
  }

  lemma ReleaseKeepsRefs(b: Books, e: Handle)
    requires RefsOk(b) && e in b.clients
    ensures RefsOk(Unreffed(b, e, true))
  {
    hide NoDups, Without;
    var b' := Unreffed(b, e, true);
    assert forall h :: b'.clients[h] == b.clients[h] - if h == e then 1 else 0;
    if b.refs[e] == 1 {
      NoDupsSnoc(b.freed, e);
    }
  }

  lemma NoDupsSnoc(s: seq<Handle>, e: Handle)
    requires NoDups(s) && e !in s
    ensures NoDups(s + [e])
  {
  }

  lemma ReleaseKeepsCharges(b: Books, e: Handle)
    requires Ok(b) && e in b.clients
    ensures var b' := Unreffed(b, e, true); b'.usage == Charges(b'.lru) + Charges(b'.inUse)
  {
    WithoutIs(b.lru, e);
    WithoutIs(b.inUse, e);
    ChargesConcat(b.lru, [e]);
    assert Charges([e]) == e.charge + Charges([]);
  }

  lemma ReleaseKeepsLists(b: Books, e: Handle)
    requires Ok(b) && e in b.clients
    ensures ListsOk(Unreffed(b, e, true))
  {
    hide Charges, Without;
    WithoutIs(b.lru, e);
    WithoutIs(b.inUse, e);
    ReleaseKeepsCharges(b, e);
  }

  lemma ReleaseKeepsOk(b: Books, e: Handle)
    requires Ok(b) && e in b.clients
    ensures Ok(Unreffed(b, e, true))
  {
    ReleaseKeepsRefs(b, e);
    ReleaseKeepsLists(b, e);
  }

  /** `FinishErase`: the cache lets go of an entry that has left the hash table. */
  ghost function Erased(b: Books, e: Handle): Books
    requires e in b.refs && b.refs[e] > 0 && b.usage >= e.charge
  {
    var b1 := Unlinked(b, e);
    Unreffed(b1.(inCache := b.inCache - {e}, usage := b.usage - e.charge), e, false)
  }

  lemma EraseIs(b: Books, e: Handle)
    requires Ok(b) && e in b.inCache
    ensures b.usage >= e.charge
    ensures var b' := Erased(b, e);
      && b'.lru == Without(b.lru, e) && b'.inUse == Without(b.inUse, e)
      && b'.inCache == b.inCache - {e} && b'.clients == b.clients && b'.usage == b.usage - e.charge
      && b'.freed == (if e in b.clients then b.freed else b.freed + [e])
      && b'.refs == (if e in b.clients then b.refs[e := b.refs[e] - 1] else b.refs - {e})
      && (forall n :: IdsBelow(b, n) ==> IdsBelow(b', n))
  {
    WithoutIs(b.lru, e);
    WithoutIs(b.inUse, e);
    assert e in b.lru || e in b.inUse;
  }

  /** The cache lets go of an entry: it is freed unless a client holds it. */
  ghost predicate LetsGo(b: Books, e: Handle, b': Books) {
    && e in b.inCache && b'.inCache == b.inCache - {e} && b'.clients == b.clients && b'.usage == b.usage - e.charge
    && if e in b.clients then Loses(b.inUse, e, b'.inUse) && b'.lru == b.lru && b'.freed == b.freed
       else Loses(b.lru, e, b'.lru) && b'.inUse == b.inUse && b'.freed == b.freed + [e]
  }

  lemma ErasedLetsGo(b: Books, e: Handle)
    requires Ok(b) && e in b.inCache
    ensures b.usage >= e.charge && LetsGo(b, e, Erased(b, e))
  {
    hide Loses, Charges;
    EraseIs(b, e);
    WithoutIs(b.lru, e);
    WithoutIs(b.inUse, e);
    if e in b.clients {
      WithoutLoses(b.inUse, e);
    } else {
      WithoutLoses(b.lru, e);
    }
  }

  lemma EraseKeepsRefs(b: Books, e: Handle)
    requires Ok(b) && e in b.inCache
    ensures b.usage >= e.charge && RefsOk(Erased(b, e))
  {
    EraseIs(b, e);
  }

  lemma EraseKeepsLists(b: Books, e: Handle)
    requires Ok(b) && e in b.inCache
    ensures b.usage >= e.charge && ListsOk(Erased(b, e))
  {
    EraseIs(b, e);
    WithoutIs(b.lru, e);
    WithoutIs(b.inUse, e);
    assert e in b.lru <==> e !in b.inUse;
  }

  lemma EraseKeepsOk(b: Books, e: Handle)
    requires Ok(b) && e in b.inCache
    ensures b.usage >= e.charge && Ok(Erased(b, e))
  {
    EraseKeepsRefs(b, e);
    EraseKeepsLists(b, e);
  }

  /** A new entry with one client, cached or not. */
  ghost function Entered(b: Books, e: Handle, cached: bool): Books {
    var b1 := b.(refs := b.refs[e := if cached then 2 else 1], clients := b.clients + multiset{e});
    if cached then b1.(inCache := b.inCache + {e}, inUse := b.inUse + [e], usage := b.usage + e.charge) else b1
  }

  lemma EnterKeepsOk(b: Books, e: Handle, cached: bool)
    requires Ok(b) && e !in b.refs && e !in b.freed
    ensures Ok(Entered(b, e, cached))
  {
    ChargesConcat(b.inUse, [e]);
    assert Charges([e]) == e.charge + Charges([]);
    assert e !in b.inUse && e !in b.clients;
  }

  /** Before each of the first `n` evictions the cache was over its capacity. */
  ghost predicate Over(usage: nat, capacity: nat, lru: seq<Handle>, n: nat)
    requires n <= |lru|
  {
    forall m :: 0 <= m < n ==> usage - Charges(lru[..m]) > capacity
  }

  function Listed(h: Option<Handle>): set<Handle> {
    if h.Some? then {h.value} else {}
  }

  function Unlisted(s: seq<Handle>, h: Option<Handle>): seq<Handle> {
    if h.Some? then Without(s, h.value) else s
  }

  /** The deleter of a displaced entry runs now unless a client still holds it. */
  ghost function FreedBy(b: Books, displaced: Option<Handle>): seq<Handle> {
    if displaced.Some? && displaced.value !in b.clients then b.freed + [displaced.value] else b.freed
  }

  ghost predicate Displaces(b: Books, displaced: Option<Handle>, e: Handle, cached: bool, b': Books) {
    && b'.inUse == Unlisted(b.inUse, displaced) + (if cached then [e] else []) && b'.lru == Unlisted(b.lru, displaced)
    && b'.usage == b.usage + (if cached then e.charge else 0) - (if displaced.Some? then displaced.value.charge else 0)
    && b'.freed == FreedBy(b, displaced) && b'.clients == b.clients + multiset{e}
    && b'.inCache == b.inCache - Listed(displaced) + if cached then {e} else {}
  }

  /** The books after the `n` oldest entries were evicted, the cache being over its capacity
      each time. */
  ghost predicate Evicted(b: Books, capacity: nat, n: nat, b': Books) {
    && n <= |b.lru| && b'.lru == b.lru[n..] && b'.inUse == b.inUse && b'.clients == b.clients
    && b'.inCache == b.inCache - Members(b.lru[..n]) && b'.freed == b.freed + b.lru[..n]
    && b'.usage == b.usage - Charges(b.lru[..n]) && Over(b.usage, capacity, b.lru, n)
  }

  ghost predicate LosesOldest(b: Books, b': Books) {
    && b.lru != [] && b'.lru == b.lru[1..] && b'.inUse == b.inUse && b'.clients == b.clients
    && b'.inCache == b.inCache - {b.lru[0]} && b'.freed == b.freed + [b.lru[0]]
    && b'.usage == b.usage - b.lru[0].charge
  }

  lemma NoneEvicted(b: Books, capacity: nat)
    ensures Evicted(b, capacity, 0, b)
  {
    assert b.freed + b.lru[..0] == b.freed;
  }

  /** One more of the oldest entries is gone. */
  lemma TakeOne(all: seq<Handle>, n: nat, freed: seq<Handle>)
    requires n < |all|
    ensures all[n..] != [] && all[n..][0] == all[n] && all[n..][1..] == all[n + 1..]
    ensures (freed + all[..n]) + [all[n]] == freed + all[..n + 1]
    ensures Charges(all[..n + 1]) == Charges(all[..n]) + all[n].charge
    ensures Members(all[..n + 1]) == Members(all[..n]) + {all[n]}
  {
    assert all[..n + 1] == all[..n] + [all[n]];
    ChargesConcat(all[..n], [all[n]]);
    assert Charges([all[n]]) == all[n].charge + Charges([]);
  }

  lemma OneMoreEvicted(b: Books, capacity: nat, n: nat, b1: Books, b2: Books)
    requires Evicted(b, capacity, n, b1) && LosesOldest(b1, b2) && b1.usage > capacity
    ensures Evicted(b, capacity, n + 1, b2)
  {
    TakeOne(b.lru, n, b.freed);
  }

  /** No entry was ever allocated at an address that malloc has still to return. */
  ghost predicate IdsBelow(b: Books, nextId: nat) {
    forall h :: h in b.refs || h in b.freed ==> h.id < nextId
  }

  ghost function ErasedIf(b: Books, r: Option<Handle>): Books
    requires Ok(b) && (r.Some? ==> r.value in b.inCache)
  {
    if r.Some? then EraseIs(b, r.value); Erased(b, r.value) else b
  }

  /** A new entry enters; with a capacity it takes the place of the one with its key. */
  ghost function Admitted(b: Books, e: Handle, cached: bool, twin: Option<Handle>): Books
    requires Ok(b) && e !in b.refs && e !in b.freed && (twin.Some? ==> twin.value in b.inCache)
  {
    EnterKeepsOk(b, e, cached);
    ErasedIf(Entered(b, e, cached), twin)
  }

  lemma AdmittedIs(b: Books, e: Handle, cached: bool, twin: Option<Handle>, nextId: nat)
    requires Ok(b) && e !in b.refs && e !in b.freed && (twin.Some? ==> cached && twin.value in b.inCache)
    requires IdsBelow(b, nextId) && e.id < nextId
    ensures var b' := Admitted(b, e, cached, twin);
      && Displaces(b, twin, e, cached, b') && IdsBelow(b', nextId) && e !in b'.lru
  {
    hide Ok;
    EnterKeepsOk(b, e, cached);
    OffTheLists(b, e);
    if twin.Some? {
      EraseIs(Entered(b, e, cached), twin.value);
      WithoutSnoc(b.inUse, twin.value, e);
      WithoutIs(b.lru, twin.value);
    }
  }

  /** The whole of Insert: the entry with the same key goes first, then the oldest released
      entries, as few as possible. */
  ghost predicate Inserted(b: Books, capacity: nat, e: Handle, displaced: Option<Handle>, n: nat, b': Books) {
    && (displaced.Some? ==> capacity > 0 && displaced.value in b.inCache && displaced.value.Matches(e.key, e.hash))
    && (displaced.None? && capacity > 0 ==> forall h :: h in b.inCache ==> !h.Matches(e.key, e.hash))
    && (e in b'.inCache <==> capacity > 0)
    && b'.clients == b.clients + multiset{e}
    && b'.inUse == Unlisted(b.inUse, displaced) + (if capacity > 0 then [e] else [])
    && (var all := Unlisted(b.lru, displaced);
        && n <= |all| && b'.lru == all[n..] && Over(b'.usage + Charges(all[..n]), capacity, all, n)
        && b'.freed == FreedBy(b, displaced) + all[..n]
        && b'.inCache == b.inCache - Listed(displaced) + (if capacity > 0 then {e} else {}) - Members(all[..n]))
    && (b'.usage <= capacity || b'.lru == [])
  }

  lemma InsertedIs(b: Books, capacity: nat, e: Handle, displaced: Option<Handle>, b1: Books, n: nat, b2: Books)
    requires e !in b.inCache && e !in b1.lru && Displaces(b, displaced, e, capacity > 0, b1)
    requires displaced.Some? ==> capacity > 0 && displaced.value in b.inCache && displaced.value.Matches(e.key, e.hash)
    requires displaced.None? && capacity > 0 ==> forall h :: h in b.inCache ==> !h.Matches(e.key, e.hash)
    requires Evicted(b1, capacity, n, b2) && (b2.usage <= capacity || b2.lru == [])
    ensures Inserted(b, capacity, e, displaced, n, b2)
  {
    assert e !in Members(b1.lru[..n]);
  }

  lemma NewEntry(b: Books, e: Handle, nextId: nat)
    requires Ok(b) && IdsBelow(b, nextId) && e.id == nextId
    ensures e !in b.refs && e !in b.freed && e !in b.inCache
    ensures IdsBelow(b, nextId + 1)
  {
  }

  lemma OffTheLists(b: Books, e: Handle)
    requires Ok(b) && e !in b.refs
    ensures e !in b.inCache && e !in b.lru && e !in b.inUse && NoDups(b.lru)
  {
  }

  lemma HasRefs(b: Books, e: Handle)
    requires Ok(b) && (e in b.clients || e in b.inCache)
    ensures e in b.refs && b.refs[e] > 0
  {
  }

  lemma EmptyOk()
    ensures Ok(Entries(0, [], [], map[], {}, multiset{}, []))
  {
  }

  lemma UpdateRemoved(m: map<Handle, nat>, e: Handle, n: nat)
    ensures m[e := n] - {e} == m - {e}
  {
  }

  /** Books that balance. */
  type Balanced = b: Books | Ok(b) ghost witness Entries(0, [], [], map[], {}, multiset{}, [])

  class Cache {
    const table: Table
    var capacity: nat
    var usage: nat
    var lru: seq<Handle>
    var inUse: seq<Handle>
    var refs: map<Handle, nat>
    var inCache: set<Handle>
    var nextId: nat                  // stands for malloc
    var deleted: seq<Handle>         // the entries whose deleter has been called
    ghost var books: Balanced

    /** The fields are as the books say. */
    ghost predicate Linked()
      reads this
    {
      books.usage == usage && books.lru == lru && books.inUse == inUse && books.refs == refs && books.inCache == inCache
      && books.freed == deleted
    }

    ghost predicate Valid()
      reads this, table
    {
      && Linked()
      && table.Valid() && table.contents == inCache
      && IdsBelow(books, nextId)
    }

    constructor (capacity: nat)
      ensures Valid() && fresh(table) && this.capacity == capacity
      ensures inCache == {} && books.clients == multiset{} && deleted == []
    {
      EmptyOk();
      table := new Table();
      this.capacity := capacity;
      usage, lru, inUse, refs, inCache, nextId, deleted := 0, [], [], map[], {}, 0, [];
      books := Entries(0, [], [], map[], {}, multiset{}, []);
    }

    method SetCapacity(c: nat)
      requires Valid()
      modifies this`capacity
      ensures Valid() && capacity == c
    {
      capacity := c;
    }

    method LruRemove(e: Handle)
      modifies this`lru, this`inUse
      ensures lru == Without(old(lru), e) && inUse == Without(old(inUse), e)
    {
      lru, inUse := Without(lru, e), Without(inUse, e);
    }

    method Ref(e: Handle)
      requires Linked() && e in inCache
      modifies this`lru, this`inUse, this`refs, this`books
      ensures Linked() && books == Reffed(old(books), e)
    {
      hide Ok;
      HasRefs(books, e);
      RefKeepsOk(books, e);
      books := Reffed(books, e);
      if refs[e] == 1 && e in inCache {
        // The first client takes it out of the eviction list
        LruRemove(e);
        inUse := inUse + [e];
      }
      refs := refs[e := refs[e] + 1];
    }

    /** The real half of Unref; `b` is what the books are to say. */
    method Unref(e: Handle, ghost b: Books)
      requires e in refs && refs[e] > 0
      requires b.usage == usage && b.lru == lru && b.inUse == inUse && b.refs == refs && b.inCache == inCache && b.freed == deleted
      modifies this`lru, this`inUse, this`refs, this`deleted
      ensures var b' := Unreffed(b, e, true); b'.lru == lru && b'.inUse == inUse && b'.refs == refs && b'.freed == deleted
    {
      refs := refs[e := refs[e] - 1];
      if refs[e] == 0 {
        // The deleter runs, and the entry is deallocated
        UpdateRemoved(old(refs), e, 0);
        deleted := deleted + [e];
        refs := refs - {e};
      } else if e in inCache && refs[e] == 1 {
        // The last client is gone: it may be evicted from now on
        LruRemove(e);
        lru := lru + [e];
      }
    }

    /** Finishes removing an entry, if any, that has left the hash table. */
    method FinishErase(r: Option<Handle>)
      requires Linked() && (r.Some? ==> r.value in inCache)
      modifies this`lru, this`inUse, this`refs, this`inCache, this`usage, this`deleted, this`books
      ensures Linked() && books == ErasedIf(old(books), r)
    {
      if r.Some? {
        Drop(r.value);
      }
    }

    method Drop(e: Handle)
      requires Linked() && e in inCache
      modifies this`lru, this`inUse, this`refs, this`inCache, this`usage, this`deleted, this`books
      ensures old(usage) >= e.charge && Linked() && books == Erased(old(books), e)
    {
      EraseKeepsOk(books, e);
      ghost var b := Unlinked(books, e).(inCache := inCache - {e}, usage := usage - e.charge);
      books := Erased(books, e);
      LruRemove(e);
      inCache := inCache - {e};
      usage := usage - e.charge;
      Unref(e, b);
    }

    method Lookup(key: string, hash: nat) returns (r: Option<Handle>)
      requires Valid()
      modifies this`lru, this`inUse, this`refs, this`books
      ensures Valid()
      ensures r.Some? <==> exists h :: h in old(inCache) && h.Matches(key, hash)
      ensures r.Some? ==> r.value in inCache && r.value.Matches(key, hash) && Takes(old(books), r.value, books)
      ensures r.Some? ==> r.value !in lru && r.value in inUse && (r.value in old(lru) ==> inUse == old(inUse) + [r.value])
      ensures r.None? ==> books == old(books)
    {
      r := table.Lookup(key, hash);
      if r.Some? {
        ReffedIs(books, r.value);
        Ref(r.value);
      }
    }

    method Release(e: Handle)
      requires Valid() && e in books.clients
      modifies this`lru, this`inUse, this`refs, this`deleted, this`books
      ensures Valid() && GivesBack(old(books), e, books)
      ensures books.clients == old(books.clients) - multiset{e}
      ensures deleted == if e !in books.clients && e !in inCache then old(deleted) + [e] else old(deleted)
      ensures lru == if e !in books.clients && e in inCache then old(lru) + [e] else old(lru)
    {
      hide Ok;
      HasRefs(books, e);
      ReleaseKeepsOk(books, e);
      ReleaseIs(books, e);
      Unref(e, books);
      books := Unreffed(books, e, true);
    }

    method Erase(key: string, hash: nat) returns (ghost r: Option<Handle>)
      requires Valid()
      modifies this, table
      ensures Valid() && capacity == old(capacity) && books.clients == old(books.clients)
      ensures if r.Some? then r.value.Matches(key, hash) && LetsGo(old(books), r.value, books) else books == old(books)
      ensures forall h :: h in inCache <==> h in old(inCache) && !h.Matches(key, hash)
      ensures forall h :: h in deleted <==> h in old(deleted) || (h in old(inCache) && h.Matches(key, hash) && h !in books.clients)
    {
      hide Ok;
      var e := table.Remove(key, hash);
      r := e;
      if r.Some? {
        assert forall h :: h in inCache && h.Matches(key, hash) ==> SameKey(h, r.value);
        EraseIs(books, r.value);
        ErasedLetsGo(books, r.value);
      }
      FinishErase(e);
    }

    /** Removes the oldest entry of the lru list. */
    method EvictOldest()
      requires Valid() && lru != []
      modifies this, table
      ensures Valid() && capacity == old(capacity) && nextId == old(nextId)
      ensures LosesOldest(old(books), books)
    {
      var e := lru[0];
      WithoutIs(inUse, e);
      EraseIs(books, e);
      var r := table.Remove(e.key, e.hash);
      assert r.Some? && SameKey(r.value, e);
      FinishErase(r);
    }

    method Prune()
      requires Valid()
      modifies this, table
      ensures Valid() && capacity == old(capacity)
      ensures lru == [] && inUse == old(inUse) && books.clients == old(books.clients) && deleted == old(deleted) + old(lru)
      ensures inCache == old(inCache) - Members(old(lru))
    {
      hide Ok;
      ghost var n := 0;
      ghost var b := books;
      assert b.freed + b.lru[..0] == b.freed;
      while lru != []
        invariant Valid() && capacity == old(capacity) && nextId == old(nextId)
        invariant n <= |b.lru| && lru == b.lru[n..] && inUse == b.inUse && books.clients == b.clients && books.freed == b.freed + b.lru[..n]
        invariant inCache == b.inCache - Members(b.lru[..n])
        decreases |lru|
      {
        TakeOne(b.lru, n, b.freed);
        EvictOldest();
        n := n + 1;
      }
      assert b.lru[..n] == b.lru;
    }

    /** The loop at the end of Insert. */
    method EvictToCapacity() returns (ghost n: nat)
      requires Valid()
      modifies this, table
      ensures Valid() && capacity == old(capacity) && (usage <= capacity || lru == [])
      ensures Evicted(old(books), capacity, n, books)
    {
      n := 0;
      NoneEvicted(books, capacity);
      while usage > capacity && lru != []
        invariant Valid() && capacity == old(capacity) && Evicted(old(books), capacity, n, books)
        decreases |lru|
      {
        ghost var before := books;
        EvictOldest();
        OneMoreEvicted(old(books), capacity, n, before, books);
        n := n + 1;
      }
    }

    /** Gives a new entry to its first client. */
    method Enter(e: Handle, cached: bool)
      requires Linked() && e !in refs && e !in books.freed
      modifies this`usage, this`inUse, this`refs, this`inCache, this`books
      ensures Linked() && books == Entered(old(books), e, cached)
    {
      EnterKeepsOk(books, e, cached);
      books := Entered(books, e, cached);
      refs := refs[e := 1];
      if cached {
        refs := refs[e := refs[e] + 1];
        assert old(refs)[e := 1][e := 2] == old(refs)[e := 2];
        inCache := inCache + {e};
        inUse := inUse + [e];
        usage := usage + e.charge;
      }
    }

    /** The first half of Insert: without capacity nothing is cached. */
    method Admit(e: Handle) returns (ghost displaced: Option<Handle>)
      requires Valid() && IdsBelow(books, e.id) && e.id < nextId
      modifies table, this`lru, this`inUse, this`refs, this`inCache, this`usage, this`deleted, this`books
      ensures Valid()
      ensures displaced.Some? ==> capacity > 0 && displaced.value in old(inCache) && displaced.value.Matches(e.key, e.hash)
      ensures displaced.None? && capacity > 0 ==> forall h :: h in old(inCache) ==> !h.Matches(e.key, e.hash)
      ensures books == Admitted(old(books), e, capacity > 0, displaced)
    {
      hide Ok, Table.Valid, IdsBelow, Displaces;
      NewEntry(books, e, e.id);
      Enter(e, capacity > 0);
      var twin: Option<Handle> := None;
      if capacity > 0 {
        twin := table.Insert(e);
      }
      displaced := twin;
      AdmittedIs(old(books), e, capacity > 0, twin, nextId);
      FinishErase(twin);
    }

    method Insert(key: string, hash: nat, charge: nat) returns (e: Handle, ghost displaced: Option<Handle>,
                  ghost n: nat)
      requires Valid()
      modifies this, table
      ensures Valid() && capacity == old(capacity)
      ensures e !in old(refs) && e.Matches(key, hash) && e.charge == charge
      ensures Inserted(old(books), capacity, e, displaced, n, books)
    {
      hide Ok;
      e := Handle(nextId, key, hash, charge);
      NewEntry(books, e, nextId);
      nextId := nextId + 1;
      displaced := Admit(e);
      AdmittedIs(old(books), e, capacity > 0, displaced, nextId);
      ghost var b := books;
      n := EvictToCapacity();
      InsertedIs(old(books), capacity, e, displaced, b, n, books);
    }
  }
}
