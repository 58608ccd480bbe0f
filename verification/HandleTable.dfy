/** The hash table of the cache (util/cache.cc: HandleTable): an array of chains that grows
    with the number of entries. */
module HandleTable {
  import opened Wrappers

  /** An LRUHandle without its links and counts; `id` is its address. */
  datatype Handle = Handle(id: nat, key: string, hash: nat, charge: nat) {
    predicate Matches(k: string, h: nat) { hash == h && key == k }
  }

  ghost predicate NoDups<T>(s: seq<T>) {
    forall i, j :: 0 <= i < j < |s| ==> s[i] != s[j]
  }

  /** A table length: 4 doubled some number of times. */
  predicate TableLength(n: nat)
    decreases n
  {
    n == 4 || (n > 4 && n % 2 == 0 && TableLength(n / 2))
  }

  predicate SameKey(a: Handle, b: Handle) {
    a.Matches(b.key, b.hash)
  }

  ghost predicate OnePerKey(contents: set<Handle>) {
    forall a, b {:trigger SameKey(a, b)} :: a in contents && b in contents && SameKey(a, b) ==> a == b
  }

  lemma OneMoreKey(contents: set<Handle>, h: Handle)
    requires OnePerKey(contents) && forall x :: x in contents ==> !x.Matches(h.key, h.hash)
    ensures OnePerKey(contents + {h})
  {
  }

  lemma KeyReplaced(contents: set<Handle>, c: Handle, h: Handle)
    requires OnePerKey(contents) && c in contents && c.Matches(h.key, h.hash)
    ensures OnePerKey(contents - {c} + {h})
  {
    assert forall x :: x in contents && x.Matches(h.key, h.hash) ==> SameKey(x, c);
    OneMoreKey(contents - {c}, h);
  }

  /** The bitwise `a & b`. */
  function BitAnd(a: nat, b: nat): (r: nat)
    ensures r <= b
  {
    if a == 0 || b == 0 then 0 else 2 * BitAnd(a / 2, b / 2) + if a % 2 == 1 && b % 2 == 1 then 1 else 0
  }

  /** `hash & (length - 1)`. */
  function Masked(hash: nat, length: nat): (r: nat)
    requires length > 0
    ensures r < length
  {
    BitAnd(hash, length - 1)
  }

  /** What is left of `n` after taking away `m` as often as possible. */
  function Remainder(n: nat, m: nat): (r: nat)
    requires m > 0
    ensures r < m
  {
    if n < m then n else Remainder(n - m, m)
  }

  lemma {:induction false} RemainderOfDouble(n: nat, m: nat)
    requires m > 0
    ensures Remainder(n, 2 * m) == 2 * Remainder(n / 2, m) + n % 2
    decreases n
  {
    if n >= 2 * m {
      RemainderOfDouble(n - 2 * m, m);
      assert (n - 2 * m) / 2 == n / 2 - m;
    }
  }

  /** For every length a table can have, the mask spreads hashes as a remainder does. */
  lemma {:induction false} MaskIsRemainder(hash: nat, length: nat)
    requires TableLength(length)
    ensures Masked(hash, length) == Remainder(hash, length)
    decreases length
  {
    if length == 4 {
      LastBit(hash, 2);
      LastBit(hash / 2, 1);
      RemainderOfDouble(hash, 2);
      RemainderOfDouble(hash / 2, 1);
      NoBits(hash / 2 / 2);
    } else {
      MaskIsRemainder(hash / 2, length / 2);
      RemainderOfDouble(hash, length / 2);
      LastBit(hash, length / 2);
    }
  }

  lemma LastBit(hash: nat, half: nat)
    requires half > 0
    ensures BitAnd(hash, 2 * half - 1) == 2 * BitAnd(hash / 2, half - 1) + hash % 2
  {
    assert (2 * half - 1) / 2 == half - 1;
  }

  lemma {:induction false} NoBits(n: nat)
    ensures Remainder(n, 1) == 0
    decreases n
  {
    if n > 0 {
      NoBits(n - 1);
    }
  }

  // -------------------------------------------------------------------------- links

  /** `next_hash` of every handle. */
  type Links = map<Handle, Option<Handle>>

  /** Following the links from `p` gives the chain. */
  ghost predicate Leads(next: Links, p: Option<Handle>, chain: seq<Handle>)
    decreases |chain|
  {
    if chain == [] then p == None
    else p == Some(chain[0]) && chain[0] in next && Leads(next, next[chain[0]], chain[1..])
  }

  ghost predicate Linked(heads: seq<Option<Handle>>, next: Links, list: seq<seq<Handle>>) {
    |heads| == |list| && forall i :: 0 <= i < |heads| ==> Leads(next, heads[i], list[i])
  }

  /** Links elsewhere do not matter. */
  lemma {:induction false} LeadsStill(next: Links, next': Links, p: Option<Handle>, chain: seq<Handle>)
    requires Leads(next, p, chain) && forall h :: h in chain && h in next ==> h in next' && next'[h] == next[h]
    ensures Leads(next', p, chain)
    decreases |chain|
  {
    if chain != [] {
      LeadsStill(next, next', next[chain[0]], chain[1..]);
    }
  }

  /** The pointer in front of position `slot`. */
  lemma {:induction false} LeadsAt(next: Links, p: Option<Handle>, chain: seq<Handle>, slot: nat)
    requires Leads(next, p, chain) && slot <= |chain|
    ensures slot > 0 ==> chain[slot - 1] in next
    ensures Leads(next, if slot == 0 then p else next[chain[slot - 1]], chain[slot..])
    decreases slot
  {
    if slot > 0 {
      LeadsAt(next, next[chain[0]], chain[1..], slot - 1);
      assert chain[1..][slot - 1..] == chain[slot..];
    } else {
      assert chain[0..] == chain;
    }
  }

  /** Writing the pointer in front of position `slot` puts another rest in its place. */
  lemma {:induction false} Spliced(next: Links, p: Option<Handle>, chain: seq<Handle>, slot: nat, next': Links, p': Option<Handle>,
                                   q: Option<Handle>, rest: seq<Handle>)
    requires Leads(next, p, chain) && slot <= |chain| && Leads(next', q, rest)
    requires if slot == 0 then p' == q else p' == p && chain[slot - 1] in next' && next'[chain[slot - 1]] == q
    requires forall j :: 0 <= j < slot - 1 && chain[j] in next ==> chain[j] in next' && next'[chain[j]] == next[chain[j]]
    ensures Leads(next', p', chain[..slot] + rest)
    decreases slot
  {
    if slot == 0 {
      assert chain[..0] + rest == rest;
    } else {
      var c := chain[1..];
      assert forall j :: 0 <= j < slot - 1 ==> c[j] == chain[j + 1];
      Spliced(next, next[chain[0]], c, slot - 1, next', next'[chain[0]], q, rest);
      assert (chain[..slot] + rest)[1..] == c[..slot - 1] + rest;
    }
  }

  /** `LRUHandle**`: an element of the array, or the link of a handle. */
  datatype Place = Head(i: nat) | Next(h: Handle)

  class Table {
    var length: nat
    var elems: nat
    var heads: seq<Option<Handle>>   // list_
    var nextHash: Links

    // The chains, and the entries of the table.
    ghost var list: seq<seq<Handle>>
    ghost var contents: set<Handle>

    ghost predicate Valid()
      reads this
    {
      && TableLength(length) && |list| == length > 0
      && Linked(heads, nextHash, list) && Chained(list, contents)
      && OnePerKey(contents)
      && elems == |contents| <= length
    }

    constructor ()
      ensures Valid() && contents == {}
    {
      length, elems, heads, nextHash := 4, 0, [None, None, None, None], map[];
      list, contents := [[], [], [], []], {};
    }

    /** `*ptr`. */
    function Load(place: Place): Option<Handle>
      reads this
      requires if place.Head? then place.i < |heads| else place.h in nextHash
    {
      match place
      case Head(i) => heads[i]
      case Next(h) => nextHash[h]
    }

    /** The place of position `slot` in a chain. */
    ghost predicate IsPlace(place: Place, bucket: nat, slot: nat)
      reads this
    {
      && bucket < |list| == |heads| && slot <= |list[bucket]|
      && place == (if slot == 0 then Head(bucket) else Next(list[bucket][slot - 1]))
      && (place.Next? ==> place.h in nextHash)
      && Load(place) == if slot < |list[bucket]| then Some(list[bucket][slot]) else None
    }

    lemma PlaceOf(bucket: nat, slot: nat)
      requires Linked(heads, nextHash, list) && bucket < |list| && slot <= |list[bucket]|
      ensures IsPlace(if slot == 0 then Head(bucket) else Next(list[bucket][slot - 1]), bucket, slot)
    {
      LeadsAt(nextHash, heads[bucket], list[bucket], slot);
    }

    /** The place of the entry for `key`, or that at the end of its chain. */
    method FindPointer(key: string, hash: nat) returns (place: Place, ghost bucket: nat, ghost slot: nat)
      requires Valid()
      ensures bucket == Masked(hash, length) && IsPlace(place, bucket, slot)
      ensures slot < |list[bucket]| ==> list[bucket][slot].Matches(key, hash) && list[bucket][slot] in contents
      ensures slot == |list[bucket]| ==> forall h :: h in contents ==> !h.Matches(key, hash)
    {
      hide Leads, NoDups;
      place, bucket, slot := Head(Masked(hash, length)), Masked(hash, length), 0;
      assert ChainOk(list[bucket], contents, bucket, length);
      PlaceOf(bucket, 0);
      while Load(place).Some? && (Load(place).value.hash != hash || key != Load(place).value.key)
        invariant IsPlace(place, bucket, slot)
        invariant forall i :: 0 <= i < slot ==> !list[bucket][i].Matches(key, hash)
        decreases |list[bucket]| - slot
      {
        PlaceOf(bucket, slot + 1);
        place, slot := Next(Load(place).value), slot + 1;
      }
    }

    method Lookup(key: string, hash: nat) returns (r: Option<Handle>)
      requires Valid()
      ensures r.Some? ==> r.value in contents && r.value.Matches(key, hash)
      ensures r.None? ==> forall h :: h in contents ==> !h.Matches(key, hash)
    {
      var place;
      ghost var bucket, slot;
      place, bucket, slot := FindPointer(key, hash);
      r := Load(place);
    }

    /** `*ptr = q`: the chain goes on with `rest` from there. */
    method Store(place: Place, q: Option<Handle>, ghost bucket: nat, ghost slot: nat, ghost rest: seq<Handle>)
      requires Linked(heads, nextHash, list) && Chained(list, contents) && IsPlace(place, bucket, slot)
      requires Leads(nextHash, q, rest) && forall h :: h in rest ==> h !in list[bucket][..slot]
      modifies this`heads, this`nextHash, this`list
      ensures list == old(list)[bucket := old(list)[bucket][..slot] + rest] && Linked(heads, nextHash, list)
    {
      hide Leads;
      ghost var before, chain := nextHash, list[bucket];
      ghost var p := heads[bucket];
      match place {
        case Head(i) => heads := heads[i := q];
        case Next(h) => nextHash := nextHash[h := q];
      }
      assert ChainOk(chain, contents, bucket, |list|);
      if slot > 0 {
        assert chain[slot - 1] in chain[..slot];
      }
      LeadsStill(before, nextHash, q, rest);
      Spliced(before, p, chain, slot, nextHash, heads[bucket], q, rest);
      forall j | 0 <= j < |list| && j != bucket ensures Leads(nextHash, heads[j], list[j]) {
        assert ChainOk(list[j], contents, j, |list|);
        LeadsStill(before, nextHash, heads[j], list[j]);
      }
      list := list[bucket := chain[..slot] + rest];
    }

    /** Puts `h` in the place of the entry with its key, which is returned. */
    method Insert(h: Handle) returns (old_: Option<Handle>)
      requires Valid() && h !in contents
      modifies this
      ensures Valid()
      ensures old_.Some? ==> old_.value in old(contents) && old_.value.Matches(h.key, h.hash)
      ensures old_.None? ==> forall x :: x in old(contents) ==> !x.Matches(h.key, h.hash)
      ensures contents == (if old_.Some? then old(contents) - {old_.value} else old(contents)) + {h}
    {
      hide Leads, Linked, Chained, NoDups, Masked, OnePerKey, TableLength;
      var place;
      ghost var bucket, slot;
      place, bucket, slot := FindPointer(h.key, h.hash);
      old_ := Load(place);
      ghost var chain := list[bucket];
      InBucket(bucket, h);
      NewLink(h, bucket, slot);
      nextHash := nextHash[h := if old_.None? then None else nextHash[old_.value]];
      Store(place, Some(h), bucket, slot, [h] + if old_.None? then [] else chain[slot + 1..]);
      if old_.None? {
        OneMoreKey(contents, h);
        AppendToChain(old(list), contents, bucket, h);
        assert chain[..slot] + ([h] + []) == chain + [h];
        contents := contents + {h};
        elems := elems + 1;
        if elems > length {
          Resize();
        }
      } else {
        KeyReplaced(contents, chain[slot], h);
        ReplaceInChain(old(list), contents, bucket, slot, h);
        assert chain[..slot] + ([h] + chain[slot + 1..]) == chain[slot := h];
        contents := contents - {chain[slot]} + {h};
      }
    }

    lemma InBucket(bucket: nat, h: Handle)
      requires Chained(list, contents) && bucket < |list| && h !in contents
      ensures NoDups(list[bucket]) && h !in list[bucket]
    {
      assert ChainOk(list[bucket], contents, bucket, |list|);
    }

    /** With the link of the new handle set, nothing else has changed, and it leads on behind
        the entry that it replaces. */
    lemma NewLink(h: Handle, bucket: nat, slot: nat)
      requires Linked(heads, nextHash, list) && Chained(list, contents) && bucket < |list| && h !in contents && slot <= |list[bucket]|
      ensures slot < |list[bucket]| ==> list[bucket][slot] in nextHash
      ensures slot > 0 ==> list[bucket][slot - 1] in nextHash
      ensures var chain := list[bucket];
              var behind := if slot < |chain| then chain[slot + 1..] else [];
              var next' := nextHash[h := if slot < |chain| then nextHash[chain[slot]] else None];
              && Linked(heads, next', list) && Leads(next', Some(h), [h] + behind)
              && (forall x :: x in [h] + behind ==> x !in chain[..slot])
              && (slot > 0 ==> next'[chain[slot - 1]] == nextHash[chain[slot - 1]])
    {
      var chain := list[bucket];
      assert ChainOk(chain, contents, bucket, |list|);
      var behind := if slot < |chain| then chain[slot + 1..] else [];
      LeadsAt(nextHash, heads[bucket], chain, slot);
      if slot < |chain| {
        LeadsAt(nextHash, heads[bucket], chain, slot + 1);
      }
      var q := if slot < |chain| then nextHash[chain[slot]] else None;
      var next' := nextHash[h := q];
      LeadsStill(nextHash, next', q, behind);
      assert ([h] + behind)[1..] == behind;
      forall j | 0 <= j < |list| ensures Leads(next', heads[j], list[j]) {
        assert ChainOk(list[j], contents, j, |list|);
        LeadsStill(nextHash, next', heads[j], list[j]);
      }
    }

    method Remove(key: string, hash: nat) returns (r: Option<Handle>)
      requires Valid()
      modifies this
      ensures Valid()
      ensures r.Some? ==> r.value in old(contents) && r.value.Matches(key, hash)
      ensures r.None? ==> forall x :: x in old(contents) ==> !x.Matches(key, hash)
      ensures contents == if r.Some? then old(contents) - {r.value} else old(contents)
    {
      hide Leads, Chained, NoDups, Masked;
      var place;
      ghost var bucket, slot;
      place, bucket, slot := FindPointer(key, hash);
      r := Load(place);
      if r.Some? {
        ghost var chain := list[bucket];
        Behind(bucket, slot);
        Store(place, nextHash[r.value], bucket, slot, chain[slot + 1..]);
        CutFromChain(old(list), contents, bucket, slot);
        contents := contents - {chain[slot]};
        elems := elems - 1;
      }
    }

    lemma Behind(bucket: nat, slot: nat)
      requires Linked(heads, nextHash, list) && Chained(list, contents) && bucket < |list| && slot < |list[bucket]|
      ensures list[bucket][slot] in nextHash && Leads(nextHash, nextHash[list[bucket][slot]], list[bucket][slot + 1..])
      ensures forall h :: h in list[bucket][slot + 1..] ==> h !in list[bucket][..slot]
    {
      assert ChainOk(list[bucket], contents, bucket, |list|);
      LeadsAt(nextHash, heads[bucket], list[bucket], slot + 1);
    }

    /** Rehashes every entry into a table at least as long as the number of entries, relinking
        the handles one by one. */
    method Resize()
      requires TableLength(length) && |list| == length > 0 && Linked(heads, nextHash, list) && Chained(list, contents)
      requires elems == |contents|
      modifies this`heads, this`nextHash, this`list, this`length
      ensures TableLength(length) && |list| == length > 0 && Linked(heads, nextHash, list) && Chained(list, contents)
      ensures elems <= length && (length == 4 || length < 2 * elems)
    {
      hide Leads, Chained, ChainOk, NoDups, Masked, Members;
      var newLength := 4;
      while newLength < elems
        invariant TableLength(newLength) && newLength > 0 && (newLength == 4 || newLength < 2 * elems)
        decreases elems - newLength
      {
        newLength := newLength * 2;
      }
      var newHeads := seq(newLength, _ => None);
      ghost var newList := EmptyList(newLength);
      NothingLinked(newLength, nextHash);
      var count := 0;
      ghost var moved: set<Handle> := {};
      for i := 0 to length
        invariant length == old(length) && list == old(list) && heads == old(heads) && count == |moved|
        invariant |newList| == newLength && Chained(newList, moved) && Linked(newHeads, nextHash, newList) && Moved(moved, i)
        invariant forall j :: i <= j < length ==> Leads(nextHash, heads[j], list[j])
      {
        ghost var before := moved;
        var n;
        ChainAt(i, moved);
        newHeads, n, newList, moved := MoveChain(newHeads, heads[i], newList, list[i], moved, i);
        count := count + n;
        ChainMoved(before, i, moved);
      }
      AllMoved(moved);
      heads, list := newHeads, newList;
      length := newLength;
    }

    /** The inner loop of Resize: each handle of a chain is linked to the head of its new chain.
        The chains that follow in the old table are left alone. */
    method MoveChain(newHeads: seq<Option<Handle>>, first: Option<Handle>, ghost newList: seq<seq<Handle>>, ghost chain: seq<Handle>,
                     ghost moved: set<Handle>, ghost bucket: nat)
        returns (r: seq<Option<Handle>>, count: nat, ghost rs: seq<seq<Handle>>, ghost moved': set<Handle>)
      requires Chained(newList, moved) && Linked(newHeads, nextHash, newList) && NoDups(chain) && forall h :: h in chain ==> h !in moved
      requires Leads(nextHash, first, chain) && |heads| == |list| > 0 && bucket < |list| && Chained(list, contents) && list[bucket] == chain
      requires forall j :: bucket < j < |list| ==> Leads(nextHash, heads[j], list[j])
      requires |newHeads| == |newList| > 0
      modifies this`nextHash
      ensures |r| == |rs| == |newList| && Chained(rs, moved') && Linked(r, nextHash, rs)
      ensures moved' == moved + Members(chain) && |moved'| == |moved| + count
      ensures forall j :: bucket < j < |list| ==> Leads(nextHash, heads[j], list[j])
    {
      hide Leads, Linked, Chained, NoDups, Masked, Members;
      var h := first;
      ghost var j := 0;
      r, count, rs, moved' := newHeads, 0, newList, moved;
      NoMembers(moved, chain);
      while h != None
        invariant |r| == |rs| == |newList| && Chained(rs, moved') && Linked(r, nextHash, rs) && count == j <= |chain|
        invariant moved' == moved + Members(chain[..j]) && |moved'| == |moved| + count
        invariant Leads(nextHash, h, chain[j..])
        invariant forall k :: bucket < k < |list| ==> Leads(nextHash, heads[k], list[k])
        decreases |chain| - j
      {
        LeadsToFirst(nextHash, h, chain, j);
        FreshInChain(chain, moved, j);
        var i := Masked(h.value.hash, |r|);
        MoveOne(r, rs, chain, moved', bucket, j);
        var next := nextHash[h.value];
        nextHash := nextHash[h.value := r[i]];
        r := r[i := h];
        PrependToChain(rs, moved', i, h.value);
        rs := rs[i := [h.value] + rs[i]];
        moved' := moved' + {h.value};
        h := next;
        count := count + 1;
        j := j + 1;
      }
      LeadsNowhere(nextHash, chain, j);
      assert chain[..|chain|] == chain;
    }

    lemma NoMembers(moved: set<Handle>, chain: seq<Handle>)
      ensures chain[0..] == chain && moved + Members(chain[..0]) == moved
    {
    }

    /** Relinking one handle in front of its new chain. */
    lemma MoveOne(r: seq<Option<Handle>>, rs: seq<seq<Handle>>, chain: seq<Handle>, moved: set<Handle>, bucket: nat, j: nat)
      requires Chained(rs, moved) && Linked(r, nextHash, rs) && NoDups(chain) && j < |chain| && chain[j] !in moved
      requires chain[j] in nextHash && Leads(nextHash, nextHash[chain[j]], chain[j + 1..])
      requires |heads| == |list| > 0 && bucket < |list| && Chained(list, contents) && list[bucket] == chain
      requires forall k :: bucket < k < |list| ==> Leads(nextHash, heads[k], list[k])
      ensures var h := chain[j];
              var i := Masked(h.hash, |r|);
              var next' := nextHash[h := r[i]];
              && i < |r| == |rs|
              && Linked(r[i := Some(h)], next', rs[i := [h] + rs[i]]) && Leads(next', nextHash[h], chain[j + 1..])
              && forall k :: bucket < k < |list| ==> Leads(next', heads[k], list[k])
    {
      hide Masked;
      var h := chain[j];
      var i := Masked(h.hash, |r|);
      var next' := nextHash[h := r[i]];
      forall k | 0 <= k < |rs| ensures Leads(next', r[k], rs[k]) {
        assert ChainOk(rs[k], moved, k, |rs|);
        LeadsStill(nextHash, next', r[k], rs[k]);
      }
      assert ([h] + rs[i])[1..] == rs[i];
      LeadsStill(nextHash, next', nextHash[h], chain[j + 1..]);
      assert ChainOk(list[bucket], contents, bucket, |list|);
      forall k | bucket < k < |list| ensures Leads(next', heads[k], list[k]) {
        assert ChainOk(list[k], contents, k, |list|);
        LeadsStill(nextHash, next', heads[k], list[k]);
      }
    }

    /** The chains before `i` have been moved. */
    ghost predicate Moved(moved: set<Handle>, i: nat)
      requires length > 0
      reads this
    {
      moved <= contents && forall h :: h in contents ==> (h in moved <==> Masked(h.hash, length) < i)
    }

    lemma ChainAt(i: nat, moved: set<Handle>)
      requires |list| == length > 0 && Chained(list, contents) && i < length && Moved(moved, i)
      ensures NoDups(list[i]) && forall h :: h in list[i] ==> h !in moved
    {
      assert ChainOk(list[i], contents, i, length);
    }

    lemma AllMoved(moved: set<Handle>)
      requires length > 0 && Moved(moved, length)
      ensures moved == contents
    {
      assert forall h :: h in contents ==> Masked(h.hash, length) < length;
    }

    lemma ChainMoved(before: set<Handle>, i: nat, moved: set<Handle>)
      requires |list| == length > 0 && Chained(list, contents) && i < length && Moved(before, i)
      requires moved == before + Members(list[i])
      ensures Moved(moved, i + 1)
    {
      assert ChainOk(list[i], contents, i, length);
    }
  }

  ghost function EmptyList(n: nat): (r: seq<seq<Handle>>)
    requires n > 0
    ensures |r| == n && Chained(r, {})
  {
    seq(n, _ => [])
  }

  lemma NothingLinked(n: nat, next: Links)
    requires n > 0
    ensures Linked(seq(n, _ => None), next, EmptyList(n))
  {
  }

  lemma LeadsToFirst(next: Links, p: Option<Handle>, chain: seq<Handle>, j: nat)
    requires p.Some? && j <= |chain| && Leads(next, p, chain[j..])
    ensures j < |chain| && p.value == chain[j] && chain[j] in next && Leads(next, next[chain[j]], chain[j + 1..])
  {
    assert chain[j..] != [] ==> chain[j..][1..] == chain[j + 1..];
  }

  lemma LeadsNowhere(next: Links, chain: seq<Handle>, j: nat)
    requires j <= |chain| && Leads(next, None, chain[j..])
    ensures j == |chain|
  {
  }

  ghost function Members(chain: seq<Handle>): set<Handle> {
    set h | h in chain
  }

  lemma FreshInChain(chain: seq<Handle>, moved: set<Handle>, j: nat)
    requires NoDups(chain) && j < |chain| && forall h :: h in chain ==> h !in moved
    ensures chain[j] !in moved + Members(chain[..j])
    ensures moved + Members(chain[..j + 1]) == moved + Members(chain[..j]) + {chain[j]}
  {
    assert chain[..j + 1] == chain[..j] + [chain[j]];
  }

  /** The chain holds the entries of its hash values, once each. */
  ghost predicate ChainOk(chain: seq<Handle>, contents: set<Handle>, i: nat, length: nat)
    requires length > 0
  {
    NoDups(chain) && forall h :: h in chain <==> h in contents && Masked(h.hash, length) == i
  }

  ghost predicate Chained(list: seq<seq<Handle>>, contents: set<Handle>) {
    |list| > 0 && forall i :: 0 <= i < |list| ==> ChainOk(list[i], contents, i, |list|)
  }

  /** A change that concerns one chain only. */
  lemma ChainChanged(list: seq<seq<Handle>>, contents: set<Handle>, i: nat, chain: seq<Handle>, contents': set<Handle>)
    requires Chained(list, contents) && i < |list| && ChainOk(chain, contents', i, |list|)
    requires forall h :: h in contents || h in contents' ==> Masked(h.hash, |list|) == i || (h in contents && h in contents')
    ensures Chained(list[i := chain], contents')
  {
    var list' := list[i := chain];
    forall j | 0 <= j < |list'| ensures ChainOk(list'[j], contents', j, |list'|) {
      if j != i {
        assert ChainOk(list[j], contents, j, |list|);
      }
    }
  }

  lemma AppendToChain(list: seq<seq<Handle>>, contents: set<Handle>, i: nat, h: Handle)
    requires Chained(list, contents) && i < |list| && h !in contents && Masked(h.hash, |list|) == i
    ensures Chained(list[i := list[i] + [h]], contents + {h})
  {
    assert ChainOk(list[i], contents, i, |list|);
    ChainChanged(list, contents, i, list[i] + [h], contents + {h});
  }

  lemma PrependToChain(list: seq<seq<Handle>>, contents: set<Handle>, i: nat, h: Handle)
    requires Chained(list, contents) && i < |list| && h !in contents && Masked(h.hash, |list|) == i
    ensures Chained(list[i := [h] + list[i]], contents + {h})
  {
    assert ChainOk(list[i], contents, i, |list|);
    ChainChanged(list, contents, i, [h] + list[i], contents + {h});
  }

  lemma ReplaceInChain(list: seq<seq<Handle>>, contents: set<Handle>, i: nat, slot: nat, h: Handle)
    requires Chained(list, contents) && i < |list| && slot < |list[i]| && h !in contents && Masked(h.hash, |list|) == i
    ensures Chained(list[i := list[i][slot := h]], contents - {list[i][slot]} + {h})
  {
    var chain := list[i];
    assert ChainOk(chain, contents, i, |list|);
    ReplacedMembers(chain, slot, h);
    ChainChanged(list, contents, i, chain[slot := h], contents - {chain[slot]} + {h});
  }

  lemma ReplacedMembers(chain: seq<Handle>, slot: nat, h: Handle)
    requires NoDups(chain) && slot < |chain| && h !in chain
    ensures NoDups(chain[slot := h])
    ensures forall x :: x in chain[slot := h] <==> x == h || (x in chain && x != chain[slot])
  {
    forall x ensures x in chain[slot := h] <==> x == h || (x in chain && x != chain[slot]) {
      if x in chain && x != chain[slot] {
        var k :| 0 <= k < |chain| && chain[k] == x;
        assert chain[slot := h][k] == x;
      }
      assert chain[slot := h][slot] == h;
    }
  }

  lemma CutFromChain(list: seq<seq<Handle>>, contents: set<Handle>, i: nat, slot: nat)
    requires Chained(list, contents) && i < |list| && slot < |list[i]|
    ensures Chained(list[i := list[i][..slot] + list[i][slot + 1..]], contents - {list[i][slot]})
  {
    var chain := list[i];
    assert ChainOk(chain, contents, i, |list|);
    CutMembers(chain, slot);
    ChainChanged(list, contents, i, chain[..slot] + chain[slot + 1..], contents - {chain[slot]});
  }

  lemma CutMembers<T>(chain: seq<T>, slot: nat)
    requires NoDups(chain) && slot < |chain|
    ensures var rest := chain[..slot] + chain[slot + 1..];
            NoDups(rest) && forall x :: x in rest <==> x in chain && x != chain[slot]
  {
    var rest := chain[..slot] + chain[slot + 1..];
    forall x ensures x in rest <==> x in chain && x != chain[slot] {
      if x in chain && x != chain[slot] {
        var k :| 0 <= k < |chain| && chain[k] == x;
        assert if k < slot then rest[k] == x else rest[k - 1] == x;
      }
      if x in rest {
        var k :| 0 <= k < |rest| && rest[k] == x;
        assert x == if k < slot then chain[k] else chain[k + 1];
      }
    }
  }
}
