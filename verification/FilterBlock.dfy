/** The filter block of a table (table/filter_block.cc): one filter per 2 KiB of data
    offsets. */
module FilterBlock {
  import opened Coding
  import opened KeyOrders
  import opened Block
  import opened BlockIter
  import opened Comparators
  import Bloom

  const BASE_LG := 11
  const BASE := 2048

  /** A filter policy: what CreateFilter appends, and KeyMayMatch. */
  datatype Policy = Policy(create: seq<Bytes> -> Bytes, mayMatch: (Bytes, Bytes) -> bool) {
    ghost predicate NoFalseNegatives() {
      forall keys, key :: key in keys ==> mayMatch(key, create(keys))
    }

    /** Also a key that the comparator does not tell from one of the filter's keys matches. */
    ghost predicate Serves(lt: KeyOrder) {
      forall keys, key, probe :: key in keys && Alike(lt, key, probe) ==> mayMatch(probe, create(keys))
    }
  }

  predicate Alike(lt: KeyOrder, a: Bytes, b: Bytes) {
    !lt(a, b) && !lt(b, a)
  }

  /** Keys that the comparator does not tell apart are the same bytes. */
  ghost predicate Exact(lt: KeyOrder) {
    forall a: Bytes, b: Bytes :: Alike(lt, a, b) ==> a == b
  }

  lemma BytewiseIsExact()
    ensures Exact(Less)
  {
    forall a: Bytes, b: Bytes | Alike(Less, a, b) ensures a == b {
      LessTotal(a, b);
    }
  }

  /** A policy over bytes serves every comparator that is exact on bytes. */
  lemma ServesExact(policy: Policy, lt: KeyOrder)
    requires policy.NoFalseNegatives() && Exact(lt)
    ensures policy.Serves(lt)
  {
  }

  function BloomPolicy(hash: Bloom.Hash, bitsPerKey: nat, k: nat): Policy
    requires 1 <= k <= 30
  {
    Policy((keys: seq<Bytes>) => Bloom.Filter(hash, bitsPerKey, k, keys),
           (key: Bytes, filter: Bytes) => Bloom.MayMatch(hash, key, filter))
  }

  lemma BloomHasNone(hash: Bloom.Hash, bitsPerKey: nat, k: nat)
    requires 1 <= k <= 30
    ensures BloomPolicy(hash, bitsPerKey, k).NoFalseNegatives()
  {
    var p := BloomPolicy(hash, bitsPerKey, k);
    forall keys: seq<Bytes>, key: Bytes | key in keys ensures p.mayMatch(key, p.create(keys)) {
      Bloom.CreatedMatches(hash, bitsPerKey, k, keys, key);
    }
  }

  /** In particular with the bytewise comparator. */
  lemma BloomServes(hash: Bloom.Hash, bitsPerKey: nat, k: nat, lt: KeyOrder)
    requires 1 <= k <= 30 && (Exact(lt) || lt == Less)
    ensures BloomPolicy(hash, bitsPerKey, k).Serves(lt)
  {
    BloomHasNone(hash, bitsPerKey, k);
    BytewiseIsExact();
    ServesExact(BloomPolicy(hash, bitsPerKey, k), lt);
  }

  // ------------------------------------------------------------------------ layout

  /** One filter: nothing for no keys. */
  function FilterOf(policy: Policy, keys: seq<Bytes>): Bytes {
    if keys == [] then [] else policy.create(keys)
  }

  /** The filters of the first `n` groups of keys, one after the other. */
  function Filters(policy: Policy, groups: seq<seq<Bytes>>, n: nat): Bytes
    requires n <= |groups|
  {
    if n == 0 then [] else Filters(policy, groups, n - 1) + FilterOf(policy, groups[n - 1])
  }

  function Offsets(policy: Policy, groups: seq<seq<Bytes>>): (r: seq<nat>)
    ensures |r| == |groups|
  {
    seq(|groups|, i requires 0 <= i < |groups| => |Filters(policy, groups, i)|)
  }

  /** The offset of each filter, and the end of the last one. */
  function Words(policy: Policy, groups: seq<seq<Bytes>>): (r: seq<nat>)
    ensures |r| == |groups| + 1
  {
    Offsets(policy, groups) + [|Filters(policy, groups, |groups|)|]
  }

  /** The finished block: filters, their offsets, the offset of the offsets, and the base. */
  function Assembled(policy: Policy, groups: seq<seq<Bytes>>): Bytes {
    Filters(policy, groups, |groups|) + Flat(EncodeWord, Words(policy, groups)) + [BASE_LG]
  }

  lemma {:induction false} FiltersStable(policy: Policy, groups: seq<seq<Bytes>>, keys: seq<Bytes>, n: nat)
    requires n <= |groups|
    ensures Filters(policy, groups + [keys], n) == Filters(policy, groups, n)
  {
    if n > 0 {
      FiltersStable(policy, groups, keys, n - 1);
    }
  }

  lemma OneMoreFilter(policy: Policy, groups: seq<seq<Bytes>>, keys: seq<Bytes>)
    ensures Filters(policy, groups + [keys], |groups| + 1) == Filters(policy, groups, |groups|) + FilterOf(policy, keys)
    ensures Offsets(policy, groups + [keys]) == Offsets(policy, groups) + [|Filters(policy, groups, |groups|)|]
  {
    FiltersStable(policy, groups, keys, |groups|);
    forall i | 0 <= i < |groups| + 1 ensures Filters(policy, groups + [keys], i) == Filters(policy, groups, i) {
      FiltersStable(policy, groups, keys, i);
    }
  }

  // ----------------------------------------------------------------------- builder

  /** The keys of a filter as flattened contents and start offsets. */
  function Flattened(keys: seq<Bytes>): Bytes {
    if keys == [] then [] else Flattened(keys[..|keys| - 1]) + keys[|keys| - 1]
  }

  function Starts(keys: seq<Bytes>): (r: seq<nat>)
    ensures |r| == |keys|
  {
    if keys == [] then [] else Starts(keys[..|keys| - 1]) + [|Flattened(keys[..|keys| - 1])|]
  }

  lemma FlattenedSnoc(keys: seq<Bytes>, key: Bytes)
    ensures Flattened(keys + [key]) == Flattened(keys) + key && Starts(keys + [key]) == Starts(keys) + [|Flattened(keys)|]
  {
    assert (keys + [key])[..|keys|] == keys;
  }

  lemma {:induction false} KeyAt(keys: seq<Bytes>, i: nat)
    requires i < |keys|
    ensures var ends := Starts(keys) + [|Flattened(keys)|];
            0 <= ends[i] <= ends[i + 1] <= |Flattened(keys)| && Flattened(keys)[ends[i]..ends[i + 1]] == keys[i]
  {
    var init, last := keys[..|keys| - 1], keys[|keys| - 1];
    if i < |keys| - 1 {
      KeyAt(init, i);
      var ends := Starts(init) + [|Flattened(init)|];
      assert (Flattened(init) + last)[ends[i]..ends[i + 1]] == Flattened(init)[ends[i]..ends[i + 1]];
    }
  }

  /** The keys that were added under block offsets of group `i`, in order. */
  function KeysOf(added: seq<(nat, Bytes)>, i: nat): seq<Bytes> {
    if added == [] then []
    else
      var last := added[|added| - 1];
      KeysOf(added[..|added| - 1], i) + if last.0 / BASE == i then [last.1] else []
  }

  /** No key was added beyond group `i`. */
  ghost predicate NoneBeyond(added: seq<(nat, Bytes)>, i: nat) {
    forall p :: p in added ==> p.0 / BASE <= i
  }

  lemma {:induction false} NoneThere(added: seq<(nat, Bytes)>, i: nat, j: nat)
    requires NoneBeyond(added, i) && i < j
    ensures KeysOf(added, j) == []
  {
    if added != [] {
      NoneThere(added[..|added| - 1], i, j);
    }
  }

  lemma {:induction false} InItsGroup(added: seq<(nat, Bytes)>, p: (nat, Bytes))
    requires p in added
    ensures p.1 in KeysOf(added, p.0 / BASE)
  {
    if p != added[|added| - 1] {
      InItsGroup(added[..|added| - 1], p);
    }
  }

  lemma OneMoreKey(added: seq<(nat, Bytes)>, p: (nat, Bytes))
    ensures forall i: nat :: KeysOf(added + [p], i) == KeysOf(added, i) + if p.0 / BASE == i then [p.1] else []
  {
    assert (added + [p])[..|added|] == added;
  }

  class Builder {
    const policy: Policy
    var keys: Bytes                 // flattened key contents
    var start: seq<nat>             // starting index of each key in `keys`
    var result: Bytes               // the filters made so far
    var filterOffsets: seq<nat>

    // The keys waiting for a filter, the groups that have one, the current block, and every
    // (block offset, key) pair added.
    ghost var pending: seq<Bytes>
    ghost var groups: seq<seq<Bytes>>
    ghost var blockOffset: nat
    ghost var added: seq<(nat, Bytes)>

    ghost predicate Valid()
      reads this
    {
      KeysOk() && Grouped() && |groups| == blockOffset / BASE
    }

    /** Each group has exactly the keys of its blocks; those of the current one are pending. */
    ghost predicate Grouped()
      reads this
    {
      && (forall i :: 0 <= i < |groups| ==> groups[i] == KeysOf(added, i))
      && pending == KeysOf(added, |groups|) && NoneBeyond(added, |groups|)
    }

    constructor (policy: Policy)
      ensures Valid() && added == [] && blockOffset == 0 && this.policy == policy
    {
      this.policy := policy;
      keys, start, result, filterOffsets := [], [], [], [];
      pending, groups, blockOffset, added := [], [], 0, [];
    }

    ghost predicate KeysOk()
      reads this
    {
      && keys == Flattened(pending) && start == Starts(pending)
      && result == Filters(policy, groups, |groups|) && filterOffsets == Offsets(policy, groups)
    }

    method GenerateFilter()
      requires KeysOk()
      modifies this
      ensures KeysOk() && groups == old(groups) + [old(pending)] && pending == []
      ensures added == old(added) && blockOffset == old(blockOffset)
    {
      OneMoreFilter(policy, groups, pending);
      var numKeys := |start|;
      groups := groups + [pending];
      if numKeys == 0 {
        // Without keys there is no filter to make
        filterOffsets := filterOffsets + [|result|];
        return;
      }
      // Recover the keys from their flattened form
      var tmpKeys := Split();
      filterOffsets := filterOffsets + [|result|];
      result := result + policy.create(tmpKeys);
      keys, start, pending := [], [], [];
    }

    method Split() returns (tmpKeys: seq<Bytes>)
      requires keys == Flattened(pending) && start == Starts(pending)
      ensures tmpKeys == pending
    {
      var ends: seq<nat> := start + [|keys|];
      tmpKeys := [];
      for i := 0 to |start|
        invariant tmpKeys == pending[..i]
      {
        KeyAt(pending, i);
        tmpKeys := tmpKeys + [keys[ends[i]..ends[i + 1]]];
      }
    }

    method StartBlock(offset: nat)
      requires Valid() && offset >= blockOffset
      modifies this
      ensures Valid() && blockOffset == offset && added == old(added)
    {
      hide KeysOf, Filters, Offsets, Flattened, Starts;
      var filterIndex := offset / BASE;
      while filterIndex > |filterOffsets|
        invariant KeysOk() && Grouped() && |groups| <= filterIndex && added == old(added)
        decreases filterIndex - |filterOffsets|
      {
        NoneThere(added, |groups|, |groups| + 1);
        GenerateFilter();
      }
      blockOffset := offset;
    }

    method AddKey(key: Bytes)
      requires Valid()
      modifies this
      ensures Valid() && blockOffset == old(blockOffset) && added == old(added) + [(blockOffset, key)]
    {
      hide KeysOf, Filters, Offsets, Flattened, Starts;
      FlattenedSnoc(pending, key);
      start := start + [|keys|];
      keys := keys + key;
      pending := pending + [key];
      OneMoreKey(added, (blockOffset, key));
      added := added + [(blockOffset, key)];
    }

    method Finish() returns (block: Bytes)
      requires Valid()
      modifies this
      ensures added == old(added) && blockOffset == old(blockOffset) && block == Assembled(policy, groups)
      ensures forall i :: 0 <= i < |groups| ==> groups[i] == KeysOf(added, i)
      ensures |groups| == blockOffset / BASE + if KeysOf(added, blockOffset / BASE) == [] then 0 else 1
      ensures forall p :: p in added ==> InGroup(groups, p.0, p.1)
    {
      hide Filters, Offsets, Flattened, KeysOf, EncodeFixed, Flat;
      forall p | p in added ensures p.1 in KeysOf(added, p.0 / BASE) {
        InItsGroup(added, p);
      }
      if start != [] {
        GenerateFilter();
      }
      // The offset array, then where it starts
      var arrayOffset := |result|;
      block := AppendWords(result, filterOffsets);
      var words: seq<nat> := filterOffsets + [arrayOffset];
      OneMoreWord(result, words, |filterOffsets|);
      assert words[..|filterOffsets|] == filterOffsets && words[..|words|] == words;
      block := block + EncodeWord(arrayOffset);
      block := block + [BASE_LG];
    }

    static method AppendWords(data: Bytes, words: seq<nat>) returns (block: Bytes)
      ensures block == data + Flat(EncodeWord, words)
    {
      block := data;
      for i := 0 to |words|
        invariant block == data + Flat(EncodeWord, words[..i])
      {
        OneMoreWord(data, words, i);
        block := block + EncodeWord(words[i]);
      }
      assert words[..|words|] == words;
    }
  }

  /** The key is among those of the filter that covers its block. */
  ghost predicate InGroup(groups: seq<seq<Bytes>>, offset: nat, key: Bytes) {
    offset / BASE < |groups| && key in groups[offset / BASE]
  }

  // ------------------------------------------------------------------------ reader

  /** `block_offset >> base_lg`. */
  function Index(blockOffset: nat, baseLg: nat): nat {
    if baseLg == 0 then blockOffset else Index(blockOffset / 2, baseLg - 1)
  }

  lemma IndexIsGroup(blockOffset: nat)
    ensures Index(blockOffset, BASE_LG) == blockOffset / BASE
  {
    FourHalvings(blockOffset, 7);
    FourHalvings(blockOffset / 16, 3);
    var n := blockOffset / 16 / 16;
    assert Index(n, 3) == Index(n / 2, 2) == Index(n / 2 / 2, 1) == Index(n / 2 / 2 / 2, 0);
  }

  lemma FourHalvings(n: nat, more: nat)
    ensures Index(n, 4 + more) == Index(n / 16, more)
  {
    var a, b, c := n / 2, n / 2 / 2, n / 2 / 2 / 2;
    assert Index(n, 4 + more) == Index(a, 3 + more);
    assert Index(a, 3 + more) == Index(b, 2 + more);
    assert Index(b, 2 + more) == Index(c, 1 + more);
    assert Index(c, 1 + more) == Index(c / 2, more);
  }

  /** `FilterBlockReader`: where things are in the block; num is 0 if it is malformed. */
  datatype Reader = Reader(data: Bytes, offset: nat, num: nat, baseLg: nat) {
    ghost predicate Valid() {
      num > 0 ==> offset + 4 * num + 5 <= |data|
    }
  }

  function Open(contents: Bytes): (r: Reader)
    ensures r.Valid()
  {
    var n := |contents|;
    if n < 5 then Reader([], 0, 0, 0)
    else
      var lastWord := WordAt(contents, n - 5);
      if lastWord > n - 5 then Reader([], 0, 0, contents[n - 1])
      else Reader(contents, lastWord, (n - 5 - lastWord) / 4, contents[n - 1])
  }

  function WordAt(data: Bytes, at: nat): nat
    requires at + 4 <= |data|
  {
    DecodeFixed(data[at..at + 4])
  }

  /** `KeyMayMatch`: a block that makes no sense matches everything. */
  function KeyMayMatch(policy: Policy, r: Reader, blockOffset: nat, key: Bytes): bool
    requires r.Valid()
  {
    var index := Index(blockOffset, r.baseLg);
    if index < r.num then
      var start, limit := WordAt(r.data, r.offset + index * 4), WordAt(r.data, r.offset + index * 4 + 4);
      if start <= limit && limit <= r.offset then policy.mayMatch(key, r.data[start..limit])
      else start != limit
    else true
  }

  // ------------------------------------------------------------- no false negatives

  /** Where the parts of a finished block are. */
  lemma FilterBlockParts(policy: Policy, groups: seq<seq<Bytes>>)
    ensures var data, end := Assembled(policy, groups), |Filters(policy, groups, |groups|)|;
            && |data| == end + 4 * |groups| + 5 && Holds(data, end, Flat(EncodeWord, Words(policy, groups)))
            && Filters(policy, groups, |groups|) == data[..end] && data[|data| - 1] == BASE_LG
  {
    hide Filters, EncodeWord, Flat;
    var a, words := Filters(policy, groups, |groups|), Words(policy, groups);
    var b := Flat(EncodeWord, words);
    WordsLength(words);
    var data := a + b + [BASE_LG];
    assert data[|a|..|a| + |b|] == b && data[..|a|] == a;
  }

  /** The offset of a filter, read from the block. */
  lemma OffsetRead(policy: Policy, groups: seq<seq<Bytes>>, i: nat)
    requires i <= |groups| && |Assembled(policy, groups)| < TWO_32
    ensures var data, end := Assembled(policy, groups), |Filters(policy, groups, |groups|)|;
            && end + 4 * i + 4 < |data| && WordAt(data, end + 4 * i) == |Filters(policy, groups, i)| <= end
  {
    hide Assembled, EncodeWord, Flat, Filters;
    FilterBlockParts(policy, groups);
    var words := Words(policy, groups);
    FiltersGrow(policy, groups, i, |groups|);
    WordsHold(Assembled(policy, groups), |Filters(policy, groups, |groups|)|, words, i);
    WordRead(Assembled(policy, groups), |Filters(policy, groups, |groups|)| + 4 * i, words[i]);
  }

  lemma {:induction false} FiltersGrow(policy: Policy, groups: seq<seq<Bytes>>, i: nat, n: nat)
    requires i <= n <= |groups|
    ensures Filters(policy, groups, i) <= Filters(policy, groups, n)
    decreases n
  {
    if i < n {
      FiltersGrow(policy, groups, i, n - 1);
    }
  }

  /** The reader finds one filter per group in a finished block. */
  lemma OpensAsBuilt(policy: Policy, groups: seq<seq<Bytes>>)
    requires |Assembled(policy, groups)| < TWO_32
    ensures Open(Assembled(policy, groups)) == Reader(Assembled(policy, groups), |Filters(policy, groups, |groups|)|, |groups|, BASE_LG)
  {
    hide Assembled, Filters, WordAt;
    FilterBlockParts(policy, groups);
    OffsetRead(policy, groups, |groups|);
  }

  lemma NextFilter(policy: Policy, groups: seq<seq<Bytes>>, i: nat)
    requires i < |groups|
    ensures Filters(policy, groups, i + 1) == Filters(policy, groups, i) + FilterOf(policy, groups[i])
  {
  }

  /** The filter of a group, cut out of the block. */
  lemma FilterCut(policy: Policy, groups: seq<seq<Bytes>>, i: nat)
    requires i < |groups| && |Assembled(policy, groups)| < TWO_32
    ensures var data, end := Assembled(policy, groups), |Filters(policy, groups, |groups|)|;
            && end + 4 * i + 8 <= |data| && WordAt(data, end + 4 * i) <= WordAt(data, end + 4 * i + 4) <= end
            && data[WordAt(data, end + 4 * i)..WordAt(data, end + 4 * i + 4)] == FilterOf(policy, groups[i])
  {
    hide Assembled, WordAt, Flat, EncodeWord, Filters, FilterOf, Words;
    FilterBlockParts(policy, groups);
    OffsetRead(policy, groups, i);
    OffsetRead(policy, groups, i + 1);
    NextFilter(policy, groups, i);
    FiltersGrow(policy, groups, i + 1, |groups|);
    CutOfPrefix(Assembled(policy, groups), Filters(policy, groups, |groups|), Filters(policy, groups, i), FilterOf(policy, groups[i]));
  }

  lemma CutOfPrefix(data: Bytes, all: Bytes, a: Bytes, b: Bytes)
    requires all <= data && a + b <= all
    ensures data[|a|..|a| + |b|] == b
  {
    assert all[..|a| + |b|] == a + b && data[..|all|] == all;
    assert data[..|a| + |b|] == a + b;
    assert (a + b)[|a|..] == b;
  }

  /** A finished block answers for a group as the policy does for the filter of its keys, and
      lets everything behind the last group through. */
  lemma MatchesByGroup(policy: Policy, groups: seq<seq<Bytes>>, blockOffset: nat, key: Bytes)
    requires |Assembled(policy, groups)| < TWO_32
    ensures var i := blockOffset / BASE;
            KeyMayMatch(policy, Open(Assembled(policy, groups)), blockOffset, key)
            == if i < |groups| then policy.mayMatch(key, if groups[i] == [] then [] else policy.create(groups[i])) else true
  {
    hide Assembled, WordAt, Filters, Open, Index;
    var i := blockOffset / BASE;
    IndexIsGroup(blockOffset);
    OpensAsBuilt(policy, groups);
    if i < |groups| {
      FilterCut(policy, groups, i);
    }
  }

  /** A block that is too short, or whose offsets would start behind its end, matches everything. */
  lemma MalformedMatches(policy: Policy, contents: Bytes, blockOffset: nat, key: Bytes)
    requires |contents| < 5 || WordAt(contents, |contents| - 5) > |contents| - 5
    ensures KeyMayMatch(policy, Open(contents), blockOffset, key)
  {
  }

  /** What the policy matches with every set that has the key, the block matches at the offset
      of the key's block. */
  lemma ProbeMatches(policy: Policy, groups: seq<seq<Bytes>>, blockOffset: nat, key: Bytes, probe: Bytes)
    requires forall keys :: key in keys ==> policy.mayMatch(probe, policy.create(keys))
    requires |Assembled(policy, groups)| < TWO_32 && InGroup(groups, blockOffset, key)
    ensures KeyMayMatch(policy, Open(Assembled(policy, groups)), blockOffset, probe)
  {
    hide Assembled, Open, KeyMayMatch;
    MatchesByGroup(policy, groups, blockOffset, probe);
  }

  /** A key is matched at the offset of its block, if the policy has no false negatives. */
  lemma AddedMatches(policy: Policy, groups: seq<seq<Bytes>>, blockOffset: nat, key: Bytes)
    requires policy.NoFalseNegatives() && |Assembled(policy, groups)| < TWO_32 && InGroup(groups, blockOffset, key)
    ensures KeyMayMatch(policy, Open(Assembled(policy, groups)), blockOffset, key)
  {
    ProbeMatches(policy, groups, blockOffset, key, key);
  }
}
