/** src/hash.c: a table of chained buckets, each a linked list behind a sentinel, as a finite map. */
module HashTables {
  import opened CStrings
  import opened Memory

  const UINT_RANGE := 0x1_0000_0000

  // ----- the hash function -----

  /** The value a (signed) C char contributes to an unsigned sum. */
  function CharValue(c: char): (v: int)
    ensures -128 <= v < 128 && (c as int - v) % 256 == 0
  {
    var low := c as int % 256;
    if low < 128 then low else low - 256
  }

  /** The true sum of the characters of a key, without any wrap-around. */
  function CharSum(key: string): int {
    if key == [] then 0 else CharSum(key[..|key| - 1]) + CharValue(key[|key| - 1])
  }

  /** The bucket a key belongs to: its character sum modulo 2^32, modulo the table size. */
  function Bucket(key: string, size: nat): (b: nat)
    requires size > 0
    ensures b < size
  {
    CharSum(key) % UINT_RANGE % size
  }

  /** The sum of a key is that of its parts, so keys with the same characters share a bucket in any order. */
  lemma {:induction false} SumOfParts(a: string, b: string)
    ensures CharSum(a + b) == CharSum(a) + CharSum(b) == CharSum(b + a)
    ensures |a| == 1 ==> CharSum(a) == CharValue(a[0])
    decreases |a| + |b|
  {
    PartsSum(a, b);
    PartsSum(b, a);
    if |a| == 1 {
      assert a[..0] == [];
    }
  }

  lemma {:induction false} PartsSum(a: string, b: string)
    ensures CharSum(a + b) == CharSum(a) + CharSum(b)
    decreases |b|
  {
    if b == [] {
      assert a + b == a;
    } else {
      assert (a + b)[..|a + b| - 1] == a + b[..|b| - 1];
      PartsSum(a, b[..|b| - 1]);
    }
  }

  /** stdHashFunction: adds up with a wrap at every step; only the final remainder matters. */
  method StdHashFunction(key: array<char>, off: nat, size: nat) returns (b: nat)
    requires size > 0 && Terminated(key[..], off)
    ensures b == Bucket(CStr(key[..], off), size)
  {
    var i, sum := 0, 0;
    ghost var name := CStr(key[..], off);
    while key[off + i] != NUL
      invariant i <= |name| && off + |name| == StrEnd(key[..], off)
      invariant 0 <= sum < UINT_RANGE && sum == CharSum(name[..i]) % UINT_RANGE
      decreases |name| - i
    {
      assert i < |name| && key[off + i] == name[i];
      assert name[..i + 1][..i] == name[..i];
      WrapOnce(CharSum(name[..i]), CharValue(name[i]));
      sum := (sum + CharValue(key[off + i])) % UINT_RANGE;
      i := i + 1;
    }
    assert name[..i] == name;
    b := sum % size;
  }

  lemma WrapOnce(a: int, b: int)
    ensures (a % UINT_RANGE + b) % UINT_RANGE == (a + b) % UINT_RANGE
  {
  }

  // ----- entries and chains -----

  /** struct HashEntry. The key buffer never changes once the entry is linked in. */
  class HashEntry {
    const key: array?<char>
    ghost const name: string
    ghost const bucket: nat
    var value: object?
    var next: HashEntry?

    constructor (key: array?<char>, ghost name: string, ghost bucket: nat)
      ensures this.key == key && this.name == name && this.bucket == bucket && next == null
    {
      this.key, this.name, this.bucket := key, name, bucket;
      value, next := null, null;
    }
  }

  type Chains = seq<seq<HashEntry>>

  /** The abstract state of a table: chains[b] lists the entries of bucket b from its sentinel on,
      content is the finite map the table stands for, place the position of each key in its bucket, and
      blocks are exactly the entries and key copies the table owns. */
  datatype View = View(chains: Chains, content: map<string, object?>, place: map<string, nat>, blocks: set<object>)

  /** The key copies of a chain. */
  ghost function Keys(c: seq<HashEntry>): set<object> {
    set j | 0 <= j < |c| && c[j].key != null :: c[j].key as object
  }

  /** The blocks a chain owns: its entries and their key copies. */
  ghost function Blocks(c: seq<HashEntry>): set<object> {
    if c == [] then {} else
      var last := c[|c| - 1];
      Blocks(c[..|c| - 1]) + {last} + if last.key == null then {} else {last.key}
  }

  /** The blocks all chains own. */
  ghost function AllBlocks(chains: Chains): set<object> {
    if chains == [] then {} else
      AllBlocks(chains[..|chains| - 1]) + Blocks(chains[|chains| - 1])
  }

  /** The key of an entry is a private, terminated copy of its name and hashes to its bucket. */
  ghost predicate EntryValid(n: HashEntry, hashFunc: string -> nat, v: View)
    reads n, if n.key == null then {} else {n.key}
  {
    && n.key != null && NUL !in n.name && n.key[..] == n.name + [NUL]
    && n.bucket == hashFunc(n.name)
    && n.name in v.content && v.content[n.name] == n.value
  }

  /** The next pointers run through c and end there. */
  ghost predicate Linked(c: seq<HashEntry>)
    reads c
  {
    |c| >= 1 && forall j {:trigger c[j].next} :: 0 <= j < |c| ==> c[j].next == if j + 1 < |c| then c[j + 1] else null
  }

  /** One bucket: a list behind a keyless sentinel. Every entry records the bucket it is in, and
      every key the position it is at, so no entry and no key occurs twice. */
  ghost predicate Chained(c: seq<HashEntry>, b: nat, hashFunc: string -> nat, v: View)
    reads c, Keys(c)
  {
    && Linked(c) && c[0].key == null
    && (forall j :: 0 <= j < |c| ==> c[j].bucket == b)
    && (forall j :: 1 <= j < |c| ==>
          EntryValid(c[j], hashFunc, v) && c[j].name in v.place && v.place[c[j].name] == j)
  }

  /** The entry for k stands in the bucket of k at its recorded position. */
  ghost predicate Placed(k: string, hashFunc: string -> nat, v: View) {
    && hashFunc(k) < |v.chains| && k in v.place
    && 1 <= v.place[k] < |v.chains[hashFunc(k)]| && v.chains[hashFunc(k)][v.place[k]].name == k
  }

  /** The maps know exactly the keys that have an entry. */
  ghost predicate Indexed(v: View, hashFunc: string -> nat) {
    v.place.Keys == v.content.Keys && forall k :: k in v.content ==> Placed(k, hashFunc, v)
  }

  ghost predicate Inside(c: seq<HashEntry>, blocks: set<object>) {
    forall j :: 0 <= j < |c| ==> c[j] in blocks && (c[j].key != null ==> c[j].key in blocks)
  }

  ghost predicate AllInside(v: View) {
    forall b :: 0 <= b < |v.chains| ==> Inside(v.chains[b], v.blocks)
  }

  ghost predicate AllChained(v: View, hashFunc: string -> nat)
    reads v.blocks
  {
    AllInside(v) && forall b :: 0 <= b < |v.chains| ==> Chained(v.chains[b], b, hashFunc, v)
  }

  ghost predicate ChainsPresent(chains: Chains) {
    forall b :: 0 <= b < |chains| ==> |chains[b]| >= 1
  }

  /** The entries of all chains in bucket order, sentinels left out. */
  ghost function Entries(chains: Chains): seq<HashEntry>
    requires ChainsPresent(chains)
  {
    if chains == [] then [] else Entries(chains[..|chains| - 1]) + chains[|chains| - 1][1..]
  }

  lemma NoEntries(chains: Chains)
    requires ChainsPresent(chains)
    ensures Entries(chains[..0]) == [] && KeysOf([]) == []
  {
  }

  lemma EntriesNext(chains: Chains, b: nat)
    requires ChainsPresent(chains)
    requires b < |chains|
    ensures Entries(chains[..b + 1]) == Entries(chains[..b]) + chains[b][1..]
  {
    assert chains[..b + 1][..b] == chains[..b];
  }

  lemma {:induction false} EntriesPrefix(chains: Chains, b: nat)
    requires ChainsPresent(chains)
    requires b <= |chains|
    ensures |Entries(chains[..b])| <= |Entries(chains)|
  {
    if b == |chains| {
      assert chains[..b] == chains;
    } else {
      EntriesPrefix(chains[..|chains| - 1], b);
      assert chains[..|chains| - 1][..b] == chains[..b];
    }
  }

  /** The keys of a list of entries. */
  ghost function KeysOf(es: seq<HashEntry>): (keys: seq<array?<char>>)
    ensures |keys| == |es| && forall x :: 0 <= x < |es| ==> keys[x] == es[x].key
  {
    seq(|es|, x requires 0 <= x < |es| => es[x].key)
  }

  lemma KeysOfBoth(a: seq<HashEntry>, b: seq<HashEntry>)
    ensures KeysOf(a + b) == KeysOf(a) + KeysOf(b) && KeysOf([]) == []
  {
  }

  ghost predicate Distinct<T(!new)>(s: seq<T>) {
    forall x, y :: 0 <= x < y < |s| ==> s[x] != s[y]
  }

  ghost function Names(es: seq<HashEntry>): (names: seq<string>)
    ensures |names| == |es| && forall x :: 0 <= x < |es| ==> names[x] == es[x].name
  {
    seq(|es|, x requires 0 <= x < |es| => es[x].name)
  }

  /** The entries of the first b buckets carry exactly the keys that hash below b, each once. */
  lemma {:induction false} NamesBelow(v: View, hashFunc: string -> nat, b: nat)
    requires AllChained(v, hashFunc) && Indexed(v, hashFunc) && b <= |v.chains|
    requires ChainsPresent(v.chains)
    ensures Distinct(Names(Entries(v.chains[..b])))
    ensures forall k :: k in Names(Entries(v.chains[..b])) <==> k in v.content && hashFunc(k) < b
  {
    if b > 0 {
      var c := v.chains[b - 1];
      var early, late := Names(Entries(v.chains[..b - 1])), Names(c[1..]);
      NamesBelow(v, hashFunc, b - 1);
      EntriesNext(v.chains, b - 1);
      assert Chained(c, b - 1, hashFunc, v);
      ChainNames(c, b - 1, hashFunc, v);
      assert Names(Entries(v.chains[..b])) == early + late;
      hide *;
      DistinctConcat(early, late);
    }
  }

  lemma DistinctConcat<T(!new)>(a: seq<T>, b: seq<T>)
    requires Distinct(a) && Distinct(b) && forall x :: x in a ==> x !in b
    ensures Distinct(a + b) && forall x :: x in a + b <==> x in a || x in b
  {
    var c := a + b;
    forall i, j | 0 <= i < j < |c| ensures c[i] != c[j] {
      if i < |a| <= j {
        assert c[i] in a && c[j] == b[j - |a|];
      }
    }
  }

  lemma {:induction false} EntriesOwned(v: View, hashFunc: string -> nat, b: nat)
    requires AllChained(v, hashFunc) && b <= |v.chains|
    requires ChainsPresent(v.chains)
    ensures var es := Entries(v.chains[..b]);
      forall x :: 0 <= x < |es| ==> EntryValid(es[x], hashFunc, v) && es[x].key in v.blocks
  {
    if b > 0 {
      EntriesOwned(v, hashFunc, b - 1);
      EntriesNext(v.chains, b - 1);
      var c, early := v.chains[b - 1], Entries(v.chains[..b - 1]);
      assert Chained(c, b - 1, hashFunc, v) && Inside(c, v.blocks);
      hide Entries, EntryValid, Inside;
      forall x | 0 <= x < |early| + |c| - 1
        ensures EntryValid((early + c[1..])[x], hashFunc, v) && (early + c[1..])[x].key in v.blocks
      {
        assert x >= |early| ==> (early + c[1..])[x] == c[x - |early| + 1];
      }
    }
  }

  lemma ChainNames(c: seq<HashEntry>, b: nat, hashFunc: string -> nat, v: View)
    requires Chained(c, b, hashFunc, v) && Indexed(v, hashFunc) && b < |v.chains| && c == v.chains[b]
    ensures Distinct(Names(c[1..]))
    ensures forall k :: k in Names(c[1..]) <==> k in v.content && hashFunc(k) == b
  {
    forall x | 0 <= x < |c| - 1 ensures Names(c[1..])[x] in v.place && v.place[Names(c[1..])[x]] == x + 1
      && hashFunc(Names(c[1..])[x]) == b && Names(c[1..])[x] in v.content
    {
      assert EntryValid(c[x + 1], hashFunc, v);
    }
    forall k | k in v.content && hashFunc(k) == b ensures k in Names(c[1..]) {
      assert Placed(k, hashFunc, v);
      assert Names(c[1..])[v.place[k] - 1] == k;
    }
  }

  /** A list of distinct items is as long as the set of its items is large. */
  lemma {:induction false} DistinctCount(names: seq<string>, keys: set<string>)
    requires Distinct(names) && forall k :: k in names <==> k in keys
    ensures |names| == |keys|
  {
    if names == [] {
      assert keys == {};
    } else {
      var init, last := names[..|names| - 1], names[|names| - 1];
      forall k ensures k in init <==> k in keys - {last} {
        if k in init {
          var x :| 0 <= x < |init| && init[x] == k;
          assert names[x] == k;
        }
        if k in keys - {last} {
          var x :| 0 <= x < |names| && names[x] == k;
          assert init[x] == k;
        }
      }
      DistinctCount(init, keys - {last});
    }
  }

  // ----- the state after each kind of change -----

  /** n stands behind the last entry of its bucket and holds val. */
  ghost function Added(v: View, n: HashEntry, val: object?): View
    requires n.bucket < |v.chains| && n.key != null
  {
    View(v.chains[n.bucket := v.chains[n.bucket] + [n]], v.content[n.name := val],
         v.place[n.name := |v.chains[n.bucket]|], v.blocks + {n, n.key})
  }

  ghost function Without<T>(s: seq<T>, i: nat): seq<T>
    requires i < |s|
  {
    s[..i] + s[i + 1..]
  }

  /** The entry for k has left its bucket; the entries behind it moved up. */
  ghost function Removed(v: View, hashFunc: string -> nat, k: string): View
    requires Placed(k, hashFunc, v) && v.chains[hashFunc(k)][v.place[k]].key != null
  {
    var b := hashFunc(k);
    var n := v.chains[b][v.place[k]];
    View(v.chains[b := Without(v.chains[b], v.place[k])], v.content - {k},
         map k' | k' in v.place && k' != k ::
           if hashFunc(k') == b && v.place[k'] > v.place[k] then v.place[k'] - 1 else v.place[k'],
         v.blocks - {n, n.key})
  }

  // ----- what stays the same -----

  twostate predicate Untouched(c: seq<HashEntry>)
    reads c, Keys(c)
  {
    forall j :: 0 <= j < |c| ==> unchanged(c[j]) && (c[j].key != null ==> unchanged(c[j].key))
  }

  /** Only its own entries, and what the maps say about keys of its own bucket, matter to a chain. */
  twostate lemma KeptChain(was: (View, string -> nat), new b: nat, new v': View)
    requires var (v, hashFunc) := was;
      && b < |v.chains| && old(Chained(v.chains[b], b, hashFunc, v)) && Untouched(v.chains[b])
      && (forall k :: hashFunc(k) == b && k in v.content ==> k in v'.content && v'.content[k] == v.content[k])
      && (forall k :: hashFunc(k) == b && k in v.place ==> k in v'.place && v'.place[k] == v.place[k])
    ensures Chained(was.0.chains[b], b, was.1, v')
  {
  }

  /** A bucket once its last entry has been linked to a new one. */
  twostate lemma LongerChain(was: (View, string -> nat), new found: HashEntry, new n: HashEntry, new val: object?)
    requires var (v, hashFunc) := was; var b := n.bucket;
      && b == hashFunc(n.name) < |v.chains| && n.name !in v.place && n.name !in v.content
      && var c := v.chains[b];
      && old(Chained(c, b, hashFunc, v)) && found in c && n !in c
      && old(found.next) == null && found.next == n && found.value == old(found.value)
    requires var c := was.0.chains[n.bucket]; forall j :: 0 <= j < |c| ==>
      (c[j] == found || unchanged(c[j])) && (c[j].key != null ==> unchanged(c[j].key))
    requires n.key != null && NUL !in n.name && n.key[..] == n.name + [NUL] && n.next == null && n.value == val
    ensures var (v, hashFunc) := was; Chained(Added(v, n, val).chains[n.bucket], n.bucket, hashFunc, Added(v, n, val))
  {
    var (v, hashFunc) := was;
    var c, c' := v.chains[n.bucket], Added(v, n, val).chains[n.bucket];
    assert forall j :: 0 <= j < |c| ==> c'[j] == c[j];
    assert found == c[|c| - 1] && c'[|c|] == n;
    forall j {:trigger c'[j].next} | 0 <= j < |c'| ensures c'[j].next == if j + 1 < |c'| then c'[j + 1] else null {
      assert j < |c| - 1 ==> c[j].bucket == n.bucket && c[j] != found;
    }
  }

  /** The bucket of k once the link of the entry before that for k skips it. */
  twostate lemma ShorterChain(was: (View, string -> nat), new found: HashEntry, new k: string)
    requires var (v, hashFunc) := was;
      && Placed(k, hashFunc, v) && v.chains[hashFunc(k)][v.place[k]].key != null
      && var c := v.chains[hashFunc(k)];
      && old(Chained(c, hashFunc(k), hashFunc, v)) && found == c[v.place[k] - 1]
      && found.next == old(c[v.place[k]].next) && found.value == old(found.value)
    requires var c := was.0.chains[was.1(k)]; forall j :: 0 <= j < |c| ==>
      (c[j] == found || unchanged(c[j])) && (c[j].key != null ==> unchanged(c[j].key))
    ensures var (v, hashFunc) := was; var v' := Removed(v, hashFunc, k);
      Chained(v'.chains[hashFunc(k)], hashFunc(k), hashFunc, v')
  {
    var (v, hashFunc) := was;
    var b, i, v' := hashFunc(k), v.place[k], Removed(v, hashFunc, k);
    var c, c' := v.chains[b], v'.chains[b];
    forall j | 0 <= j < |c'| ensures c'[j] == c[if j < i then j else j + 1] && c'[j].bucket == b {
      assert c[if j < i then j else j + 1].bucket == b;
    }
    forall j {:trigger c'[j].next} | 0 <= j < |c'| ensures c'[j].next == if j + 1 < |c'| then c'[j + 1] else null {
      assert j != i - 1 ==> c'[j] != found;
    }
  }

  /** An entry is in the chain of its own bucket only. */
  lemma Apart(v: View, hashFunc: string -> nat, b: nat, n: HashEntry)
    requires AllChained(v, hashFunc) && b < |v.chains| && n in v.chains[b]
    ensures forall b' :: 0 <= b' < |v.chains| && b' != b ==> n !in v.chains[b']
  {
    forall b' | 0 <= b' < |v.chains| && b' != b ensures n !in v.chains[b'] {
      assert Chained(v.chains[b], b, hashFunc, v) && Chained(v.chains[b'], b', hashFunc, v);
    }
  }

  // ----- ownership -----

  lemma BlocksAppend(chains: Chains, c: seq<HashEntry>)
    ensures AllBlocks(chains + [c]) == AllBlocks(chains) + Blocks(c)
  {
    assert (chains + [c])[..|chains|] == chains;
  }

  lemma {:induction false} FirstsInside(chains: Chains)
    requires ChainsPresent(chains)
    ensures forall b :: 0 <= b < |chains| ==> chains[b][0] in AllBlocks(chains)
  {
    if chains != [] {
      var last := |chains| - 1;
      FirstsInside(chains[..last]);
      assert forall b :: 0 <= b < last ==> chains[..last][b] == chains[b];
      FirstInside(chains[last]);
    }
  }

  lemma {:induction false} FirstInside(c: seq<HashEntry>)
    requires c != []
    ensures c[0] in Blocks(c)
  {
    if |c| > 1 {
      FirstInside(c[..|c| - 1]);
    }
  }

  lemma BlocksGrow(chains: Chains, b: nat, n: HashEntry)
    requires b < |chains| && n.key != null
    ensures AllBlocks(chains[b := chains[b] + [n]]) == AllBlocks(chains) + {n, n.key}
  {
    var last := |chains| - 1;
    assert (chains[b] + [n])[..|chains[b]|] == chains[b];
    if b < last {
      BlocksGrow(chains[..last], b, n);
      assert chains[b := chains[b] + [n]][..last] == chains[..last][b := chains[b] + [n]];
    } else {
      assert chains[b := chains[b] + [n]][..last] == chains[..last];
    }
  }

  lemma {:induction false} BlocksConcat(c: seq<HashEntry>, d: seq<HashEntry>)
    ensures Blocks(c + d) == Blocks(c) + Blocks(d)
    decreases |d|
  {
    if d == [] {
      assert c + d == c;
    } else {
      var rest := d[..|d| - 1];
      BlocksConcat(c, rest);
      assert (c + d)[..|c + d| - 1] == c + rest;
    }
  }

  /** The block is no entry of the chain and no key copy of one. */
  ghost predicate Foreign(c: seq<HashEntry>, o: object) {
    forall j :: 0 <= j < |c| ==> c[j] != o && c[j].key != o
  }

  lemma {:induction false} ForeignBlock(c: seq<HashEntry>, o: object)
    requires Foreign(c, o)
    ensures o !in Blocks(c)
  {
    if c != [] {
      ForeignBlock(c[..|c| - 1], o);
    }
  }

  lemma {:induction false} AllForeign(chains: Chains, o: object)
    requires forall b :: 0 <= b < |chains| ==> Foreign(chains[b], o)
    ensures o !in AllBlocks(chains)
  {
    if chains != [] {
      AllForeign(chains[..|chains| - 1], o);
      ForeignBlock(chains[|chains| - 1], o);
    }
  }

  /** No other entry of the table is the one at position i of bucket b or shares its key copy. */
  ghost predicate Sole(chains: Chains, b: nat, i: nat)
    requires b < |chains| && i < |chains[b]|
  {
    var n := chains[b][i];
    && (forall b' :: 0 <= b' < |chains| && b' != b ==> Foreign(chains[b'], n))
    && Foreign(chains[b][..i], n) && Foreign(chains[b][i + 1..], n)
    && (n.key != null ==>
          && (forall b' :: 0 <= b' < |chains| && b' != b ==> Foreign(chains[b'], n.key))
          && Foreign(chains[b][..i], n.key) && Foreign(chains[b][i + 1..], n.key))
  }

  lemma EntriesAreSole(v: View, hashFunc: string -> nat, b: nat, i: nat)
    requires AllChained(v, hashFunc) && b < |v.chains| && i < |v.chains[b]|
    ensures Sole(v.chains, b, i)
  {
    var n := v.chains[b][i];
    assert Chained(v.chains[b], b, hashFunc, v);
    SameKeySameName(v.chains[b], b, n, hashFunc, v);
    forall b' | 0 <= b' < |v.chains| && b' != b
      ensures Foreign(v.chains[b'], n) && (n.key != null ==> Foreign(v.chains[b'], n.key))
    {
      assert Chained(v.chains[b'], b', hashFunc, v);
      SameKeySameName(v.chains[b'], b', n, hashFunc, v);
    }
  }

  lemma SameKeySameName(c: seq<HashEntry>, b: nat, n: HashEntry, hashFunc: string -> nat, v: View)
    requires Chained(c, b, hashFunc, v) && (n.key != null ==> EntryValid(n, hashFunc, v))
    ensures n.key != null ==> forall o :: o in c && o.key == n.key ==> o.name == n.name
  {
    forall o | o in c && n.key != null && o.key == n.key ensures o.name == n.name {
      assert o.name + [NUL] == n.name + [NUL];
      assert o.name == (o.name + [NUL])[..|o.name|];
      assert n.name == (n.name + [NUL])[..|n.name|];
    }
  }

  /** An entry at position p and its key are blocks of the chain, and not of the part before p. */
  lemma OwnBlocks(chains: Chains, b: nat, p: nat)
    requires b < |chains| && p < |chains[b]| && Sole(chains, b, p)
    ensures var c := chains[b];
      && {c[p]} + (if c[p].key == null then {} else {c[p].key}) <= Blocks(c) - Blocks(c[..p])
  {
    var c := chains[b];
    ForeignBlock(c[..p], c[p]);
    if c[p].key != null {
      ForeignBlock(c[..p], c[p].key);
    }
    BlocksConcat(c[..p + 1], c[p + 1..]);
    assert c == c[..p + 1] + c[p + 1..] && c[..p + 1][..p] == c[..p];
  }

  /** A chain owns no block of the chains before it. */
  lemma ChainsApart(v: View, hashFunc: string -> nat, b: nat)
    requires AllChained(v, hashFunc) && b < |v.chains|
    ensures AllBlocks(v.chains[..b]) !! Blocks(v.chains[b])
    ensures Blocks(v.chains[b]) <= AllBlocks(v.chains)
  {
    var c := v.chains[b];
    forall p | 0 <= p < |c|
      ensures c[p] !in AllBlocks(v.chains[..b]) && (c[p].key != null ==> c[p].key !in AllBlocks(v.chains[..b]))
    {
      EntriesAreSole(v, hashFunc, b, p);
      AllForeign(v.chains[..b], c[p]);
      if c[p].key != null {
        AllForeign(v.chains[..b], c[p].key);
      }
    }
    BlocksOutside(c, AllBlocks(v.chains[..b]));
    BlocksOfChain(v.chains, b);
  }

  lemma {:induction false} BlocksOutside(c: seq<HashEntry>, others: set<object>)
    requires forall p :: 0 <= p < |c| ==> c[p] !in others && (c[p].key != null ==> c[p].key !in others)
    ensures Blocks(c) !! others
  {
    if c != [] {
      BlocksOutside(c[..|c| - 1], others);
    }
  }

  lemma {:induction false} BlocksOfChain(chains: Chains, b: nat)
    requires b < |chains|
    ensures Blocks(chains[b]) <= AllBlocks(chains)
  {
    if b < |chains| - 1 {
      BlocksOfChain(chains[..|chains| - 1], b);
    }
  }

  /** Taking one entry out of its chain takes exactly its two blocks away. */
  lemma BlocksShrink(chains: Chains, b: nat, i: nat)
    requires b < |chains| && i < |chains[b]| && Sole(chains, b, i) && chains[b][i].key != null
    ensures AllBlocks(chains[b := Without(chains[b], i)]) == AllBlocks(chains) - {chains[b][i], chains[b][i].key}
  {
    var n, c, last := chains[b][i], chains[b], |chains| - 1;
    if b < last {
      BlocksShrink(chains[..last], b, i);
      assert chains[b := Without(c, i)][..last] == chains[..last][b := Without(c, i)];
      ForeignBlock(chains[last], n);
      ForeignBlock(chains[last], n.key);
    } else {
      assert chains[b := Without(c, i)][..last] == chains[..last];
      AllForeign(chains[..last], n);
      AllForeign(chains[..last], n.key);
      ChainShrink(c, i);
    }
  }

  lemma ChainShrink(c: seq<HashEntry>, i: nat)
    requires i < |c| && c[i].key != null
    requires Foreign(c[..i], c[i]) && Foreign(c[i + 1..], c[i])
    requires Foreign(c[..i], c[i].key) && Foreign(c[i + 1..], c[i].key)
    ensures Blocks(Without(c, i)) == Blocks(c) - {c[i], c[i].key}
  {
    hide Blocks, Foreign;
    var l, n, r := c[..i], c[i], c[i + 1..];
    assert c == l + ([n] + r);
    BlocksOfOne(n);
    ForeignBlock(l, n);
    ForeignBlock(l, n.key);
    ForeignBlock(r, n);
    ForeignBlock(r, n.key);
    BlocksConcat(l, r);
    BlocksConcat(l, [n] + r);
    BlocksConcat([n], r);
    assert Blocks(c) == Blocks(l) + {n, n.key} + Blocks(r);
  }

  lemma BlocksOfSentinel(n: HashEntry)
    requires n.key == null
    ensures Blocks([n]) == {n}
  {
    assert [n][..0] == [];
  }

  lemma BlocksOfOne(n: HashEntry)
    requires n.key != null
    ensures Blocks([n]) == {n, n.key}
  {
    assert [n][..0] == [];
  }

  // ----- the maps stay in step with the chains -----

  lemma AddedIndex(v: View, hashFunc: string -> nat, n: HashEntry, val: object?)
    requires n.bucket == hashFunc(n.name) < |v.chains| && n.name !in v.content && |v.chains[n.bucket]| >= 1
    requires Indexed(v, hashFunc) && AllInside(v) && n.key != null
    requires v.blocks == AllBlocks(v.chains)
    ensures Indexed(Added(v, n, val), hashFunc) && AllInside(Added(v, n, val))
    ensures Added(v, n, val).blocks == AllBlocks(Added(v, n, val).chains)
  {
    BlocksGrow(v.chains, n.bucket, n);
    var v' := Added(v, n, val);
    forall k | k in v.content ensures Placed(k, hashFunc, v') {
      assert Placed(k, hashFunc, v);
    }
    forall b | 0 <= b < |v'.chains| ensures Inside(v'.chains[b], v'.blocks) {
      assert Inside(v.chains[b], v.blocks);
    }
  }

  lemma OverwrittenIndex(v: View, hashFunc: string -> nat, k: string, val: object?)
    requires Indexed(v, hashFunc) && k in v.content
    ensures Indexed(v.(content := v.content[k := val]), hashFunc)
  {
    forall k' | k' in v.content ensures Placed(k', hashFunc, v.(content := v.content[k := val])) {
      assert Placed(k', hashFunc, v);
    }
  }

  lemma RemovedPlaces(v: View, hashFunc: string -> nat, k: string, k': string)
    requires Placed(k, hashFunc, v) && v.chains[hashFunc(k)][v.place[k]].key != null
    requires Placed(k', hashFunc, v) && k' != k
    ensures Placed(k', hashFunc, Removed(v, hashFunc, k))
  {
  }

  lemma RemovedIndex(v: View, hashFunc: string -> nat, k: string)
    requires Indexed(v, hashFunc) && AllInside(v) && k in v.content && Placed(k, hashFunc, v)
    requires Sole(v.chains, hashFunc(k), v.place[k]) && v.chains[hashFunc(k)][v.place[k]].key != null
    requires v.blocks == AllBlocks(v.chains)
    ensures Indexed(Removed(v, hashFunc, k), hashFunc)
    ensures Removed(v, hashFunc, k).blocks == AllBlocks(Removed(v, hashFunc, k).chains)
    ensures AllInside(Removed(v, hashFunc, k))
  {
    BlocksShrink(v.chains, hashFunc(k), v.place[k]);
    var b, i, v' := hashFunc(k), v.place[k], Removed(v, hashFunc, k);
    forall k' | k' in v'.content ensures Placed(k', hashFunc, v') {
      assert Placed(k', hashFunc, v);
      RemovedPlaces(v, hashFunc, k, k');
    }
    assert Inside(v.chains[b], v.blocks);
    InsideWithout(v.chains[b], i, v.blocks);
    forall b' | 0 <= b' < |v'.chains| ensures Inside(v'.chains[b'], v'.blocks) {
      assert Inside(v.chains[b'], v.blocks);
    }
  }

  lemma InsideWithout(c: seq<HashEntry>, i: nat, blocks: set<object>)
    requires i < |c| && Inside(c, blocks) && c[i].key != null
    requires Foreign(c[..i], c[i]) && Foreign(c[i + 1..], c[i])
    requires Foreign(c[..i], c[i].key) && Foreign(c[i + 1..], c[i].key)
    ensures Inside(Without(c, i), blocks - {c[i], c[i].key})
  {
    forall j | 0 <= j < |Without(c, i)|
      ensures var n, rest := Without(c, i)[j], blocks - {c[i], c[i].key};
        n in rest && (n.key != null ==> n.key in rest)
    {
      var n := Without(c, i)[j];
      assert n == if j < i then c[..i][j] else c[i + 1..][j - i];
      assert n == c[if j < i then j else j + 1];
    }
  }

  // ----- the table -----

  ghost predicate IsSentinel(n: HashEntry?, b: nat)
    reads n
  {
    n != null && n.key == null && n.bucket == b && n.next == null
  }

  /** The loop of hashTableCreate. */
  method MakeSentinels(mem: Ledger, hash: array<HashEntry?>) returns (ghost chains: Chains)
    modifies mem, hash
    ensures |chains| == hash.Length && fresh(AllBlocks(chains)) && mem.live == old(mem.live) + AllBlocks(chains)
    ensures forall b :: 0 <= b < |chains| ==> |chains[b]| == 1 && chains[b][0] == hash[b] && IsSentinel(hash[b], b)
  {
    chains := [];
    assert AllBlocks([]) == {};
    hide AllBlocks, Blocks;
    for i := 0 to hash.Length
      invariant |chains| == i && fresh(AllBlocks(chains)) && mem.live == old(mem.live) + AllBlocks(chains)
      invariant forall b :: 0 <= b < i ==> |chains[b]| == 1 && chains[b][0] == hash[b] && IsSentinel(hash[b], b)
    {
      var sentinel := NewSentinel(mem, i);
      hash[i] := sentinel;
      BlocksAppend(chains, [sentinel]);
      BlocksOfSentinel(sentinel);
      chains := chains + [[sentinel]];
    }
  }

  method NewSentinel(mem: Ledger, ghost b: nat) returns (n: HashEntry)
    modifies mem
    ensures fresh(n) && IsSentinel(n, b) && mem.live == old(mem.live) + {n}
  {
    n := new HashEntry(null, "", b);
    mem.Malloc(n);
  }

  /** malloc for a new entry and, with HASH_TABLE_SAFE_KEY, for its own copy of the key. */
  method NewEntry(mem: Ledger, key: array<char>, off: nat, ghost b: nat) returns (n: HashEntry)
    requires Terminated(key[..], off)
    modifies mem
    ensures fresh(n) && n.key != null && fresh(n.key) && n.next == null && n.bucket == b
    ensures n.name == CStr(key[..], off) && n.key[..] == n.name + [NUL]
    ensures mem.live == old(mem.live) + {n, n.key}
  {
    ghost var k := CStr(key[..], off);
    var copy := CopyOf(key, off, |CStr(key[..], off)|);
    n := new HashEntry(copy, k, b);
    mem.Malloc(copy);
    mem.Malloc(n);
  }

  ghost predicate Heads(hash: seq<HashEntry?>, chains: Chains) {
    |hash| == |chains| && forall b :: 0 <= b < |chains| ==> |chains[b]| >= 1 && hash[b] == chains[b][0]
  }

  /** struct HashTable */
  class HashTable {
    const mem: Ledger
    const hash: array<HashEntry?>
    const size: nat
    const hashFunc: string -> nat
    ghost var view: View

    /** Exactly the blocks the table owns. */
    ghost function Repr(): set<object>
      reads this
    {
      {this, hash} + view.blocks
    }

    ghost predicate Valid()
      reads this, Repr()
    {
      && mem !in Repr() && this !in view.blocks && hash !in view.blocks
      && view.blocks == AllBlocks(view.chains)
      && (forall k :: hashFunc(k) < size)
      && hash.Length == size && Heads(hash[..], view.chains)
      && AllChained(view, hashFunc)
      && Indexed(view, hashFunc)
    }

    lemma Basics()
      requires Valid()
      ensures ChainsPresent(view.chains) && |view.chains| == size == hash.Length && (forall k :: hashFunc(k) < size)
      ensures mem !in Repr() && this !in view.blocks && hash !in view.blocks
      ensures view.place.Keys == view.content.Keys && view.blocks == AllBlocks(view.chains)
    {
    }

    lemma Parts()
      requires Valid()
      ensures Heads(hash[..], view.chains) && AllChained(view, hashFunc) && AllInside(view) && Indexed(view, hashFunc)
    {
    }

    lemma Assembled()
      requires mem !in Repr() && this !in view.blocks && hash !in view.blocks
      requires view.blocks == AllBlocks(view.chains) && (forall k :: hashFunc(k) < size)
      requires hash.Length == size && Heads(hash[..], view.chains)
      requires AllChained(view, hashFunc) && Indexed(view, hashFunc)
      ensures Valid()
    {
    }

    /** hashTableCreate */
    constructor (mem: Ledger, n: nat, hashFunc: string -> nat)
      requires forall k :: hashFunc(k) < n
      modifies mem
      ensures Valid() && fresh(Repr()) && this.mem == mem && size == n && this.hashFunc == hashFunc
      ensures view.content == map[]
      ensures mem.live == old(mem.live) + Repr()
    {
      this.mem, size, this.hashFunc := mem, n, hashFunc;
      hash := new HashEntry?[n];
      view := View([], map[], map[], {});
      new;
      hide Valid, AllBlocks;
      mem.Malloc(this);
      mem.Malloc(hash);
      ghost var chains := MakeSentinels(mem, hash);
      FirstsInside(chains);
      view := View(chains, map[], map[], AllBlocks(chains));
      assert Repr() == {this, hash} + AllBlocks(chains);
      EmptyIsValid();
    }

    lemma EmptyIsValid()
      requires view.content == map[] && view.place == map[]
      requires hash.Length == size == |view.chains| && (forall k :: hashFunc(k) < size)
      requires forall b :: 0 <= b < size ==>
        |view.chains[b]| == 1 && view.chains[b][0] == hash[b] && view.chains[b][0] in view.blocks
      requires forall b :: 0 <= b < size ==> IsSentinel(view.chains[b][0], b)
      requires mem !in Repr() && this !in view.blocks && hash !in view.blocks && view.blocks == AllBlocks(view.chains)
      ensures Valid()
    {
    }

    /** getHashEntry: the entry before the one for the key, or the last entry of its bucket. */
    method GetHashEntry(key: array<char>, off: nat) returns (found: HashEntry, ghost j: nat)
      requires Valid() && Terminated(key[..], off)
      ensures var k := CStr(key[..], off);
        && hashFunc(k) < |view.chains| && j < |view.chains[hashFunc(k)]| && found == view.chains[hashFunc(k)][j]
        && (found.next != null ==>
              && k in view.content && Placed(k, hashFunc, view) && view.place[k] == j + 1
              && found.next == view.chains[hashFunc(k)][j + 1] && view.content[k] == found.next.value
              && found.next.name == k && found.next.bucket == hashFunc(k))
        && (found.next == null ==> k !in view.content)
      ensures found in view.blocks && (found.next != null ==> found.next in view.blocks)
    {
      var i := hashFunc(CStr(key[..], off));
      ghost var k, c := CStr(key[..], off), view.chains[i];
      ChainAt(k);
      found, j := hash[i], 0;
      hide Valid, CStr, Terminated;
      while found.next != null
        invariant j < |c| && found == c[j] && found in view.blocks
        invariant k in view.content ==> j < view.place[k]
        decreases |c| - j
      {
        ghost var n := c[j + 1];
        CStrOfCopy(n.name);
        if CStr(found.next.key[..], 0) == CStr(key[..], off) {
          return;
        }
        found, j := found.next, j + 1;
      }
    }

    /** What a search in the bucket of k may rely on. */
    lemma ChainAt(k: string)
      requires Valid()
      ensures hashFunc(k) < |view.chains| == hash.Length
      ensures var c := view.chains[hashFunc(k)];
        && Linked(c) && hash[hashFunc(k)] == c[0] && Inside(c, view.blocks)
        && (forall j :: 1 <= j < |c| ==>
              EntryValid(c[j], hashFunc, view) && c[j].name in view.place && view.place[c[j].name] == j)
      ensures k in view.content ==> Placed(k, hashFunc, view)
    {
      assert hash[..][hashFunc(k)] == view.chains[hashFunc(k)][0];
      assert Chained(view.chains[hashFunc(k)], hashFunc(k), hashFunc, view);
    }

    /** hashTableGet: the stored pointer, or NULL. */
    method Get(key: array<char>, off: nat) returns (value: object?)
      requires Valid() && Terminated(key[..], off)
      ensures var k := CStr(key[..], off); value == if k in view.content then view.content[k] else null
    {
      hide Valid;
      var found, j := GetHashEntry(key, off);
      value := if found.next != null then found.next.value else null;
    }

    /** hashTableSet: returns the pointer it replaces, or NULL; copies the key of a new entry. */
    method Set(key: array<char>, off: nat, val: object?) returns (previous: object?)
      requires Valid() && Terminated(key[..], off) && Repr() <= mem.live
      modifies Repr(), mem
      ensures Valid() && old(Repr()) <= Repr() && forall o :: o in Repr() ==> o in old(Repr()) || fresh(o)
      ensures var k := old(CStr(key[..], off));
        && view.content == old(view.content)[k := val]
        && previous == (if k in old(view.content) then old(view.content)[k] else null)
        && (k in old(view.content) ==> Repr() == old(Repr()))
      ensures mem.live == old(mem.live) + Repr()
    {
      hide Valid;
      var found, j := GetHashEntry(key, off);
      if found.next == null {
        previous := null;
        var n := Insert(found, key, off, val);
      } else {
        previous := found.next.value;
        Replace(found.next, val, j + 1);
      }
    }

    /** The branch of hashTableSet for a key without an entry. */
    method Insert(found: HashEntry, key: array<char>, off: nat, val: object?) returns (n: HashEntry)
      requires Valid() && Terminated(key[..], off) && CStr(key[..], off) !in view.content && Repr() <= mem.live
      requires found in view.chains[hashFunc(CStr(key[..], off))] && found.next == null
      modifies this, found, mem
      ensures Valid() && old(Repr()) <= Repr() && forall o :: o in Repr() ==> o in old(Repr()) || fresh(o)
      ensures view.content == old(view.content)[old(CStr(key[..], off)) := val]
      ensures mem.live == old(mem.live) + Repr()
    {
      hide Valid;
      Basics();
      n := NewEntry(mem, key, off, hashFunc(CStr(key[..], off)));
      LedgerOnly();
      Link(found, n, val);
      assert Repr() - old(Repr()) <= {n, n.key};
    }

    /** found->next = n; found->next->value = val, behind the last entry of the bucket of n. */
    method LinkAfter(found: HashEntry, n: HashEntry, val: object?)
      requires AllChained(view, hashFunc) && view.place.Keys == view.content.Keys
      requires n.bucket == hashFunc(n.name) < |view.chains| && n.name !in view.content && n.next == null
      requires forall b :: 0 <= b < |view.chains| ==> n !in view.chains[b]
      requires n.key != null && NUL !in n.name && n.key[..] == n.name + [NUL]
      requires found in view.chains[n.bucket] && found.next == null
      modifies this, found, n
      ensures AllChained(view, hashFunc) && view == Added(old(view), n, val)
    {
      hide Chained;
      ghost var b, v, v' := n.bucket, view, Added(view, n, val);
      Apart(v, hashFunc, b, found);
      assert Chained(v.chains[b], b, hashFunc, v);
      found.next := n;
      n.value := val;
      view := v';
      LongerChain((v, hashFunc), found, n, val);
      forall b' | 0 <= b' < |v'.chains| ensures Chained(v'.chains[b'], b', hashFunc, v') {
        if b' != b {
          assert old(Chained(v.chains[b'], b', hashFunc, v));
          KeptChain((v, hashFunc), b', v');
        }
      }
    }

    /** found->next->value = val for a key that is in the table already. */
    method Overwrite(n: HashEntry, val: object?, ghost j: nat)
      requires AllChained(view, hashFunc)
      requires n.bucket < |view.chains| && 1 <= j < |view.chains[n.bucket]| && view.chains[n.bucket][j] == n
      modifies this, n
      ensures AllChained(view, hashFunc) && view == old(view).(content := old(view).content[n.name := val])
    {
      ghost var b, v, v' := n.bucket, view, view.(content := view.content[n.name := val]);
      Apart(v, hashFunc, b, n);
      assert Chained(v.chains[b], b, hashFunc, v);
      n.value := val;
      view := v';
      forall b' | 0 <= b' < |v.chains| ensures Chained(v.chains[b'], b', hashFunc, v') {
        if b' != b {
          assert old(Chained(v.chains[b'], b', hashFunc, v));
          KeptChain((v, hashFunc), b', v');
        }
      }
    }

    /** found->next = found->next->next: the entry for k leaves its bucket. */
    method Unlink(found: HashEntry, next: HashEntry?, ghost k: string)
      requires AllChained(view, hashFunc) && view.place.Keys == view.content.Keys && Placed(k, hashFunc, view)
      requires view.chains[hashFunc(k)][view.place[k]].key != null
      requires AllInside(Removed(view, hashFunc, k))
      requires found == view.chains[hashFunc(k)][view.place[k] - 1]
      requires found.next == view.chains[hashFunc(k)][view.place[k]] && next == found.next.next
      modifies this, found
      ensures AllChained(view, hashFunc) && view == Removed(old(view), hashFunc, k)
    {
      ghost var b, v, v' := hashFunc(k), view, Removed(view, hashFunc, k);
      Apart(v, hashFunc, b, found);
      assert Chained(v.chains[b], b, hashFunc, v);
      found.next := next;
      view := v';
      ShorterChain((v, hashFunc), found, k);
      forall b' | 0 <= b' < |v'.chains| && b' != b ensures Chained(v'.chains[b'], b', hashFunc, v') {
        assert old(Chained(v.chains[b'], b', hashFunc, v));
        KeptChain((v, hashFunc), b', v');
      }
    }

    method Link(found: HashEntry, n: HashEntry, val: object?)
      requires Valid() && n.name !in view.content && n.bucket == hashFunc(n.name)
      requires found in view.chains[n.bucket] && found.next == null
      requires n !in Repr() && n.next == null && n.key != null && n.key !in Repr()
      requires NUL !in n.name && n.key[..] == n.name + [NUL]
      modifies this, found, n
      ensures Valid() && view == Added(old(view), n, val) && Repr() == old(Repr()) + {n, n.key}
    {
      hide Chained, Placed;
      Parts();
      AddedIndex(view, hashFunc, n, val);
      assert forall b :: 0 <= b < |view.chains| ==> Inside(view.chains[b], view.blocks);
      LinkAfter(found, n, val);
    }

    method Replace(n: HashEntry, val: object?, ghost j: nat)
      requires Valid() && n.name in view.content && n.bucket == hashFunc(n.name)
      requires 1 <= j < |view.chains[n.bucket]| && n == view.chains[n.bucket][j]
      modifies this, n
      ensures Valid() && view.content == old(view.content)[n.name := val] && Repr() == old(Repr())
    {
      OverwrittenIndex(view, hashFunc, n.name, val);
      Overwrite(n, val, j);
    }

    /** hashTableDelete: returns the pointer it drops, or NULL; frees the entry and its key copy. */
    method Delete(key: array<char>, off: nat) returns (value: object?)
      requires Valid() && Terminated(key[..], off) && Repr() <= mem.live
      modifies Repr(), mem
      ensures Valid() && Repr() <= old(Repr())
      ensures var k := old(CStr(key[..], off));
        && view.content == old(view.content) - {k}
        && value == (if k in old(view.content) then old(view.content)[k] else null)
      ensures mem.live == old(mem.live) - (old(Repr()) - Repr())
    {
      hide Valid;
      var found, j := GetHashEntry(key, off);
      if found.next == null {
        return null;
      }
      var next := found.next.next;
      value := found.next.value;
      DropEntry(found, next, CStr(key[..], off));
    }

    /** free(found->next->key); free(found->next); found->next = next */
    method DropEntry(found: HashEntry, next: HashEntry?, ghost k: string)
      requires Valid() && Repr() <= mem.live && k in view.content && Placed(k, hashFunc, view)
      requires found == view.chains[hashFunc(k)][view.place[k] - 1]
      requires found.next == view.chains[hashFunc(k)][view.place[k]] && next == found.next.next
      modifies Repr(), mem
      ensures Valid() && Repr() <= old(Repr()) && view.content == old(view.content) - {k}
      ensures mem.live == old(mem.live) - (old(Repr()) - Repr())
    {
      hide Valid;
      Basics();
      EntryOwned(k);
      Gap({this, hash}, view.blocks, {found.next, found.next.key});
      FreeEntry(mem, found.next);
      LedgerOnly();
      Detach(found, next, k);
    }

    /** What the allocator does to its own books does not touch the table. */
    twostate lemma LedgerOnly()
      requires old(Valid()) && unchanged(this) && unchanged(old(Repr()))
      ensures Valid()
    {
    }

    lemma KeysListed() returns (names: seq<string>)
      requires Valid() && ChainsPresent(view.chains)
      ensures Distinct(names) && |names| == |view.content| && (forall k :: k in names <==> k in view.content)
      ensures |Entries(view.chains)| == |names|
      ensures forall x :: 0 <= x < |names| ==>
        var n := Entries(view.chains)[x];
        n.key != null && n.key in view.blocks && NUL !in names[x] && n.key[..] == names[x] + [NUL]
    {
      Basics();
      Parts();
      hide Valid, AllChained, AllInside, Indexed, Heads, Entries, Names, Distinct;
      names := Names(Entries(view.chains));
      assert view.chains[..size] == view.chains;
      NamesBelow(view, hashFunc, size);
      DistinctCount(names, view.content.Keys);
      EntriesOwned(view, hashFunc, size);
    }

    lemma EntryOwned(k: string)
      requires Valid() && k in view.content && Placed(k, hashFunc, view)
      ensures var c := view.chains[hashFunc(k)]; var n := c[view.place[k]];
        && c[view.place[k] - 1] in view.blocks && n in view.blocks && n.key != null && n.key in view.blocks
    {
      var c := view.chains[hashFunc(k)];
      assert Chained(c, hashFunc(k), hashFunc, view) && Inside(c, view.blocks);
    }

    method Detach(found: HashEntry, next: HashEntry?, ghost k: string)
      requires Valid() && k in view.content && Placed(k, hashFunc, view)
      requires found == view.chains[hashFunc(k)][view.place[k] - 1]
      requires found.next == view.chains[hashFunc(k)][view.place[k]] && next == found.next.next
      requires found.next.key != null
      modifies this, found
      ensures Valid() && view == Removed(old(view), hashFunc, k)
    {
      hide Valid, AllChained, Chained;
      Basics();
      Parts();
      EntriesAreSole(view, hashFunc, hashFunc(k), view.place[k]);
      RemovedIndex(view, hashFunc, k);
      Unlink(found, next, k);
      Assembled();
    }

    /** hashTableKeys: a fresh NULL-terminated array of pointers to the keys, which stay the table's. */
    method KeyList() returns (keys: array<array?<char>>, ghost names: seq<string>)
      requires Valid()
      modifies mem
      ensures Valid() && fresh(keys) && mem.live == old(mem.live) + {keys}
      ensures Distinct(names) && (forall k :: k in names <==> k in view.content)
      ensures keys.Length == |view.content| + 1 == |names| + 1 && keys[|names|] == null
      ensures forall x :: 0 <= x < |names| ==>
        keys[x] != null && keys[x] in view.blocks && NUL !in names[x] && keys[x][..] == names[x] + [NUL]
    {
      hide Valid, Entries, Distinct;
      Basics();
      names := KeysListed();
      var j := CountEntries();
      keys := new array?<char>[j + 1];
      ListKeys(keys);
      mem.Malloc(keys);
      LedgerOnly();
    }

    /** The first pass of hashTableKeys. */
    method CountEntries() returns (j: nat)
      requires Valid()
      ensures j == |Entries(view.chains)|
    {
      Basics();
      hide Valid, Linked, Entries, ChainsPresent;
      j := 0;
      assert j == |Entries(view.chains[..0])| by { NoEntries(view.chains); }
      for i := 0 to size
        invariant j == |Entries(view.chains[..i])|
      {
        BucketAt(i);
        var n := CountChain(hash[i], view.chains[i]);
        EntriesNext(view.chains, i);
        j := j + n;
      }
      assert view.chains[..size] == view.chains;
    }

    /** The second pass of hashTableKeys. */
    method ListKeys(keys: array<array?<char>>)
      requires Valid() && ChainsPresent(view.chains) && keys.Length == |Entries(view.chains)| + 1
      requires keys !in Repr()
      modifies keys
      ensures Valid() && ChainsPresent(view.chains)
      ensures forall x :: 0 <= x < keys.Length - 1 ==> keys[x] == Entries(view.chains)[x].key
      ensures keys[keys.Length - 1] == null
    {
      Basics();
      AllLinkedFrom();
      hide Valid, Entries, LinkedFrom;
      ListChains(hash, keys, view.chains);
      KeysOnly(keys);
    }

    lemma AllLinkedFrom()
      requires Valid()
      ensures |view.chains| == hash.Length && forall i :: 0 <= i < |view.chains| ==> LinkedFrom(hash[i], view.chains[i])
    {
      Basics();
      forall i | 0 <= i < size ensures LinkedFrom(hash[i], view.chains[i]) {
        BucketAt(i);
      }
    }

    /** A bucket begins where the table says. */
    lemma BucketAt(i: nat)
      requires Valid() && i < size
      ensures i < hash.Length == |view.chains| && |view.chains[i]| > 0
      ensures hash[i] == view.chains[i][0] && Linked(view.chains[i])
    {
      assert hash[..][i] == view.chains[i][0] && Chained(view.chains[i], i, hashFunc, view);
    }

    twostate lemma KeysOnly(keys: array<array?<char>>)
      requires old(Valid()) && unchanged(this) && unchanged(old(Repr()))
      ensures Valid()
    {
    }

    /** hashTableDispose */
    method Dispose()
      requires Valid() && Repr() <= mem.live
      modifies mem
      ensures mem.live == old(mem.live) - Repr()
    {
      hide Valid;
      Basics();
      for i := 0 to size
        invariant Valid() && mem.live == old(mem.live) - AllBlocks(view.chains[..i])
      {
        EarlierApart(i);
        DisposeChain(i);
        assert view.chains[..i + 1][..i] == view.chains[..i];
      }
      assert view.chains[..size] == view.chains;
      mem.Free(hash);
      mem.Free(this);
    }

    lemma EarlierApart(i: nat)
      requires Valid() && i < size && |view.chains| == size
      ensures AllBlocks(view.chains[..i]) !! Blocks(view.chains[i])
      ensures Blocks(view.chains[i]) <= AllBlocks(view.chains) == view.blocks
    {
      ChainsApart(view, hashFunc, i);
    }

    method DisposeChain(i: nat)
      requires Valid() && i < size == |view.chains| && Blocks(view.chains[i]) <= mem.live
      modifies mem
      ensures Valid() && mem.live == old(mem.live) - Blocks(view.chains[i])
    {
      ghost var c := view.chains[i];
      assert hash[..][i] == c[0] && Chained(c, i, hashFunc, view);
      forall q | 0 <= q < |c|
        ensures {c[q]} + (if c[q].key == null then {} else {c[q].key}) <= Blocks(c) - Blocks(c[..q])
      {
        EntriesAreSole(view, hashFunc, i, q);
        OwnBlocks(view.chains, i, q);
      }
      FreeChain(mem, hash[i], c);
      LedgerOnly();
    }
  }

  // ----- walks along one chain -----

  method CountChain(sentinel: HashEntry, ghost c: seq<HashEntry>) returns (n: nat)
    requires Linked(c) && sentinel == c[0]
    ensures n == |c| - 1
  {
    var entry := sentinel;
    n := 0;
    while entry.next != null
      invariant n < |c| && entry == c[n]
      decreases |c| - n
    {
      entry, n := entry.next, n + 1;
    }
  }

  /** Writes the keys behind the sentinel to keys from index j on. */
  /** The chain of a bucket, from the entry the table has for it. */
  ghost predicate LinkedFrom(sentinel: HashEntry?, c: seq<HashEntry>)
    reads c
  {
    |c| > 0 && sentinel == c[0] && Linked(c)
  }

  /** The loops of the second pass, and the NULL at the end. */
  method ListChains(hash: array<HashEntry?>, keys: array<array?<char>>, ghost chains: Chains)
    requires |chains| == hash.Length && ChainsPresent(chains) && keys.Length == |Entries(chains)| + 1
    requires forall i :: 0 <= i < |chains| ==> LinkedFrom(hash[i], chains[i])
    requires hash as object != keys
    modifies keys
    ensures forall x :: 0 <= x < keys.Length - 1 ==> keys[x] == Entries(chains)[x].key
    ensures keys[keys.Length - 1] == null
  {
    hide Entries, KeysOf, Linked;
    var j := 0;
    NoEntries(chains);
    for i := 0 to hash.Length
      invariant j == |Entries(chains[..i])| < keys.Length && keys[..j] == KeysOf(Entries(chains[..i]))
    {
      EntriesNext(chains, i);
      EntriesPrefix(chains, i + 1);
      KeysOfBoth(Entries(chains[..i]), chains[i][1..]);
      assert LinkedFrom(hash[i], chains[i]);
      j := ListChain(hash[i], keys, j, chains[i]);
    }
    assert chains[..hash.Length] == chains;
    assert forall x :: 0 <= x < j ==> keys[x] == keys[..j][x];
    keys[j] := null;
  }

  method ListChain(sentinel: HashEntry, keys: array<array?<char>>, j: nat, ghost c: seq<HashEntry>) returns (end: nat)
    requires Linked(c) && sentinel == c[0] && j + |c| - 1 <= keys.Length
    modifies keys
    ensures end == j + |c| - 1 && keys[..end] == old(keys[..j]) + KeysOf(c[1..])
  {
    var entry := sentinel;
    end := j;
    while entry.next != null
      invariant j <= end < j + |c| && entry == c[end - j]
      invariant keys[..j] == old(keys[..j]) && keys[j..end] == KeysOf(c[1..end - j + 1])
      decreases j + |c| - end
    {
      entry := entry.next;
      keys[end] := entry.key;
      end := end + 1;
      assert c[1..end - j + 1] == c[1..end - j] + [entry];
    }
    assert c[1..] == c[1..end - j + 1] && keys[..end] == keys[..j] + keys[j..end];
  }

  method FreeChain(mem: Ledger, sentinel: HashEntry, ghost c: seq<HashEntry>)
    requires Linked(c) && sentinel == c[0] && Blocks(c) <= mem.live
    requires forall q :: 0 <= q < |c| ==>
      {c[q]} + (if c[q].key == null then {} else {c[q].key}) <= Blocks(c) - Blocks(c[..q])
    modifies mem
    ensures mem.live == old(mem.live) - Blocks(c)
  {
    var entry: HashEntry? := sentinel;
    ghost var p := 0;
    while entry != null
      invariant p <= |c| && entry == if p < |c| then c[p] else null
      invariant mem.live == old(mem.live) - Blocks(c[..p])
      decreases |c| - p
    {
      var next := entry.next;
      FreeEntry(mem, entry);
      BlocksTake(c, p);
      entry, p := next, p + 1;
    }
    assert c[..p] == c;
  }

  lemma Gap(fixed: set<object>, owned: set<object>, gone: set<object>)
    requires gone <= owned && fixed !! owned
    ensures (fixed + owned) - (fixed + (owned - gone)) == gone
    ensures fixed + (owned - gone) <= fixed + owned
  {
  }

  /** if(entry->key) free(entry->key); free(entry) */
  method FreeEntry(mem: Ledger, n: HashEntry)
    requires n in mem.live && (n.key != null ==> n.key in mem.live)
    modifies mem
    ensures mem.live == old(mem.live) - {n} - (if n.key == null then {} else {n.key})
  {
    if n.key != null {
      mem.Free(n.key);
    }
    mem.Free(n);
  }

  lemma BlocksTake(c: seq<HashEntry>, p: nat)
    requires p < |c|
    ensures Blocks(c[..p + 1]) == Blocks(c[..p]) + {c[p]} + if c[p].key == null then {} else {c[p].key}
  {
    assert c[..p + 1][..p] == c[..p];
  }
}
