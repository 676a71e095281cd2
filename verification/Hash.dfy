/**
 jk_hash.c: a chained hash table that relinks its entries in place when it grows.
 HashKeys is the identity that the three comparisons of the code give to keys, and the
 listed table sizes; Hash is the table on the heap.
 */
module HashKeys {
  /** What two keys must share to be the same key: the hash, the length, and the text up to a NUL. */
  type Ident = seq<int>

  function Mark(hashval: nat, key: string): Ident {
    [hashval, |key|] + UpToNul(key)
  }

  /** The codes of the characters before the first NUL. */
  function UpToNul(key: string): seq<int> {
    if key == [] || key[0] == '\0' then [] else [key[0] as int] + UpToNul(key[1..])
  }

  /** What strncmp says of two keys of the same length: the same text, up to the first NUL. */
  predicate SameText(a: string, b: string)
    requires |a| == |b|
  {
    a == [] || (a[0] == b[0] && (a[0] == '\0' || SameText(a[1..], b[1..])))
  }

  function IdentOf(hash: string -> nat, key: string): Ident {
    Mark(hash(key), key)
  }

  /** Two keys are one to the table if and only if they have the same hash and length and agree up to the first NUL. */
  lemma IdentIff(hash: string -> nat, a: string, b: string)
    ensures IdentOf(hash, a) == IdentOf(hash, b) <==>
            hash(a) == hash(b) && |a| == |b| && forall i :: 0 <= i < |a| ==> Agree(a, b, i)
  {
    SameMark(hash(a), a, hash(b), b);
    if |a| == |b| {
      SameTextIsPrefix(a, b);
      SameTextIff(a, b);
    }
  }

  /** Unless a NUL comes before, place i has the same character in both. */
  predicate Agree(a: string, b: string, i: nat)
    requires i < |a| == |b|
  {
    '\0' !in a[..i] ==> a[i] == b[i]
  }

  lemma {:induction false} SameTextIff(a: string, b: string)
    requires |a| == |b|
    ensures SameText(a, b) <==> forall i :: 0 <= i < |a| ==> Agree(a, b, i)
  {
    if a == [] {
    } else {
      SameTextIff(a[1..], b[1..]);
      forall i | 1 <= i < |a|
        ensures a[0] == '\0' ==> Agree(a, b, i)
        ensures a[0] != '\0' ==> (Agree(a, b, i) <==> Agree(a[1..], b[1..], i - 1))
      {
        assert a[..i] == [a[0]] + a[1..][..i - 1];
      }
      assert Agree(a, b, 0) <==> a[0] == b[0];
      if a[0] != '\0' && (forall i :: 0 <= i < |a| ==> Agree(a, b, i)) {
        forall i | 0 <= i < |a| - 1
          ensures Agree(a[1..], b[1..], i)
        {
          assert Agree(a, b, i + 1);
        }
      }
    }
  }

  lemma SameMark(h: nat, a: string, k: nat, b: string)
    ensures Mark(h, a) == Mark(k, b) <==> h == k && |a| == |b| && UpToNul(a) == UpToNul(b)
  {
    assert Mark(h, a)[0] == h && Mark(h, a)[1] == |a| && Mark(h, a)[2..] == UpToNul(a);
    assert Mark(k, b)[0] == k && Mark(k, b)[1] == |b| && Mark(k, b)[2..] == UpToNul(b);
  }

  lemma {:induction false} SameTextIsPrefix(a: string, b: string)
    requires |a| == |b|
    ensures SameText(a, b) <==> UpToNul(a) == UpToNul(b)
  {
    if a != [] && a[0] == b[0] && a[0] != '\0' {
      SameTextIsPrefix(a[1..], b[1..]);
      assert UpToNul(a)[1..] == UpToNul(a[1..]);
      assert UpToNul(b)[1..] == UpToNul(b[1..]);
    } else if a != [] && a[0] != b[0] {
      assert a[0] != '\0' ==> UpToNul(a)[0] == a[0] as int;
      assert b[0] != '\0' ==> UpToNul(b)[0] == b[0] as int;
    }
  }

  lemma {:induction false} NoNul(a: string, b: string)
    requires '\0' !in a && '\0' !in b && UpToNul(a) == UpToNul(b)
    ensures a == b
  {
    if a == [] || b == [] {
    } else {
      assert UpToNul(a)[0] == UpToNul(b)[0] && UpToNul(a)[1..] == UpToNul(b)[1..];
      NoNul(a[1..], b[1..]);
      assert a == [a[0]] + a[1..] && b == [b[0]] + b[1..];
    }
  }

  /** Keys without a NUL byte are the same exactly when they are equal. */
  lemma IdentIsExact(hash: string -> nat, a: string, b: string)
    requires '\0' !in a && '\0' !in b
    ensures IdentOf(hash, a) == IdentOf(hash, b) <==> a == b
  {
    SameMark(hash(a), a, hash(b), b);
    if UpToNul(a) == UpToNul(b) {
      NoNul(a, b);
    }
  }

  /** With a NUL byte, different keys can be the same: the table cannot tell these two apart. */
  lemma NulHidesTheRest(hash: string -> nat)
    requires hash("\0a") == hash("\0b")
    ensures "\0a" != "\0b" && IdentOf(hash, "\0a") == IdentOf(hash, "\0b")
  {
    assert "\0a"[1] != "\0b"[1];
    assert UpToNul("\0a") == UpToNul("\0b") == [];
  }

  // ---------- Table sizes ----------

  const LAST_SIZE := 2147483647

  /** jk_hash_buckets_size; the closing 0 ends the search. */
  const SIZES: seq<nat> := [
    7, 13, 31, 61, 127, 251, 509, 1021, 2039, 4093, 8191, 16381,
    32749, 65521, 131071, 262143, 524287, 1048575, 2097151, 4194303, 8388607, 16777211, 33554431, 67108863,
    134217727, 268435455, 536870911, 1073741823, 2147483647, 0]

  predicate Listed(size: nat) {
    ListedFrom(0, size)
  }

  /** The listed sizes are the entries of the list before the closing 0. */
  lemma ListedIff(size: nat)
    ensures Listed(size) <==> exists i :: 0 <= i < 29 && SIZES[i] == size
  {
    ListedFromIff(0, size);
  }

  lemma {:induction false} ListedFromIff(i: nat, size: nat)
    requires i < 30
    ensures ListedFrom(i, size) <==> exists j :: i <= j < 29 && SIZES[j] == size
    decreases 30 - i
  {
    if i == 29 {
    } else {
      ListedFromIff(i + 1, size);
    }
  }

  predicate ListedFrom(i: nat, size: nat)
    requires i < 30
    decreases 30 - i
  {
    SIZES[i] != 0 && i < 29 && (SIZES[i] == size || ListedFrom(i + 1, size))
  }

  function SizeFrom(i: nat, size: nat): nat
    requires i < 30
    decreases 30 - i
  {
    if SIZES[i] == 0 then LAST_SIZE
    else if SIZES[i] > size then SIZES[i]
    else SizeFrom(i + 1, size)
  }

  function NextSize(size: nat): nat {
    SizeFrom(0, size)
  }

  /** All listed sizes from slot i on are odd. */
  predicate OddFrom(i: nat)
    requires i < 30
    decreases 30 - i
  {
    SIZES[i] == 0 || (SIZES[i] % 2 == 1 && i < 29 && OddFrom(i + 1))
  }

  lemma {:induction false} ListedIsOdd(i: nat, size: nat)
    requires i < 30 && OddFrom(i) && ListedFrom(i, size)
    ensures size % 2 == 1
    decreases 30 - i
  {
    if SIZES[i] == size {
    } else {
      ListedIsOdd(i + 1, size);
    }
  }

  /** From slot i on: a larger listed size, or the last one. */
  lemma {:induction false} SizeFromFacts(i: nat, size: nat)
    requires i < 29 && size <= LAST_SIZE
    ensures ListedFrom(i, SizeFrom(i, size)) && 0 < SizeFrom(i, size) <= LAST_SIZE
    ensures SizeFrom(i, size) > size || SizeFrom(i, size) == size == LAST_SIZE
    decreases 30 - i
  {
    if SIZES[i] > size || i == 28 {
    } else {
      SizeFromFacts(i + 1, size);
    }
  }

  lemma AllOdd()
    ensures OddFrom(0)
  {
    assert OddFrom(28); assert OddFrom(26); assert OddFrom(24); assert OddFrom(22); assert OddFrom(20);
    assert OddFrom(18); assert OddFrom(16); assert OddFrom(14); assert OddFrom(12); assert OddFrom(10);
    assert OddFrom(8); assert OddFrom(6); assert OddFrom(4); assert OddFrom(2);
  }

  /** The listed sizes from slot i on go up. */
  predicate AscendingFrom(i: nat)
    requires i < 29
    decreases 29 - i
  {
    i == 28 || (SIZES[i] < SIZES[i + 1] && AscendingFrom(i + 1))
  }

  lemma AllAscending()
    ensures AscendingFrom(0)
  {
    assert AscendingFrom(26); assert AscendingFrom(24); assert AscendingFrom(22); assert AscendingFrom(20);
    assert AscendingFrom(18); assert AscendingFrom(16); assert AscendingFrom(14); assert AscendingFrom(12);
    assert AscendingFrom(10); assert AscendingFrom(8); assert AscendingFrom(6); assert AscendingFrom(4);
    assert AscendingFrom(2);
  }

  lemma {:induction false} FirstIsLeast(i: nat, m: nat)
    requires i < 29 && AscendingFrom(i) && ListedFrom(i, m)
    ensures SIZES[i] <= m
    decreases 29 - i
  {
    if SIZES[i] == m {
    } else {
      FirstIsLeast(i + 1, m);
    }
  }

  lemma {:induction false} SizeFromLeast(i: nat, size: nat, m: nat)
    requires i < 29 && AscendingFrom(i) && ListedFrom(i, m) && m > size
    ensures SizeFrom(i, size) <= m
    decreases 29 - i
  {
    if SIZES[i] > size {
      FirstIsLeast(i, m);
    } else {
      SizeFromLeast(i + 1, size, m);
    }
  }

  /** The least listed size above this one; the last listed size has none, and stays. */
  ghost predicate LeastLarger(size: nat, grown: nat) {
    && Listed(grown) && (size == LAST_SIZE ==> grown == LAST_SIZE)
    && (size < LAST_SIZE ==> grown > size && forall m: nat :: Listed(m) && m > size ==> grown <= m)
  }

  lemma NextSizeIsLeast(size: nat)
    requires size <= LAST_SIZE
    ensures LeastLarger(size, NextSize(size))
  {
    SizeFromFacts(0, size);
    AllAscending();
    forall m: nat | Listed(m) && m > size
      ensures NextSize(size) <= m
    {
      SizeFromLeast(0, size, m);
    }
  }

  /** The size that the table grows to. */
  method GrownSize(size: nat) returns (grown: nat)
    requires size <= LAST_SIZE
    ensures grown == NextSize(size) && LeastLarger(size, grown)
  {
    NextSizeIsLeast(size);
    var i := 0;
    while SIZES[i] != 0 && SIZES[i] <= size
      invariant 0 <= i < 30
      invariant SizeFrom(i, size) == NextSize(size)
      decreases 30 - i
    {
      i := i + 1;
    }
    grown := if SIZES[i] > 0 then SIZES[i] else SIZES[i - 1];
  }

  lemma ListedOdd(size: nat)
    requires Listed(size)
    ensures size % 2 == 1
  {
    AllOdd();
    ListedIsOdd(0, size);
  }

  lemma NextSizeFacts(size: nat)
    requires Listed(size) && size < LAST_SIZE
    ensures Listed(NextSize(size)) && NextSize(size) >= size + 2
  {
    SizeFromFacts(0, size);
    ListedOdd(size);
    ListedOdd(NextSize(size));
  }

  /** The table is loaded to at most two thirds. */
  predicate Light(elms: nat, size: nat) {
    3 * elms <= 2 * size
  }

  /** The load kept by a table with a listed size. */
  ghost predicate LoadOk(elms: nat, size: nat) {
    Listed(size) && (Light(elms, size) || size == LAST_SIZE)
  }

  /** The size of the table after an element has come in. */
  function SizeFor(elms: nat, size: nat, initOk: bool): nat {
    if !Light(elms, size) && initOk then NextSize(size) else size
  }

  /** With a successful allocation, one more element keeps the load. */
  lemma LoadKept(elms: nat, size: nat)
    requires LoadOk(elms, size) && size <= LAST_SIZE
    ensures LoadOk(elms + 1, SizeFor(elms + 1, size, true))
  {
    if size < LAST_SIZE {
      NextSizeFacts(size);
    } else if size == LAST_SIZE {
      SizeFromFacts(0, size);
    }
  }

  /** One more element, and growing to `next` if that makes the table heavy, keep it light. */
  ghost predicate StaysLight(elms: nat, size: nat, next: nat) {
    Light(elms, size) ==> Light(elms + 1, if Light(elms + 1, size) then size else next)
  }

  lemma StaysLightWhen(size: nat, next: nat)
    requires 0 < size <= next
    ensures (forall elms: nat :: StaysLight(elms, size, next)) <==>
            next >= size + 2 || (next == size + 1 && size % 3 != 0)
  {
    var most := 2 * size / 3;
    assert 3 * most <= 2 * size < 3 * most + 3;
    if next >= size + 2 || (next == size + 1 && size % 3 != 0) {
      forall elms: nat | Light(elms, size)
        ensures StaysLight(elms, size, next)
      {
        assert elms <= most;
      }
    } else {
      assert Light(most, size) && !StaysLight(most, size, next);
    }
  }

  /** The sizes from which the growth always suffices, listed or not. */
  lemma StaysLightIff(size: nat)
    requires 0 < size <= LAST_SIZE
    ensures (forall elms: nat :: StaysLight(elms, size, NextSize(size))) <==>
            NextSize(size) >= size + 2 || (NextSize(size) == size + 1 && size % 3 != 0)
    ensures forall elms: nat :: StaysLight(elms, size, NextSize(size)) <==>
            (Light(elms, size) ==> Light(elms + 1, SizeFor(elms + 1, size, true)))
  {
    SizeFromFacts(0, size);
    StaysLightWhen(size, NextSize(size));
  }

  /** From a size that is not listed it need not be. */
  lemma UnlistedCanStayHeavy()
    ensures Light(8, 12) && NextSize(12) == 13 && !Light(9, 12) && !Light(9, NextSize(12))
  {
    assert SizeFrom(1, 12) == 13;
  }
}

module Hash {
  import opened HashKeys

  const JK_HASH_OK := 0
  const JK_HASH_ERR := -1
  const JK_HASH_DUPLICATE_KEY := -2
  const JK_HASH_BUCKETS_MIN_SIZE := 7

  class Entry {
    const hashval: nat
    const key: string
    var data: object?
    var next: Entry?

    constructor (hashval: nat, key: string, data: object?)
      ensures this.hashval == hashval && this.key == key && this.data == data && next == null
    {
      this.hashval, this.key, this.data, this.next := hashval, key, data, null;
    }

    ghost function Id(): Ident {
      Mark(hashval, key)
    }
  }

  ghost function At(c: seq<Entry>, j: nat): Entry? {
    if j < |c| then c[j] else null
  }

  ghost predicate In(older e: Entry, es: set<Entry>) {
    e in es
  }

  lemma InLess(es: set<Entry>, e: Entry)
    ensures forall x: Entry {:trigger In(x, es - {e})} :: In(x, es - {e}) <==> In(x, es) && x != e
  {
  }

  lemma InMore(es: set<Entry>, e: Entry)
    ensures forall x: Entry {:trigger In(x, es + {e})} :: In(x, es + {e}) <==> In(x, es) || x == e
  {
  }

  /** `nx` are the next pointers of these entries, as they are now. */
  ghost predicate Agrees(es: set<Entry>, nx: map<Entry, Entry?>)
    reads es`next
  {
    forall e: Entry {:trigger In(e, es)} :: In(e, es) ==> e in nx && nx[e] == e.next
  }

  /** The chain that starts at `head`. */
  ghost predicate Linked(head: Entry?, c: seq<Entry>, nx: map<Entry, Entry?>) {
    && head == At(c, 0)
    && (forall j :: 0 <= j < |c| ==> c[j] in nx)
    && (forall j, k :: 0 <= j < k < |c| && k == j + 1 ==> nx[c[j]] == c[k])
    && (|c| > 0 ==> nx[c[|c| - 1]] == null)
  }

  ghost predicate NoRepeats(c: seq<Entry>) {
    forall j, k :: 0 <= j < k < |c| ==> c[j] != c[k]
  }

  /** The bucket of a hash value. */
  function Slot(hashval: nat, n: nat): nat
    requires n > 0
  {
    hashval % n
  }

  ghost predicate InBucket(chains: seq<seq<Entry>>, b: nat, older e: Entry) {
    b < |chains| && e in chains[b]
  }

  /** The chains hold the entries `es`, each once and in the bucket of its hash value. */
  ghost predicate Placed(chains: seq<seq<Entry>>, es: set<Entry>) {
    && |chains| > 0
    && (forall b {:trigger NoRepeats(chains[b])} :: 0 <= b < |chains| ==> NoRepeats(chains[b]))
    && (forall b: nat, e :: InBucket(chains, b, e) ==> In(e, es) && Slot(e.hashval, |chains|) == b)
    && (forall e {:trigger In(e, es)} :: In(e, es) ==> InBucket(chains, Slot(e.hashval, |chains|), e))
  }

  ghost predicate AllLinked(heads: seq<Entry?>, chains: seq<seq<Entry>>, nx: map<Entry, Entry?>) {
    && |heads| == |chains|
    && forall b {:trigger Linked(heads[b], chains[b], nx)} :: 0 <= b < |chains| ==> Linked(heads[b], chains[b], nx)
  }

  lemma OneChainOnly(chains: seq<seq<Entry>>, es: set<Entry>, b: nat, k: nat, x: Entry)
    requires Placed(chains, es) && b < |chains| && k < |chains| && b != k && x in chains[b]
    ensures x in es && x !in chains[k]
  {
    assert InBucket(chains, b, x);
    assert x in chains[k] ==> InBucket(chains, k, x);
  }

  /** Pointers that changed only within chain `b` leave the other chains linked. */
  lemma OtherChains(heads: seq<Entry?>, chains: seq<seq<Entry>>, es: set<Entry>, nx: map<Entry, Entry?>,
                    head: Entry?, c: seq<Entry>, nx': map<Entry, Entry?>, b: nat)
    requires Placed(chains, es) && AllLinked(heads, chains, nx) && b < |chains|
    requires Linked(head, c, nx')
    requires forall e :: e in es && e !in chains[b] && e in nx ==> e in nx' && nx'[e] == nx[e]
    ensures AllLinked(heads[b := head], chains[b := c], nx')
  {
    forall k | 0 <= k < |chains| && k != b
      ensures Linked(heads[k], chains[k], nx')
    {
      assert Linked(heads[k], chains[k], nx);
      OtherChain(heads[k], chains, es, nx, nx', b, k);
    }
  }

  lemma OtherChain(head: Entry?, chains: seq<seq<Entry>>, es: set<Entry>, nx: map<Entry, Entry?>,
                   nx': map<Entry, Entry?>, b: nat, k: nat)
    requires Placed(chains, es) && b < |chains| && k < |chains| && k != b && Linked(head, chains[k], nx)
    requires forall e :: e in es && e !in chains[b] && e in nx ==> e in nx' && nx'[e] == nx[e]
    ensures Linked(head, chains[k], nx')
  {
    forall j | 0 <= j < |chains[k]|
      ensures chains[k][j] in nx' && nx'[chains[k][j]] == nx[chains[k][j]]
    {
      OneChainOnly(chains, es, k, b, chains[k][j]);
    }
  }

  lemma ChainAppended(head: Entry?, c: seq<Entry>, nx: map<Entry, Entry?>, x: Entry)
    requires Linked(head, c, nx) && NoRepeats(c) && x !in c && x in nx && nx[x] == null
    ensures c == [] ==> Linked(x, [x], nx)
    ensures c != [] ==> Linked(head, c + [x], nx[c[|c| - 1] := x])
  {
  }

  lemma ChainCut(head: Entry?, c: seq<Entry>, nx: map<Entry, Entry?>, j: nat)
    requires Linked(head, c, nx) && NoRepeats(c) && j < |c|
    ensures j == 0 ==> Linked(nx[c[0]], c[1..], nx)
    ensures j > 0 ==> Linked(head, c[..j] + c[j + 1..], nx[c[j - 1] := nx[c[j]]])
  {
    if j > 0 {
      var c', nx' := c[..j] + c[j + 1..], nx[c[j - 1] := nx[c[j]]];
      forall k | 0 <= k < |c'|
        ensures c'[k] in nx' && nx'[c'[k]] == At(c', k + 1)
      {
        var k0 := if k < j then k else k + 1;
        assert c'[k] == c[k0];
      }
    }
  }

  lemma AddPlaced(chains: seq<seq<Entry>>, es: set<Entry>, x: Entry, c: seq<Entry>)
    requires Placed(chains, es) && x !in es && NoRepeats(c)
    requires var b := Slot(x.hashval, |chains|);
      b < |chains| && forall e :: e in c <==> e in chains[b] || e == x
    ensures Placed(chains[Slot(x.hashval, |chains|) := c], es + {x})
  {
    var b := Slot(x.hashval, |chains|);
    var chains' := chains[b := c];
    InMore(es, x);
    forall k: nat, e | InBucket(chains', k, e)
      ensures In(e, es + {x})
    {
      assert InBucket(chains, k, e) || e == x;
    }
    assert forall k: nat, e :: InBucket(chains', k, e) <==> InBucket(chains, k, e) || (k == b && e == x);
  }

  lemma DropPlaced(chains: seq<seq<Entry>>, es: set<Entry>, x: Entry, c: seq<Entry>)
    requires Placed(chains, es) && x in es && NoRepeats(c)
    requires var b := Slot(x.hashval, |chains|);
      b < |chains| && forall e :: e in c <==> e in chains[b] && e != x
    ensures Placed(chains[Slot(x.hashval, |chains|) := c], es - {x})
  {
    var b := Slot(x.hashval, |chains|);
    var chains' := chains[b := c];
    InLess(es, x);
    assert In(x, es);
    forall k: nat, e | InBucket(chains', k, e)
      ensures InBucket(chains, k, e) && e != x && In(e, es - {x})
    {
      assert InBucket(chains, k, e);
    }
    assert forall k: nat, e :: InBucket(chains, k, e) && e != x ==> InBucket(chains', k, e);
  }

  ghost predicate Bound(id: Ident, byId: map<Ident, Entry>) {
    id in byId
  }

  /** Each identity has its one entry. */
  ghost predicate Indexed(es: set<Entry>, byId: map<Ident, Entry>) {
    && (forall e {:trigger In(e, es)} :: In(e, es) ==> e.Id() in byId && byId[e.Id()] == e)
    && (forall id {:trigger Bound(id, byId)} :: Bound(id, byId) ==> In(byId[id], es) && byId[id].Id() == id)
  }

  lemma IndexedLess(es: set<Entry>, byId: map<Ident, Entry>, e: Entry)
    requires Indexed(es, byId) && e in es
    ensures e.Id() in byId && Indexed(es - {e}, byId - {e.Id()})
  {
    assert In(e, es);
    InLess(es, e);
    forall id | Bound(id, byId - {e.Id()})
      ensures Bound(id, byId) && In(byId[id], es - {e})
    {
      assert Bound(id, byId);
    }
  }

  lemma IndexedMore(es: set<Entry>, byId: map<Ident, Entry>, e: Entry)
    requires Indexed(es, byId) && e.Id() !in byId
    ensures e !in es && Indexed(es + {e}, byId[e.Id() := e])
  {
    assert In(e, es) <==> e in es;
    InMore(es, e);
    var byId' := byId[e.Id() := e];
    forall id | Bound(id, byId')
      ensures In(byId'[id], es + {e}) && byId'[id].Id() == id
    {
      assert Bound(id, byId) || id == e.Id();
      assert In(e, es + {e});
      if id != e.Id() {
        assert In(byId[id], es + {e});
      }
    }
  }

  lemma KeysMore<V>(m: map<Ident, V>, id: Ident, v: V)
    ensures m[id := v].Keys == m.Keys + {id}
  {
  }

  ghost predicate Content(m: map<Ident, object?>, byId: map<Ident, Entry>, es: set<Entry>, hash: string -> nat) {
    && Indexed(es, byId) && m.Keys == byId.Keys
    && (forall e {:trigger In(e, es)} :: In(e, es) ==> e.hashval == hash(e.key))
  }

  /** The entries' data are the map's values, as they are now. */
  ghost predicate Carries(es: set<Entry>, m: map<Ident, object?>)
    reads es`data
  {
    forall e {:trigger In(e, es)} :: In(e, es) ==> e.Id() in m && m[e.Id()] == e.data
  }

  class HashTable {
    const hash: string -> nat
    const hasFree: bool
    var buckets: array<Entry?>
    var elmNums: nat
    // The map, the entry of each key, the entries, and their chains with the heads and pointers that link them.
    ghost var m: map<Ident, object?>
    ghost var byId: map<Ident, Entry>
    ghost var es: set<Entry>
    ghost var chains: seq<seq<Entry>>
    ghost var heads: seq<Entry?>
    ghost var nx: map<Entry, Entry?>

    ghost predicate Valid()
      reads this, buckets, es
    {
      && 0 < buckets.Length <= LAST_SIZE && elmNums == |es|
      && Content(m, byId, es, hash) && Carries(es, m)
      && Stored()
    }

    /** The entries stand in the chains, and the chains in the heap. */
    ghost predicate Stored()
      reads this`es, this`chains, this`heads, this`nx, this`buckets, buckets, es`next
    {
      Placed(chains, es) && AllLinked(heads, chains, nx) && buckets[..] == heads && Agrees(es, nx)
    }

    /** jk_hash_init */
    constructor (initBuckets: nat, hash: string -> nat, hasFree: bool)
      ensures Valid() && m == map[] && es == {} && fresh(buckets)
      ensures this.hash == hash && this.hasFree == hasFree
      ensures buckets.Length ==
        if initBuckets < 7 then 7 else if initBuckets > 2147483647 then 2147483647 else initBuckets
    {
      var size :=
        if initBuckets < JK_HASH_BUCKETS_MIN_SIZE then JK_HASH_BUCKETS_MIN_SIZE
        else if initBuckets > LAST_SIZE then LAST_SIZE
        else initBuckets;
      this.hash, this.hasFree := hash, hasFree;
      buckets, elmNums := new Entry?[size](_ => null), 0;
      m, byId, es, chains, heads, nx := map[], map[], {}, seq(size, _ => []), seq(size, _ => null), map[];
    }

    /** The three comparisons of the search loops. */
    predicate Matches(e: Entry, hashval: nat, key: string)
      ensures Matches(e, hashval, key) <==> e.Id() == Mark(hashval, key)
    {
      SameMark(e.hashval, e.key, hashval, key);
      if |e.key| == |key| then
        SameTextIsPrefix(e.key, key);
        e.hashval == hashval && SameText(e.key, key)
      else false
    }

    /** The loop over one chain: the entry with the key, and the one before it. */
    method WalkChain(head: Entry?, key: string, ghost c: seq<Entry>) returns (prev: Entry?, e: Entry?, ghost j: nat)
      requires Linked(head, c, nx) && Agrees(es, nx) && forall e :: e in c ==> e in es
      ensures j <= |c| && prev == (if j == 0 then null else c[j - 1])
      ensures e == At(c, j)
      ensures j < |c| ==> c[j].Id() == IdentOf(hash, key)
      ensures forall k :: 0 <= k < j ==> c[k].Id() != IdentOf(hash, key)
    {
      prev, e, j := null, head, 0;
      while e != null
        invariant j <= |c| && prev == (if j == 0 then null else c[j - 1])
        invariant e == At(c, j)
        invariant forall k :: 0 <= k < j ==> c[k].Id() != IdentOf(hash, key)
        decreases |c| - j
      {
        if Matches(e, hash(key), key) {
          return;
        }
        assert In(e, es);
        prev, e, j := e, e.next, j + 1;
      }
    }

    method Locate(key: string) returns (index: nat, prev: Entry?, e: Entry?, ghost j: nat)
      requires Valid()
      ensures index == Slot(hash(key), |chains|) && index < |chains| && j <= |chains[index]|
      ensures prev == if j == 0 then null else chains[index][j - 1]
      ensures e == At(chains[index], j)
      ensures e == null <==> IdentOf(hash, key) !in m
      ensures e != null ==> e in es && e.Id() == IdentOf(hash, key)
    {
      index := Slot(hash(key), buckets.Length);
      assert Linked(heads[index], chains[index], nx);
      assert forall e :: e in chains[index] ==> InBucket(chains, index, e);
      assert forall e :: e in chains[index] ==> In(e, es);
      prev, e, j := WalkChain(buckets[index], key, chains[index]);
      if e == null {
        Absent(m, byId, es, chains, hash, key, index);
      } else {
        assert In(e, es);
      }
    }

    /** jk_hash_find */
    method Find(key: string) returns (ret: int, data: object?)
      requires Valid()
      ensures IdentOf(hash, key) in m ==> ret == JK_HASH_OK && data == m[IdentOf(hash, key)]
      ensures IdentOf(hash, key) !in m ==> ret == JK_HASH_ERR && data == null
      ensures ret == JK_HASH_OK <==> IdentOf(hash, key) in m
    {
      var index, prev, e;
      ghost var j;
      index, prev, e, j := Locate(key);
      if e == null {
        return JK_HASH_ERR, null;
      }
      assert In(e, es);
      return JK_HASH_OK, e.data;
    }

    /** Writes the bucket's slot, or the next pointer of the entry before. */
    method Relink(index: nat, prev: Entry?, n: Entry?, ghost s: set<Entry>, ghost nx0: map<Entry, Entry?>)
      requires index < buckets.Length && buckets[..] == heads && Agrees(s, nx0) && (prev != null ==> prev in s)
      modifies buckets, (if prev == null then {} else {prev})`next
      ensures buckets[..] == HeadsAfter(heads, index, prev, n)
      ensures Agrees(s, NextsAfter(nx0, prev, n))
    {
      if prev == null {
        buckets[index] := n;
      } else {
        prev.next := n;
      }
    }

    /** Hangs a new entry at the end of its chain: behind the last entry, or in the empty bucket. */
    method Hang(en: Entry, index: nat, prev: Entry?)
      requires Stored() && index == Slot(en.hashval, |chains|) && index < |chains|
      requires en !in es && en.next == null
      requires prev == if chains[index] == [] then null else chains[index][|chains[index]| - 1]
      modifies buckets, es`next, this`chains, this`heads, this`nx, this`es
      ensures Stored() && es == old(es) + {en}
    {
      ghost var es', nx0 := es + {en}, nx[en := null];
      ghost var chains' := Appended(heads, chains, es, nx, nx0, en, index, prev);
      InMore(es, en);
      Relink(index, prev, en, es', nx0);
      chains, heads, nx, es := chains', HeadsAfter(heads, index, prev, en), NextsAfter(nx0, prev, en), es';
    }

    /** Takes entry j out of its chain. */
    method Unlink(index: nat, prev: Entry?, e: Entry, ghost j: nat)
      requires Stored() && index < |chains| && j < |chains[index]|
      requires e == chains[index][j] && prev == if j == 0 then null else chains[index][j - 1]
      modifies buckets, es`next, this`chains, this`heads, this`nx, this`es
      ensures Stored() && es == old(es) - {e}
    {
      ghost var n := e.next;
      assert InBucket(chains, index, e);
      assert In(e, es);
      InLess(es, e);
      ghost var chains' := LedAround(heads, chains, es, nx, index, prev, n, j);
      Relink(index, prev, e.next, es - {e}, nx);
      chains, heads, nx, es := chains', HeadsAfter(heads, index, prev, n), NextsAfter(nx, prev, n), es - {e};
    }

    /** The count, and what the table holds, after an entry has come or gone. */
    method Settle(ghost m': map<Ident, object?>, ghost byId': map<Ident, Entry>, n: nat)
      requires 0 < buckets.Length <= LAST_SIZE && n == |es|
      requires Content(m', byId', es, hash) && Carries(es, m') && Stored()
      modifies this`byId, this`m, this`elmNums
      ensures Valid() && m == m' && elmNums == n
    {
      byId, m, elmNums := byId', m', n;
    }

    method RemoveEntry(index: nat, prev: Entry?, e: Entry, ghost j: nat)
      requires Valid() && index < |chains| && j < |chains[index]|
      requires e == chains[index][j] && prev == if j == 0 then null else chains[index][j - 1]
      modifies this`chains, this`heads, this`nx, this`es, this`byId, this`m, this`elmNums, buckets, es`next
      ensures Valid() && m == old(m) - {e.Id()} && es == old(es) - {e} && elmNums + 1 == old(elmNums)
    {
      assert InBucket(chains, index, e);
      ghost var es', m', byId' := es - {e}, m - {e.Id()}, byId - {e.Id()};
      ContentLess(m, byId, es, hash, e);
      Unlink(index, prev, e, j);
      Settle(m', byId', elmNums - 1);
    }

    /** jk_hash_remove; `freed` are the data handed to the table's free function. */
    method Remove(key: string) returns (ret: int, freed: seq<object?>)
      requires Valid()
      modifies this`chains, this`heads, this`nx, this`es, this`byId, this`m, this`elmNums, buckets, es`next
      ensures Valid() && es <= old(es)
      ensures var id := IdentOf(hash, key);
        if id in old(m) then
          ret == JK_HASH_OK && m == old(m) - {id} && freed == (if hasFree then [old(m)[id]] else [])
        else
          ret == JK_HASH_ERR && m == old(m) && freed == []
      ensures ret == JK_HASH_OK <==> IdentOf(hash, key) in old(m)
      ensures elmNums == old(elmNums) - if IdentOf(hash, key) in old(m) then 1 else 0
      ensures old(LoadOk(elmNums, buckets.Length)) ==> LoadOk(elmNums, buckets.Length)
    {
      var index, prev, e;
      ghost var j;
      index, prev, e, j := Locate(key);
      if e == null {
        return JK_HASH_ERR, [];
      }
      assert In(e, es);
      freed := if hasFree then [e.data] else [];
      RemoveEntry(index, prev, e, j);
      ret := JK_HASH_OK;
    }

    /** The new entry at the end of its chain. */
    method Append(index: nat, prev: Entry?, en: Entry)
      requires Valid() && index == Slot(en.hashval, |chains|) && index < |chains|
      requires en.hashval == hash(en.key) && en.Id() !in m && en.next == null
      requires prev == if chains[index] == [] then null else chains[index][|chains[index]| - 1]
      modifies this`chains, this`heads, this`nx, this`es, this`byId, this`m, this`elmNums, buckets, es`next
      ensures Valid() && es == old(es) + {en} && m == old(m)[en.Id() := en.data] && elmNums == old(elmNums) + 1
    {
      ghost var es', m', byId' := es + {en}, m[en.Id() := en.data], byId[en.Id() := en];
      ContentMore(m, byId, es, hash, en);
      Hang(en, index, prev);
      Settle(m', byId', elmNums + 1);
    }

    method Overwrite(e: Entry, data: object?)
      requires Valid() && e in es
      modifies this`m, e`data
      ensures Valid() && m == old(m)[e.Id() := data]
    {
      assert In(e, es);
      KeysMore(m, e.Id(), data);
      e.data := data;
      m := m[e.Id() := data];
    }

    /** One entry of an old bucket to the front of its new one. */
    method MoveEntry(nb: array<Entry?>, e: Entry, ghost nx0: map<Entry, Entry?>)
      returns (next: Entry?, ghost b: nat)
      requires nb.Length > 0 && nb != buckets && e in es && Agrees(es, nx0)
      modifies nb, e`next
      ensures next == old(e.next) && b == Slot(e.hashval, nb.Length)
      ensures nb[..] == old(nb[..])[b := e] && Agrees(es, nx0[e := old(nb[..])[b]])
    {
      next := e.next;
      var index := Slot(e.hashval, nb.Length);
      e.next := nb[index];
      nb[index] := e;
      b := index;
    }

    /** The inner loop of the rehash: a whole bucket. */
    method MoveChain(nb: array<Entry?>, i: nat, ghost nx0: map<Entry, Entry?>,
                     ghost nch0: seq<seq<Entry>>, ghost done0: set<Entry>)
      returns (ghost nx1: map<Entry, Entry?>, ghost nch: seq<seq<Entry>>, ghost done: set<Entry>)
      requires nb != buckets && buckets[..] == heads && i < |heads| && Agrees(es, nx0) && Carries(es, m)
      requires nb.Length > 0 && |nch0| == nb.Length
      requires Moving(heads, chains, es, nx0, nb[..], nch0, done0, i, 0)
      modifies nb, es`next
      ensures Agrees(es, nx1) && Carries(es, m) && |nch| == nb.Length
      ensures Moving(heads, chains, es, nx1, nb[..], nch, done, i + 1, 0)
    {
      var e := buckets[i];
      ghost var j := 0;
      nx1, nch, done := nx0, nch0, done0;
      while e != null
        invariant j <= |chains[i]| && e == At(chains[i], j)
        invariant Agrees(es, nx1) && Carries(es, m) && |nch| == nb.Length && buckets[..] == heads
        invariant Moving(heads, chains, es, nx1, nb[..], nch, done, i, j)
        decreases |chains[i]| - j
      {
        ghost var x := chains[i][j];
        ghost var nb0 := nb[..];
        MoveStep(heads, chains, es, nx1, nb0, nch, done, i, j);
        assert In(x, es);
        ghost var b;
        e, b := MoveEntry(nb, e, nx1);
        nx1, nch, done, j := nx1[x := nb0[b]], nch[b := [x] + nch[b]], done + {x}, j + 1;
      }
      MoveOn(heads, chains, es, nx1, nb[..], nch, done, i);
    }

    /** jk_hash_rehash */
    method Rehash(initOk: bool)
      requires Valid()
      modifies this`buckets, this`chains, this`heads, this`nx, es`next
      ensures Valid() && m == old(m)
      ensures buckets.Length == if initOk then NextSize(old(buckets.Length)) else old(buckets.Length)
      ensures buckets == old(buckets) || fresh(buckets)
    {
      var size := GrownSize(buckets.Length);
      if size == buckets.Length || !initOk {
        return;
      }
      SizeFromFacts(0, buckets.Length);
      MoveAll(size);
    }

    /** The new buckets, all empty. */
    method NewBuckets(size: nat) returns (nb: array<Entry?>, ghost nch: seq<seq<Entry>>)
      requires Valid() && 0 < size
      ensures Valid() && fresh(nb) && |nch| == nb.Length == size
      ensures Moving(heads, chains, es, nx, nb[..], nch, {}, 0, 0)
    {
      nb := new Entry?[size](_ => null);
      nch := seq(size, _ => []);
      MoveStart(heads, chains, es, nx, nb[..], nch);
    }

    /** The outer loop of the rehash. */
    method MoveBuckets(nb: array<Entry?>, ghost nch0: seq<seq<Entry>>)
      returns (ghost nx1: map<Entry, Entry?>, ghost nch: seq<seq<Entry>>)
      requires nb != buckets && buckets[..] == heads && Agrees(es, nx) && Carries(es, m)
      requires |nch0| == nb.Length > 0 && |heads| == |chains|
      requires Moving(heads, chains, es, nx, nb[..], nch0, {}, 0, 0)
      modifies nb, es`next
      ensures |nch| == nb.Length && Agrees(es, nx1) && Carries(es, m)
      ensures Placed(nch, es) && AllLinked(nb[..], nch, nx1)
    {
      ghost var done := {};
      nx1, nch := nx, nch0;
      var i := 0;
      while i < buckets.Length
        invariant i <= buckets.Length && buckets[..] == heads
        invariant Agrees(es, nx1) && Carries(es, m) && |nch| == nb.Length
        invariant Moving(heads, chains, es, nx1, nb[..], nch, done, i, 0)
      {
        nx1, nch, done := MoveChain(nb, i, nx1, nch, done);
        i := i + 1;
      }
      MovedAll(heads, chains, es, nx1, nb[..], nch, done);
    }

    method MoveAll(size: nat)
      requires Valid() && 0 < size <= LAST_SIZE
      modifies this`buckets, this`chains, this`heads, this`nx, es`next
      ensures Valid() && fresh(buckets) && buckets.Length == size
    {
      var nb;
      ghost var nx1, nch;
      nb, nch := NewBuckets(size);
      nx1, nch := MoveBuckets(nb, nch);
      SwitchTo(nb, nch, nx1);
    }

    method SwitchTo(nb: array<Entry?>, ghost nch: seq<seq<Entry>>, ghost nx1: map<Entry, Entry?>)
      requires 0 < nb.Length <= LAST_SIZE && elmNums == |es|
      requires Content(m, byId, es, hash) && Carries(es, m)
      requires Placed(nch, es) && AllLinked(nb[..], nch, nx1) && Agrees(es, nx1)
      modifies this`buckets, this`chains, this`heads, this`nx
      ensures Valid() && buckets == nb
    {
      buckets, chains, heads, nx := nb, nch, nb[..], nx1;
    }

    /** jk_hash_destroy: the entries it frees, and the data it hands to the table's free function. */
    method Destroy() returns (gone: seq<Entry>, freed: seq<object?>)
      requires Valid()
      ensures NoRepeats(gone) && forall e :: e in gone <==> e in es
      ensures !hasFree ==> freed == []
      ensures hasFree ==> |freed| == |gone| && forall k :: 0 <= k < |gone| ==> freed[k] == gone[k].data
    {
      gone, freed := [], [];
      var i := 0;
      while i < buckets.Length
        invariant i <= buckets.Length && Freed(chains, es, gone, i, 0)
        invariant !hasFree ==> freed == []
        invariant hasFree ==> |freed| == |gone| && forall k :: 0 <= k < |gone| ==> freed[k] == gone[k].data
      {
        gone, freed := DestroyChain(i, gone, freed);
        i := i + 1;
      }
      FreedAll(chains, es, gone);
    }

    method DestroyChain(i: nat, gone0: seq<Entry>, freed0: seq<object?>) returns (gone: seq<Entry>, freed: seq<object?>)
      requires Valid() && i < buckets.Length && Freed(chains, es, gone0, i, 0)
      requires !hasFree ==> freed0 == []
      requires hasFree ==> |freed0| == |gone0| && forall k :: 0 <= k < |gone0| ==> freed0[k] == gone0[k].data
      ensures Freed(chains, es, gone, i + 1, 0)
      ensures !hasFree ==> freed == []
      ensures hasFree ==> |freed| == |gone| && forall k :: 0 <= k < |gone| ==> freed[k] == gone[k].data
    {
      assert Linked(heads[i], chains[i], nx);
      gone, freed := gone0, freed0;
      var e := buckets[i];
      ghost var j := 0;
      while e != null
        invariant j <= |chains[i]| && e == At(chains[i], j) && Freed(chains, es, gone, i, j)
        invariant !hasFree ==> freed == []
        invariant hasFree ==> |freed| == |gone| && forall k :: 0 <= k < |gone| ==> freed[k] == gone[k].data
        decreases |chains[i]| - j
      {
        assert InBucket(chains, i, e) && In(e, es);
        FreeStep(chains, es, gone, i, j);
        if hasFree {
          freed := freed + [e.data];
        }
        gone := gone + [e];
        e, j := e.next, j + 1;
      }
      FreeOn(chains, es, gone, i);
    }

    /** The search, and what it decides. */
    method InsertEntry(key: string, data: object?, replace: bool, mallocOk: bool, initOk: bool)
      returns (ret: int, freed: seq<object?>)
      requires Valid()
      modifies this, buckets, es
      ensures Valid() && fresh(es - old(es)) && (buckets == old(buckets) || fresh(buckets))
      ensures var id := IdentOf(hash, key);
        if id in old(m) then
          if replace then
            ret == JK_HASH_OK && m == old(m)[id := data] && freed == (if hasFree then [old(m)[id]] else [])
          else ret == JK_HASH_DUPLICATE_KEY && m == old(m) && freed == []
        else
          if mallocOk then ret == JK_HASH_OK && m == old(m)[id := data] && freed == []
          else ret == JK_HASH_ERR && m == old(m) && freed == []
      ensures
        if IdentOf(hash, key) !in old(m) && mallocOk then
          elmNums == old(elmNums) + 1 && buckets.Length == SizeFor(elmNums, old(buckets.Length), initOk)
        else
          elmNums == old(elmNums) && buckets.Length == old(buckets.Length)
    {
      var index, prev, e;
      ghost var j;
      index, prev, e, j := Locate(key);
      if e != null {
        assert In(e, es);
        if replace {
          freed := if hasFree then [e.data] else [];
          Overwrite(e, data);
          return JK_HASH_OK, freed;
        }
        return JK_HASH_DUPLICATE_KEY, [];
      }
      if !mallocOk {
        return JK_HASH_ERR, [];
      }
      AddNew(index, prev, key, data, initOk);
      return JK_HASH_OK, [];
    }

    /** jk_hash_insert; `mallocOk` and `initOk` say whether the entry and the larger table can be allocated. */
    method Insert(key: string, data: object?, replace: bool, mallocOk: bool, initOk: bool)
      returns (ret: int, freed: seq<object?>)
      requires Valid()
      modifies this, buckets, es
      ensures Valid() && fresh(es - old(es)) && (buckets == old(buckets) || fresh(buckets))
      ensures var id := IdentOf(hash, key);
        if id in old(m) then
          if replace then
            ret == JK_HASH_OK && m == old(m)[id := data] && freed == (if hasFree then [old(m)[id]] else [])
          else ret == JK_HASH_DUPLICATE_KEY && m == old(m) && freed == []
        else
          if mallocOk then ret == JK_HASH_OK && m == old(m)[id := data] && freed == []
          else ret == JK_HASH_ERR && m == old(m) && freed == []
      ensures ret == JK_HASH_OK <==> if IdentOf(hash, key) in old(m) then replace else mallocOk
      ensures ret == JK_HASH_DUPLICATE_KEY <==> IdentOf(hash, key) in old(m) && !replace
      ensures elmNums == old(elmNums) + if IdentOf(hash, key) !in old(m) && mallocOk then 1 else 0
      ensures buckets.Length ==
        if elmNums > old(elmNums) && 3 * elmNums > 2 * old(buckets.Length) && initOk then NextSize(old(buckets.Length))
        else old(buckets.Length)
      ensures initOk && old(LoadOk(elmNums, buckets.Length)) ==> LoadOk(elmNums, buckets.Length)
    {
      if LoadOk(elmNums, buckets.Length) {
        LoadKept(elmNums, buckets.Length);
      }
      ret, freed := InsertEntry(key, data, replace, mallocOk, initOk);
    }

    method AddNew(index: nat, prev: Entry?, key: string, data: object?, initOk: bool)
      requires Valid() && index == Slot(hash(key), |chains|) && index < |chains|
      requires IdentOf(hash, key) !in m
      requires prev == if chains[index] == [] then null else chains[index][|chains[index]| - 1]
      modifies this, buckets, es`next
      ensures Valid() && m == old(m)[IdentOf(hash, key) := data]
      ensures fresh(es - old(es)) && (buckets == old(buckets) || fresh(buckets))
      ensures elmNums == old(elmNums) + 1 && buckets.Length == SizeFor(elmNums, old(buckets.Length), initOk)
    {
      var en := new Entry(hash(key), key, data);
      Append(index, prev, en);
      if 3 * elmNums > 2 * buckets.Length {
        Rehash(initOk);
      }
    }
  }

  /** Every entry stands in the bucket that its key hashes to, under that hash. */
  lemma InItsBucket(t: HashTable, e: Entry)
    requires t.Valid() && e in t.es
    ensures e.hashval == t.hash(e.key) && |t.chains| == t.buckets.Length
    ensures e in t.chains[t.hash(e.key) % t.buckets.Length]
  {
    assert In(e, t.es);
    assert InBucket(t.chains, Slot(e.hashval, |t.chains|), e);
  }

  /** The count of entries is the size of the map. */
  lemma CountIsSize(t: HashTable)
    requires t.Valid()
    ensures t.elmNums == |t.m|
  {
    IdsCount(t.es, t.byId);
    assert t.m.Keys == t.byId.Keys;
    assert |t.m| == |t.m.Keys| && |t.byId| == |t.byId.Keys|;
  }

  lemma {:induction false} IdsCount(es: set<Entry>, byId: map<Ident, Entry>)
    requires Indexed(es, byId)
    ensures |es| == |byId.Keys|
    decreases es
  {
    if es == {} {
      forall id | id in byId
        ensures false
      {
        assert Bound(id, byId);
      }
      assert byId.Keys == {};
    } else {
      var e :| e in es;
      IndexedLess(es, byId, e);
      IdsCount(es - {e}, byId - {e.Id()});
      assert (byId - {e.Id()}).Keys == byId.Keys - {e.Id()};
    }
  }

  /** The entries freed so far: all of the buckets before `i`, and the first `j` of bucket `i`. */
  ghost predicate Freed(chains: seq<seq<Entry>>, es: set<Entry>, gone: seq<Entry>, i: nat, j: nat)
    requires |chains| > 0
  {
    && NoRepeats(gone) && (i < |chains| ==> j <= |chains[i]|)
    && (forall x :: x in gone ==> x in es)
    && (forall x {:trigger In(x, es)} :: In(x, es) ==> (x in gone <==> Moved(chains, x, i, j)))
  }

  lemma FreeStep(chains: seq<seq<Entry>>, es: set<Entry>, gone: seq<Entry>, i: nat, j: nat)
    requires Placed(chains, es) && i < |chains| && j < |chains[i]| && Freed(chains, es, gone, i, j)
    ensures Freed(chains, es, gone + [chains[i][j]], i, j + 1)
  {
    var x := chains[i][j];
    assert InBucket(chains, i, x) && In(x, es) && NoRepeats(chains[i]);
    assert x !in chains[i][..j];
    assert chains[i][..j + 1] == chains[i][..j] + [x];
  }

  lemma FreeOn(chains: seq<seq<Entry>>, es: set<Entry>, gone: seq<Entry>, i: nat)
    requires Placed(chains, es) && i < |chains| && Freed(chains, es, gone, i, |chains[i]|)
    ensures Freed(chains, es, gone, i + 1, 0)
  {
    assert chains[i][..|chains[i]|] == chains[i];
    forall x | In(x, es)
      ensures x in gone <==> Moved(chains, x, i + 1, 0)
    {
      assert InBucket(chains, Slot(x.hashval, |chains|), x);
      assert x in chains[i] ==> InBucket(chains, i, x);
    }
  }

  lemma FreedAll(chains: seq<seq<Entry>>, es: set<Entry>, gone: seq<Entry>)
    requires |chains| > 0 && Freed(chains, es, gone, |chains|, 0)
    ensures forall e :: e in gone <==> e in es
  {
    forall e | e in es
      ensures e in gone
    {
      assert In(e, es);
    }
  }

  lemma MoveStart(heads: seq<Entry?>, chains: seq<seq<Entry>>, es: set<Entry>, nx: map<Entry, Entry?>,
                  nheads: seq<Entry?>, nch: seq<seq<Entry>>)
    requires Placed(chains, es) && AllLinked(heads, chains, nx)
    requires |nheads| == |nch| > 0 && forall b :: 0 <= b < |nch| ==> nch[b] == [] && nheads[b] == null
    ensures Moving(heads, chains, es, nx, nheads, nch, {}, 0, 0)
  {
    assert forall b: nat, e :: !InBucket(nch, b, e);
    assert Linked(heads[0], chains[0], nx);
  }

  lemma MovedAll(heads: seq<Entry?>, chains: seq<seq<Entry>>, es: set<Entry>, nx: map<Entry, Entry?>,
                 nheads: seq<Entry?>, nch: seq<seq<Entry>>, done: set<Entry>)
    requires Moving(heads, chains, es, nx, nheads, nch, done, |chains|, 0)
    ensures done == es && Placed(nch, es) && AllLinked(nheads, nch, nx)
  {
    forall x | x in es
      ensures x in done
    {
      assert In(x, es);
    }
  }

  lemma InItsChain(m: map<Ident, object?>, byId: map<Ident, Entry>, es: set<Entry>, chains: seq<seq<Entry>>,
                   hash: string -> nat, key: string, index: nat)
    requires Content(m, byId, es, hash) && Placed(chains, es)
    requires index == Slot(hash(key), |chains|) && index < |chains|
    requires IdentOf(hash, key) in byId
    ensures exists k :: 0 <= k < |chains[index]| && chains[index][k].Id() == IdentOf(hash, key)
  {
    var id := IdentOf(hash, key);
    assert Bound(id, byId);
    var e := byId[id];
    assert In(e, es);
    SameMark(e.hashval, e.key, hash(key), key);
    assert InBucket(chains, index, e);
    var k :| 0 <= k < |chains[index]| && chains[index][k] == e;
    assert chains[index][k].Id() == id;
  }

  /** What is not in its chain is not in the table. */
  lemma Absent(m: map<Ident, object?>, byId: map<Ident, Entry>, es: set<Entry>, chains: seq<seq<Entry>>,
               hash: string -> nat, key: string, index: nat)
    requires Content(m, byId, es, hash) && Placed(chains, es)
    requires index == Slot(hash(key), |chains|) && index < |chains|
    requires forall k :: 0 <= k < |chains[index]| ==> chains[index][k].Id() != IdentOf(hash, key)
    ensures IdentOf(hash, key) !in m
  {
    if IdentOf(hash, key) in byId {
      InItsChain(m, byId, es, chains, hash, key, index);
    }
  }

  lemma ContentLess(m: map<Ident, object?>, byId: map<Ident, Entry>, es: set<Entry>, hash: string -> nat, e: Entry)
    requires Content(m, byId, es, hash) && e in es
    requires Carries(es, m)
    ensures Carries(es - {e}, m - {e.Id()})
    ensures e.Id() in m && Content(m - {e.Id()}, byId - {e.Id()}, es - {e}, hash)
  {
    assert In(e, es);
    InLess(es, e);
    IndexedLess(es, byId, e);
  }

  lemma ContentMore(m: map<Ident, object?>, byId: map<Ident, Entry>, es: set<Entry>, hash: string -> nat,
                    e: Entry)
    requires Content(m, byId, es, hash) && e.hashval == hash(e.key) && e.Id() !in m
    requires Carries(es, m)
    ensures Carries(es + {e}, m[e.Id() := e.data])
    ensures e !in es && Content(m[e.Id() := e.data], byId[e.Id() := e], es + {e}, hash)
  {
    InMore(es, e);
    IndexedMore(es, byId, e);
    KeysMore(m, e.Id(), e.data);
    KeysMore(byId, e.Id(), e);
  }

  /** The heads and pointers after one write of Relink. */
  ghost function HeadsAfter(heads: seq<Entry?>, b: nat, prev: Entry?, n: Entry?): seq<Entry?>
    requires b < |heads|
  {
    if prev == null then heads[b := n] else heads
  }

  ghost function NextsAfter(nx: map<Entry, Entry?>, prev: Entry?, n: Entry?): map<Entry, Entry?> {
    if prev == null then nx else nx[prev as Entry := n]
  }

  /** An entry put in front of its chain. */
  lemma Prepended(heads: seq<Entry?>, chains: seq<seq<Entry>>, es: set<Entry>, nx: map<Entry, Entry?>, x: Entry, b: nat)
    requires Placed(chains, es) && AllLinked(heads, chains, nx) && x !in es
    requires b < |chains| && b == Slot(x.hashval, |chains|)
    ensures Placed(chains[b := [x] + chains[b]], es + {x})
    ensures AllLinked(heads[b := x], chains[b := [x] + chains[b]], nx[x := heads[b]])
  {
    var c, nx' := chains[b], nx[x := heads[b]];
    assert NoRepeats(c);
    assert Linked(heads[b], c, nx);
    assert x in c ==> InBucket(chains, b, x);
    var c' := [x] + c;
    forall j, k | 0 <= j < k < |c'| && k == j + 1
      ensures nx'[c'[j]] == c'[k]
    {
      assert c'[k] == c[j] && (j > 0 ==> c'[j] == c[j - 1]);
    }
    AddPlaced(chains, es, x, c');
    OtherChains(heads, chains, es, nx, x, c', nx', b);
  }

  /** An entry hung at the end of its chain; `nx0` has its pointer as well. */
  lemma Appended(heads: seq<Entry?>, chains: seq<seq<Entry>>, es: set<Entry>,
                 nx: map<Entry, Entry?>, nx0: map<Entry, Entry?>,
                 x: Entry, b: nat, prev: Entry?)
    returns (chains': seq<seq<Entry>>)
    requires Placed(chains, es) && AllLinked(heads, chains, nx) && x !in es
    requires b < |chains| && b == Slot(x.hashval, |chains|)
    requires nx0 == nx[x := null]
    requires prev == if chains[b] == [] then null else chains[b][|chains[b]| - 1]
    ensures prev != null ==> prev in es
    ensures Placed(chains', es + {x}) && |chains'| == |chains|
    ensures AllLinked(HeadsAfter(heads, b, prev, x), chains', NextsAfter(nx0, prev, x))
  {
    var c := chains[b];
    assert NoRepeats(c);
    chains' := chains[b := c + [x]];
    assert Linked(heads[b], c, nx);
    assert prev != null ==> InBucket(chains, b, prev);
    assert x in c ==> InBucket(chains, b, x);
    assert Linked(heads[b], c, nx0);
    ChainAppended(heads[b], c, nx0, x);
    AddPlaced(chains, es, x, c + [x]);
    OtherChains(heads, chains, es, nx, if prev == null then x else heads[b], c + [x], NextsAfter(nx0, prev, x), b);
    assert heads[b := if prev == null then x else heads[b]] == HeadsAfter(heads, b, prev, x);
  }

  /** Entry j led around. */
  lemma LedAround(heads: seq<Entry?>, chains: seq<seq<Entry>>, es: set<Entry>, nx: map<Entry, Entry?>,
                  b: nat, prev: Entry?, n: Entry?, j: nat) returns (chains': seq<seq<Entry>>)
    requires Placed(chains, es) && AllLinked(heads, chains, nx) && b < |chains| && j < |chains[b]|
    requires prev == (if j == 0 then null else chains[b][j - 1]) && chains[b][j] in nx && n == nx[chains[b][j]]
    ensures prev != null ==> prev in es && prev != chains[b][j]
    ensures Placed(chains', es - {chains[b][j]}) && |chains'| == |chains|
    ensures AllLinked(HeadsAfter(heads, b, prev, n), chains', NextsAfter(nx, prev, n))
  {
    var c := chains[b];
    assert NoRepeats(c) && Linked(heads[b], c, nx);
    var c' := ChainWithout(heads[b], c, nx, prev, n, j);
    chains' := chains[b := c'];
    assert InBucket(chains, b, c[j]);
    assert prev != null ==> InBucket(chains, b, prev);
    DropPlaced(chains, es, c[j], c');
    OtherChains(heads, chains, es, nx, if prev == null then n else heads[b], c', NextsAfter(nx, prev, n), b);
    assert heads[b := if prev == null then n else heads[b]] == HeadsAfter(heads, b, prev, n);
  }

  /** The chain without its entry j. */
  lemma ChainWithout(head: Entry?, c: seq<Entry>, nx: map<Entry, Entry?>, prev: Entry?, n: Entry?, j: nat)
    returns (c': seq<Entry>)
    requires Linked(head, c, nx) && NoRepeats(c) && j < |c|
    requires prev == (if j == 0 then null else c[j - 1]) && n == nx[c[j]]
    ensures Linked(if prev == null then n else head, c', NextsAfter(nx, prev, n))
    ensures NoRepeats(c') && forall e :: e in c' <==> e in c && e != c[j]
  {
    c' := c[..j] + c[j + 1..];
    ChainCut(head, c, nx, j);
    CutElements(c, j);
  }

  lemma CutElements(c: seq<Entry>, j: nat)
    requires NoRepeats(c) && j < |c|
    ensures NoRepeats(c[..j] + c[j + 1..])
    ensures forall e :: e in c[..j] + c[j + 1..] <==> e in c && e != c[j]
    ensures j == 0 ==> c[..j] + c[j + 1..] == c[1..]
  {
  }

  /** In the rehash: the old buckets from `i` on are in place, but for the first `j` entries of bucket `i`,
      and all that is out of the old buckets is in the new ones. */
  ghost predicate Moving(heads: seq<Entry?>, chains: seq<seq<Entry>>, es: set<Entry>, nx: map<Entry, Entry?>,
                         nheads: seq<Entry?>, nch: seq<seq<Entry>>, done: set<Entry>, i: nat, j: nat)
  {
    && Placed(chains, es) && |heads| == |chains| && i <= |chains|
    && Placed(nch, done) && AllLinked(nheads, nch, nx) && done <= es
    && (forall b {:trigger Linked(heads[b], chains[b], nx)} :: i < b < |chains| ==> Linked(heads[b], chains[b], nx))
    && (i < |chains| ==> j <= |chains[i]| && (j == 0 ==> heads[i] == At(chains[i], 0)) && InPlace(chains[i], j, nx))
    && (forall x {:trigger In(x, es)} :: In(x, es) ==> (x in done <==> Moved(chains, x, i, j)))
  }

  ghost predicate InPlace(c: seq<Entry>, j: nat, nx: map<Entry, Entry?>) {
    && (forall k :: j <= k < |c| ==> c[k] in nx)
    && (forall k, l :: j <= k < l < |c| && l == k + 1 ==> nx[c[k]] == c[l])
    && (|c| > j ==> nx[c[|c| - 1]] == null)
  }

  ghost predicate Moved(chains: seq<seq<Entry>>, x: Entry, i: nat, j: nat)
    requires |chains| > 0 && (i < |chains| ==> j <= |chains[i]|)
  {
    Slot(x.hashval, |chains|) < i || (i < |chains| && x in chains[i][..j])
  }

  lemma MoveStep(heads: seq<Entry?>, chains: seq<seq<Entry>>, es: set<Entry>, nx: map<Entry, Entry?>,
                 nheads: seq<Entry?>, nch: seq<seq<Entry>>, done: set<Entry>, i: nat, j: nat)
    requires Moving(heads, chains, es, nx, nheads, nch, done, i, j) && i < |chains| && j < |chains[i]|
    ensures var x := chains[i][j]; var b := Slot(x.hashval, |nch|);
      && x in es && b < |nch| && x in nx && nx[x] == At(chains[i], j + 1)
      && Moving(heads, chains, es, nx[x := nheads[b]], nheads[b := x], nch[b := [x] + nch[b]], done + {x}, i, j + 1)
  {
    var x := chains[i][j];
    var b := Slot(x.hashval, |nch|);
    assert InBucket(chains, i, x);
    assert NoRepeats(chains[i]) && In(x, es);
    assert x !in chains[i][..j];
    Prepended(nheads, nch, done, nx, x, b);
    forall k | i < k < |chains|
      ensures Linked(heads[k], chains[k], nx[x := nheads[b]])
    {
      assert Linked(heads[k], chains[k], nx);
      OneChainOnly(chains, es, i, k, x);
    }
    assert chains[i][..j + 1] == chains[i][..j] + [x];
  }

  /** A bucket done, the next one is whole. */
  lemma MoveOn(heads: seq<Entry?>, chains: seq<seq<Entry>>, es: set<Entry>, nx: map<Entry, Entry?>,
               nheads: seq<Entry?>, nch: seq<seq<Entry>>, done: set<Entry>, i: nat)
    requires i < |chains| && Moving(heads, chains, es, nx, nheads, nch, done, i, |chains[i]|)
    ensures Moving(heads, chains, es, nx, nheads, nch, done, i + 1, 0)
  {
    assert chains[i][..|chains[i]|] == chains[i];
    assert i + 1 < |chains| ==> Linked(heads[i + 1], chains[i + 1], nx);
    forall x | x in es
      ensures x in done <==> Moved(chains, x, i + 1, 0)
    {
      assert In(x, es);
      assert InBucket(chains, Slot(x.hashval, |chains|), x);
      assert x in chains[i] ==> InBucket(chains, i, x);
    }
  }
}
