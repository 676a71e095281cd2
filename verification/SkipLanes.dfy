/**
 The positions behind a skip list. A list is given by the heights of its nodes in lane-0 order,
 the header first; lane i links each node taller than i to the next such node. How those links
 move when a node comes in or goes out is arithmetic on positions.
 */
module SkipLanes {
  /** The next position after `p` that is taller than `i`; |hs| if there is none. */
  ghost function Next(hs: seq<nat>, p: nat, i: nat): (q: nat)
    requires p < |hs|
    ensures p < q <= |hs|
    decreases |hs| - p
  {
    if p + 1 == |hs| || hs[p + 1] > i then p + 1 else Next(hs, p + 1, i)
  }

  ghost predicate IsNext(hs: seq<nat>, p: nat, i: nat, q: nat) {
    p < q <= |hs| && (q < |hs| ==> hs[q] > i) && forall r :: p < r < q ==> hs[r] <= i
  }

  lemma {:induction false} NextIs(hs: seq<nat>, p: nat, i: nat)
    requires p < |hs|
    ensures IsNext(hs, p, i, Next(hs, p, i))
    decreases |hs| - p
  {
    if p + 1 == |hs| || hs[p + 1] > i {
    } else {
      NextIs(hs, p + 1, i);
    }
  }

  lemma NextUnique(hs: seq<nat>, p: nat, i: nat, q: nat)
    requires p < |hs| && IsNext(hs, p, i, q)
    ensures Next(hs, p, i) == q
  {
    NextIs(hs, p, i);
  }

  /** The lane walked along its links, and the positions it should consist of. */
  ghost function Walk(hs: seq<nat>, p: nat, i: nat): seq<nat>
    requires p < |hs|
    decreases |hs| - p
  {
    var q := Next(hs, p, i);
    if q == |hs| then [] else [q] + Walk(hs, q, i)
  }

  ghost function TallerAfter(hs: seq<nat>, p: nat, i: nat): seq<nat>
    requires p < |hs|
    decreases |hs| - p
  {
    if p + 1 == |hs| then []
    else if hs[p + 1] > i then [p + 1] + TallerAfter(hs, p + 1, i)
    else TallerAfter(hs, p + 1, i)
  }

  /** Lane i is exactly the subsequence of the nodes taller than i. */
  lemma {:induction false} LaneIsSubsequence(hs: seq<nat>, p: nat, i: nat)
    requires p < |hs|
    ensures Walk(hs, p, i) == TallerAfter(hs, p, i)
    decreases |hs| - p
  {
    if p + 1 == |hs| {
    } else {
      LaneIsSubsequence(hs, p + 1, i);
    }
  }

  /** The next position is one in between exactly when that one is tall enough. */
  lemma NextMeets(hs: seq<nat>, p: nat, i: nat, at: nat)
    requires p < at < |hs| && at <= Next(hs, p, i)
    ensures Next(hs, p, i) == at <==> i < hs[at]
  {
    NextIs(hs, p, i);
  }

  // ---------- One node comes in ----------

  ghost function Put<T>(s: seq<T>, at: nat, x: T): seq<T>
    requires at <= |s|
  {
    s[..at] + [x] + s[at..]
  }

  ghost function Cut<T>(s: seq<T>, at: nat): seq<T>
    requires at < |s|
  {
    s[..at] + s[at + 1..]
  }

  /** Where position `p` of the old sequence is in the new one. */
  function Shift(at: nat, p: nat): nat {
    if p < at then p else p + 1
  }

  /** r is s with `x` put in at `at`. */
  ghost predicate IsPut<T>(s: seq<T>, at: nat, x: T, r: seq<T>) {
    && at <= |s| && |r| == |s| + 1 && r[at] == x
    && forall p :: 0 <= p < |s| ==> r[Shift(at, p)] == s[p]
  }

  lemma PutIsPut<T>(s: seq<T>, at: nat, x: T)
    requires at <= |s|
    ensures IsPut(s, at, x, Put(s, at, x))
  {
  }

  function Unshift(at: nat, p: nat): (q: nat)
    requires p != at
    ensures Shift(at, q) == p
  {
    if p < at then p else p - 1
  }

  lemma NextPut(hs: seq<nat>, hs': seq<nat>, at: nat, h: nat, p: nat, i: nat)
    requires IsPut(hs, at, h, hs') && p < |hs|
    ensures Next(hs', Shift(at, p), i) ==
      if p < at <= Next(hs, p, i) && h > i then at else Shift(at, Next(hs, p, i))
  {
    var q := Next(hs, p, i);
    NextIs(hs, p, i);
    var q' := if p < at <= q && h > i then at else Shift(at, q);
    forall r | Shift(at, p) < r < q'
      ensures hs'[r] <= i
    {
      if r != at {
        assert hs'[r] == hs[Unshift(at, r)];
      }
    }
    if q < |hs| {
      assert hs'[Shift(at, q)] == hs[q];
    }
    NextUnique(hs', Shift(at, p), i, q');
  }

  lemma NextOfPut(hs: seq<nat>, hs': seq<nat>, at: nat, h: nat, p: nat, i: nat)
    requires IsPut(hs, at, h, hs') && p < at && at <= Next(hs, p, i)
    ensures Next(hs', at, i) == Next(hs, p, i) + 1
  {
    var q := Next(hs, p, i);
    NextIs(hs, p, i);
    forall r | at < r < q + 1
      ensures hs'[r] <= i
    {
      assert hs'[r] == hs[Unshift(at, r)];
    }
    if q < |hs| {
      assert hs'[Shift(at, q)] == hs[q];
    }
    NextUnique(hs', at, i, q + 1);
  }

  // ---------- One node goes out ----------

  /** r is s without its element at `at`. */
  ghost predicate IsCut<T>(s: seq<T>, at: nat, r: seq<T>) {
    && at < |s| && |r| == |s| - 1
    && forall p :: 0 <= p < |r| ==> r[p] == s[Shift(at, p)]
  }

  lemma CutIsCut<T>(s: seq<T>, at: nat)
    requires at < |s|
    ensures IsCut(s, at, Cut(s, at))
  {
  }

  lemma NextCut(hs: seq<nat>, hs': seq<nat>, at: nat, p: nat, i: nat)
    requires IsCut(hs, at, hs') && 0 < at && p < |hs'|
    ensures var q := Next(hs, Shift(at, p), i);
      Shift(at, Next(hs', p, i)) == if q == at then Next(hs, at, i) else q
  {
    var q0 := Next(hs, Shift(at, p), i);
    NextIs(hs, Shift(at, p), i);
    NextIs(hs, at, i);
    var q := if q0 == at then Next(hs, at, i) else q0;
    NextUnique(hs', p, i, Unshift(at, q));
  }

  // ---------- Keys ----------

  /** keys[0] belongs to the header and takes no part. */
  ghost predicate SortedKeys(keys: seq<nat>) {
    forall i, j :: 1 <= i < j < |keys| ==> keys[i] <= keys[j]
  }

  /** The first position whose key is not less than `key`; |keys| if there is none. */
  ghost function FirstNotLess(keys: seq<nat>, key: nat): (p: nat)
    requires |keys| > 0
    ensures 1 <= p <= |keys|
    ensures forall j :: 1 <= j < p ==> keys[j] < key
    ensures p < |keys| ==> keys[p] >= key
  {
    FirstFrom(keys, key, 1)
  }

  ghost function FirstFrom(keys: seq<nat>, key: nat, from: nat): (p: nat)
    requires 1 <= from <= |keys|
    requires forall j :: 1 <= j < from ==> keys[j] < key
    ensures from <= p <= |keys|
    ensures forall j :: 1 <= j < p ==> keys[j] < key
    ensures p < |keys| ==> keys[p] >= key
    decreases |keys| - from
  {
    if from == |keys| || keys[from] >= key then from else FirstFrom(keys, key, from + 1)
  }

  /** `u` is where the search for `key` leaves lane i. */
  ghost predicate Stop(hs: seq<nat>, keys: seq<nat>, key: nat, i: nat, u: nat)
    requires |hs| == |keys|
  {
    u < |hs| && hs[u] > i && (u > 0 ==> keys[u] < key)
    && (Next(hs, u, i) < |hs| ==> keys[Next(hs, u, i)] >= key)
  }

  /** Wherever a lane is left, the place found on lane 0 lies between there and the lane's next node. */
  lemma StopBrackets(hs: seq<nat>, keys: seq<nat>, key: nat, i: nat, u: nat)
    requires |hs| == |keys| && SortedKeys(keys) && Stop(hs, keys, key, i, u)
    ensures u < FirstNotLess(keys, key) <= Next(hs, u, i)
  {
  }

  /** A lane is left at one place only. */
  lemma StopUnique(hs: seq<nat>, at: nat, i: nat, u: nat, p: nat)
    requires u < |hs| && p < |hs| && hs[u] > i && hs[p] > i
    requires u < at <= Next(hs, u, i) && p < at <= Next(hs, p, i)
    ensures u == p
  {
    NextIs(hs, u, i);
    NextIs(hs, p, i);
  }

  lemma FirstNotLessUnique(keys: seq<nat>, key: nat, p: nat)
    requires |keys| > 0 && 1 <= p <= |keys|
    requires forall j :: 1 <= j < p ==> keys[j] < key
    requires p < |keys| ==> keys[p] >= key
    ensures FirstNotLess(keys, key) == p
  {
  }

  /** The level of a list is the height of its tallest node, or 1. */
  ghost predicate Tight(hs: seq<nat>, level: nat) {
    && level >= 1 && (forall p :: 1 <= p < |hs| ==> hs[p] <= level)
    && (level > 1 ==> exists p :: 1 <= p < |hs| && hs[p] == level)
  }

  /** Deleting a key undoes the insertion of it, whatever the list held before: keys, nodes and heights are as they
      were, and so is a level that was that of the tallest node. */
  lemma DeleteUndoesInsert<T>(keys: seq<nat>, key: nat, nodes: seq<T>, n: T, hs: seq<nat>, h: nat,
                              level: nat, level': nat)
    requires |keys| == |nodes| == |hs| > 0
    ensures var at := FirstNotLess(keys, key);
      && FirstNotLess(Put(keys, at, key), key) == at && Put(keys, at, key)[at] == key
      && Cut(Put(keys, at, key), at) == keys && Cut(Put(nodes, at, n), at) == nodes && Cut(Put(hs, at, h), at) == hs
      && (Tight(hs, level) && Tight(Cut(Put(hs, at, h), at), level') ==> level' == level)
  {
    var at := FirstNotLess(keys, key);
    FirstNotLessUnique(Put(keys, at, key), key, at);
    CutOfPut(keys, at, key);
    CutOfPut(nodes, at, n);
    CutOfPut(hs, at, h);
  }

  lemma CutOfPut<T>(s: seq<T>, at: nat, x: T)
    requires at <= |s|
    ensures Cut(Put(s, at, x), at) == s
  {
  }

  // ---------- Ties over whole runs ----------

  /** Entries with one key stand newest first; `born` is the order of their insertions. */
  ghost predicate NewestFirst(keys: seq<nat>, born: seq<nat>) {
    && |keys| == |born| > 0 && SortedKeys(keys)
    && forall i, j :: 1 <= i < j < |keys| && keys[i] == keys[j] ==> born[i] > born[j]
  }

  /** And all have come before `clock`. */
  ghost predicate Dated(keys: seq<nat>, born: seq<nat>, clock: nat) {
    NewestFirst(keys, born) && forall i :: 0 <= i < |born| ==> born[i] < clock
  }

  lemma InsertKeepsNewestFirst(keys: seq<nat>, born: seq<nat>, keys': seq<nat>, born': seq<nat>, key: nat, now: nat)
    requires NewestFirst(keys, born)
    requires forall i :: 1 <= i < |born| ==> born[i] < now
    requires IsPut(keys, FirstNotLess(keys, key), key, keys') && IsPut(born, FirstNotLess(keys, key), now, born')
    ensures NewestFirst(keys', born')
  {
    var at := FirstNotLess(keys, key);
    forall i, j | 1 <= i < j < |keys'|
      ensures keys'[i] <= keys'[j] && (keys'[i] == keys'[j] ==> born'[i] > born'[j])
    {
      assert i != at ==> keys'[i] == keys[Unshift(at, i)] && born'[i] == born[Unshift(at, i)];
      assert j != at ==> keys'[j] == keys[Unshift(at, j)] && born'[j] == born[Unshift(at, j)];
    }
  }

  lemma DeleteKeepsNewestFirst(keys: seq<nat>, born: seq<nat>, keys': seq<nat>, born': seq<nat>, at: nat)
    requires NewestFirst(keys, born) && 1 <= at
    requires IsCut(keys, at, keys') && IsCut(born, at, born')
    ensures NewestFirst(keys', born')
  {
  }

  lemma DatedPut(keys: seq<nat>, born: seq<nat>, clock: nat, key: nat, keys': seq<nat>, born': seq<nat>)
    requires Dated(keys, born, clock)
    requires keys' == Put(keys, FirstNotLess(keys, key), key) && born' == Put(born, FirstNotLess(keys, key), clock)
    ensures Dated(keys', born', clock + 1)
  {
    var at := FirstNotLess(keys, key);
    PutIsPut(keys, at, key);
    PutIsPut(born, at, clock);
    InsertKeepsNewestFirst(keys, born, keys', born', key, clock);
  }

  lemma DatedCut(keys: seq<nat>, born: seq<nat>, clock: nat, at: nat, keys': seq<nat>, born': seq<nat>)
    requires Dated(keys, born, clock) && 1 <= at < |keys| && keys' == Cut(keys, at) && born' == Cut(born, at)
    ensures Dated(keys', born', clock)
  {
    CutIsCut(keys, at);
    CutIsCut(born, at);
    DeleteKeepsNewestFirst(keys, born, keys', born', at);
  }

  /** What the search returns is the most recently inserted live entry with the key. */
  lemma SearchFindsNewest(keys: seq<nat>, born: seq<nat>, key: nat)
    requires NewestFirst(keys, born)
    ensures var p := FirstNotLess(keys, key);
      && (p < |keys| && keys[p] == key <==> exists j :: 1 <= j < |keys| && keys[j] == key)
      && (forall j :: 1 <= j < |keys| && keys[j] == key ==> p < |keys| && keys[p] == key && born[j] <= born[p])
  {
  }
}
