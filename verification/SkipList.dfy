/**
 jk_skip.c on the heap. `forward` is the array that each node carries inside itself, so it is a
 sequence-valued field; `nodes`, `hs` and `keys` are the list as SkipLanes sees it.
 */
module SkipList {
  import opened SkipLanes

  const JK_SKIP_MAX_LEVEL := 32
  const TWO64 := 0x1_0000_0000_0000_0000

  class Node {
    const key: nat
    const value: object?
    var forward: seq<Node?>

    constructor (level: nat, key: nat, value: object?)
      ensures this.key == key && this.value == value
      ensures |forward| == level
    {
      this.key, this.value := key, value;
      forward := seq(level, _ => null);
    }
  }

  ghost function At(nodes: seq<Node>, q: nat): Node? {
    if q < |nodes| then nodes[q] else null
  }

  ghost predicate DistinctNodes(nodes: seq<Node>) {
    forall p, q :: 0 <= p < q < |nodes| ==> nodes[p] != nodes[q]
  }

  /** The forward slots of all nodes, as they are now. */
  ghost function Table(nodes: seq<Node>): (t: seq<seq<Node?>>)
    reads nodes
    ensures |t| == |nodes| && forall p :: 0 <= p < |nodes| ==> t[p] == nodes[p].forward
  {
    seq(|nodes|, p requires 0 <= p < |nodes| reads nodes => nodes[p].forward)
  }

  ghost predicate Fits(t: seq<seq<Node?>>, hs: seq<nat>) {
    |t| == |hs| && forall p :: 0 <= p < |hs| ==> |t[p]| == hs[p]
  }

  /** Lane i links each node taller than i to the next one. */
  ghost predicate LaneOk(nodes: seq<Node>, t: seq<seq<Node?>>, hs: seq<nat>, i: nat)
    requires Fits(t, hs)
  {
    forall p :: 0 <= p < |hs| && hs[p] > i ==> t[p][i] == At(nodes, Next(hs, p, i))
  }

  ghost predicate LanesOk(nodes: seq<Node>, t: seq<seq<Node?>>, hs: seq<nat>, lo: nat, hi: nat)
    requires Fits(t, hs)
  {
    forall i :: lo <= i < hi ==> LaneOk(nodes, t, hs, i)
  }

  class SkipList {
    const header: Node
    var length: nat
    var level: nat
    ghost var nodes: seq<Node>
    ghost var hs: seq<nat>
    ghost var keys: seq<nat>
    // The number of the insertion that each entry came with, and of the next one.
    ghost var born: seq<nat>
    ghost var clock: nat

    ghost predicate Shaped()
      reads this, nodes
    {
      ShapedAs(nodes, hs, keys, level)
    }

    ghost predicate ShapedAs(nodes: seq<Node>, hs: seq<nat>, keys: seq<nat>, level: nat)
      reads nodes
    {
      && |nodes| == |hs| == |keys| > 0 && DistinctNodes(nodes) && Fits(Table(nodes), hs)
      && nodes[0] == header && hs[0] == JK_SKIP_MAX_LEVEL
      && SortedKeys(keys) && (forall p :: 1 <= p < |nodes| ==> nodes[p].key == keys[p])
      && 1 <= level <= JK_SKIP_MAX_LEVEL
      && (forall p :: 1 <= p < |nodes| ==> 1 <= hs[p] <= level)
    }

    /** The structure is sound, and entries with one key stand newest first. */
    ghost predicate Valid()
      reads this, nodes
    {
      Linked() && Dated(keys, born, clock)
    }

    /** Every lane links just the nodes that are tall enough for it, in order. */
    ghost predicate Linked()
      reads this, nodes
    {
      && Shaped()
      && LanesOk(nodes, Table(nodes), hs, 0, JK_SKIP_MAX_LEVEL)
      && length == |nodes| - 1
    }

    /** At and above the level every header slot is empty; below it lanes only go forward. */
    lemma AboveLevel(i: nat)
      requires Linked() && level <= i < JK_SKIP_MAX_LEVEL
      ensures header.forward[i] == null
    {
      assert LaneOk(nodes, Table(nodes), hs, i);
      NextIs(hs, 0, i);
    }

    constructor ()
      ensures Valid() && nodes == [header] && fresh(header) && level == 1
    {
      var h := new Node(JK_SKIP_MAX_LEVEL, 0, null);
      header := h;
      length, level := 0, 1;
      nodes, hs, keys := [h], [JK_SKIP_MAX_LEVEL], [0];
      born, clock := [0], 1;
      new;
      header.forward := seq(JK_SKIP_MAX_LEVEL, _ => null);
    }

    /** update[i] is the node where the search for `key` leaves lane i, for the lanes from `from` up. */
    ghost predicate Searched(update: seq<Node?>, us: seq<nat>, key: nat, from: nat)
      reads this, nodes
      requires Shaped() && |update| == JK_SKIP_MAX_LEVEL && |us| == JK_SKIP_MAX_LEVEL
    {
      forall i :: from <= i < level ==> Stop(hs, keys, key, i, us[i]) && update[i] == nodes[us[i]]
    }

    /** The walk along lane i, from position `p0`. */
    method WalkLane(key: nat, i: nat, start: Node, ghost p0: nat) returns (n: Node, ghost p: nat)
      requires Linked() && i < level
      requires p0 < |nodes| && start == nodes[p0] && hs[p0] > i && (p0 > 0 ==> keys[p0] < key)
      ensures p < |nodes| && n == nodes[p] && Stop(hs, keys, key, i, p)
    {
      n, p := start, p0;
      assert LaneOk(nodes, Table(nodes), hs, i);
      while n.forward[i] != null && n.forward[i].key < key
        invariant p < |nodes| && n == nodes[p] && hs[p] > i && (p > 0 ==> keys[p] < key)
        decreases |nodes| - p
      {
        NextIs(hs, p, i);
        n, p := n.forward[i], Next(hs, p, i);
      }
    }

    /** The nested loops that insertion and deletion start with. */
    method Search(key: nat, update: array<Node?>) returns (n: Node, ghost us: seq<nat>)
      requires Linked() && update.Length == JK_SKIP_MAX_LEVEL
      modifies update
      ensures |us| == JK_SKIP_MAX_LEVEL && Searched(update[..], us, key, 0)
      ensures n == nodes[us[0]]
      ensures forall j :: level <= j < JK_SKIP_MAX_LEVEL ==> us[j] == 0
    {
      n := header;
      us := seq(JK_SKIP_MAX_LEVEL, _ => 0);
      ghost var p: nat := 0;
      var i := level;
      while i > 0
        invariant 0 <= i <= level && |us| == JK_SKIP_MAX_LEVEL
        invariant p < |nodes| && n == nodes[p] && hs[p] >= i && (p > 0 ==> keys[p] < key)
        invariant Searched(update[..], us, key, i)
        invariant i < level ==> us[i] == p
        invariant forall j :: level <= j < JK_SKIP_MAX_LEVEL ==> us[j] == 0
      {
        i := i - 1;
        n, p := WalkLane(key, i, n, p);
        update[i] := n;
        us := us[i := p];
      }
    }

    /** Where the search leaves lane 0, the next node is the first that is not less. */
    lemma FirstAfter(key: nat, u: nat)
      requires Linked() && Stop(hs, keys, key, 0, u)
      ensures FirstNotLess(keys, key) == u + 1 && nodes[u].forward[0] == At(nodes, u + 1)
    {
      assert LaneOk(nodes, Table(nodes), hs, 0);
      StopBrackets(hs, keys, key, 0, u);
      assert Next(hs, u, 0) == u + 1;
    }

    /** jk_skip_find_node: the first node with the key, after the signed key became unsigned. */
    method FindNode(key: int) returns (node: Node?)
      requires Valid() && -0x8000_0000_0000_0000 <= key < 0x8000_0000_0000_0000
      ensures var k := Unsigned(key); var p := FirstNotLess(keys, k);
        && node == (if p < |nodes| && keys[p] == k then nodes[p] else null)
        && (node == null <==> forall j :: 1 <= j < |keys| ==> keys[j] != k)
        && |born| == |keys| == |nodes|
        && (node != null ==> forall j :: 1 <= j < |keys| && keys[j] == k ==> born[j] <= born[p])
      ensures node != null ==>
        node in nodes[1..] && (node.key == key || (key < 0 && node.key == key + 0x1_0000_0000_0000_0000))
      ensures key >= 0 && node == null ==> forall j :: 1 <= j < |nodes| ==> nodes[j].key != key
      ensures key < 0 && node == null ==> forall j :: 1 <= j < |nodes| ==> nodes[j].key != key + 0x1_0000_0000_0000_0000
    {
      var k := Unsigned(key);
      SearchFindsNewest(keys, born, k);
      var n := header;
      ghost var p: nat := 0;
      var i := level;
      while i > 0
        invariant 0 <= i <= level
        invariant p < |nodes| && n == nodes[p] && hs[p] >= i && (p > 0 ==> keys[p] < k)
        invariant i < level ==> Stop(hs, keys, k, i, p)
      {
        i := i - 1;
        n, p := WalkLane(k, i, n, p);
      }
      FirstAfter(k, p);
      node := n.forward[0];
      if node == null || node.key != k {
        node := null;
      }
    }

    /** The new node is in the first `i` lanes and not in the others. */
    ghost predicate Linking(n: Node, h: nat, at: nat, i: nat)
      reads this, nodes, n
    {
      && |nodes| == |hs| && DistinctNodes(nodes) && n !in nodes && at <= |nodes|
      && Fits(Table(nodes), hs) && |n.forward| == h && i <= h <= JK_SKIP_MAX_LEVEL
      && HalfLinked(nodes, Table(nodes), hs, n, n.forward, at, i)
    }

    /** One turn of the loop that links the new node into the lanes. */
    method LinkLane(n: Node, before: Node, i: nat, ghost h: nat, ghost at: nat, ghost u: nat)
      requires Shaped() && Linking(n, h, at, i) && i < h && u < |nodes| && before == nodes[u]
      requires hs[u] > i && u < at <= Next(hs, u, i)
      modifies n`forward, before`forward
      ensures Shaped() && Linking(n, h, at, i + 1)
    {
      ghost var t, row := Table(nodes), n.forward;
      assert LaneOk(nodes, t, hs, i);
      n.forward := n.forward[i := before.forward[i]];
      before.forward := before.forward[i := n];
      assert Table(nodes) == t[u := t[u][i := n]];
      TurnLinks(nodes, t, hs, n, row, at, i, u);
    }

    /** The search, and the lanes that a taller node adds. */
    method SearchAndRaise(key: nat, newLevel: nat, update: array<Node?>) returns (ghost us: seq<nat>)
      requires Linked() && update.Length == JK_SKIP_MAX_LEVEL && 1 <= newLevel <= JK_SKIP_MAX_LEVEL
      modifies update, this`level
      ensures Linked() && newLevel <= level && level == (if newLevel > old(level) then newLevel else old(level))
      ensures |us| == JK_SKIP_MAX_LEVEL && Searched(update[..], us, key, 0)
    {
      var n;
      n, us := Search(key, update);
      if newLevel > level {
        ghost var found := update[..];
        FillHeader(newLevel, update);
        RaisedSearch(found, update[..], us, key, newLevel);
        RaiseLevel(newLevel);
      }
    }

    /** The new lanes are left at the header. */
    method FillHeader(newLevel: nat, update: array<Node?>)
      requires Linked() && update.Length == JK_SKIP_MAX_LEVEL && level <= newLevel <= JK_SKIP_MAX_LEVEL
      modifies update
      ensures Linked()
      ensures forall j :: 0 <= j < newLevel ==> update[j] == if j < level then old(update[j]) else header
    {
      var i := level;
      while i < newLevel
        invariant level <= i <= newLevel
        invariant forall j :: 0 <= j < i ==> update[j] == if j < level then old(update[j]) else header
      {
        update[i] := header;
        i := i + 1;
      }
    }

    method RaiseLevel(newLevel: nat)
      requires Linked() && level <= newLevel <= JK_SKIP_MAX_LEVEL
      modifies this`level
      ensures Linked() && level == newLevel
    {
      level := newLevel;
    }

    /** On a lane above all nodes the search ends at the header. */
    lemma RaisedSearch(found: seq<Node?>, raised: seq<Node?>, us: seq<nat>, key: nat, newLevel: nat)
      requires Shaped() && level <= newLevel <= JK_SKIP_MAX_LEVEL
      requires |found| == |raised| == |us| == JK_SKIP_MAX_LEVEL && Searched(found, us, key, 0)
      requires forall j :: level <= j < JK_SKIP_MAX_LEVEL ==> us[j] == 0
      requires forall j :: 0 <= j < newLevel ==> raised[j] == if j < level then found[j] else header
      ensures forall j :: 0 <= j < newLevel ==> Stop(hs, keys, key, j, us[j]) && raised[j] == nodes[us[j]]
    {
      forall j: nat | level <= j < newLevel
        ensures Stop(hs, keys, key, j, 0)
      {
        NextIs(hs, 0, j);
      }
    }

    lemma PutShaped(nodes': seq<Node>, hs': seq<nat>, keys': seq<nat>, n: Node, h: nat, key: nat)
      requires Shaped() && 1 <= h <= level && n.key == key && n !in nodes && |n.forward| == h
      requires var at := FirstNotLess(keys, key);
        IsPut(nodes, at, n, nodes') && IsPut(hs, at, h, hs') && IsPut(keys, at, key, keys')
      ensures ShapedAs(nodes', hs', keys', level)
    {
      var at := FirstNotLess(keys, key);
      PutDistinct(nodes, nodes', at, n);
      PutSorted(keys, keys', key);
      forall p' | 0 <= p' < |nodes'| && p' != at
        ensures nodes'[p'] == nodes[Unshift(at, p')]
        ensures hs'[p'] == hs[Unshift(at, p')] && keys'[p'] == keys[Unshift(at, p')]
      {
      }
    }

    /** The list takes the linked node over. */
    method FinishInsert(ghost n: Node, ghost h: nat, ghost key: nat, ghost at: nat)
      requires Shaped() && length == |nodes| - 1 && 1 <= h <= level && n.key == key
      requires at == FirstNotLess(keys, key) && Linking(n, h, at, h)
      modifies this`nodes, this`hs, this`keys, this`length
      ensures Linked()
      ensures nodes == Put(old(nodes), at, n) && keys == Put(old(keys), at, key) && hs == Put(old(hs), at, h)
    {
      Adopt(n, h, key, at);
      CountUp();
    }

    ghost method Adopt(n: Node, h: nat, key: nat, at: nat)
      requires Shaped() && 1 <= h <= level && n.key == key
      requires at == FirstNotLess(keys, key) && Linking(n, h, at, h)
      modifies this`nodes, this`hs, this`keys
      ensures Shaped() && LanesOk(nodes, Table(nodes), hs, 0, JK_SKIP_MAX_LEVEL)
      ensures nodes == Put(old(nodes), at, n) && keys == Put(old(keys), at, key) && hs == Put(old(hs), at, h)
    {
      var nodes', hs', keys' := Put(nodes, at, n), Put(hs, at, h), Put(keys, at, key);
      AdoptedShape(n, h, key, nodes', hs', keys');
      nodes, hs, keys := nodes', hs', keys';
    }

    method CountUp()
      requires Shaped() && LanesOk(nodes, Table(nodes), hs, 0, JK_SKIP_MAX_LEVEL) && length == |nodes| - 2
      modifies this`length
      ensures Linked()
    {
      length := length + 1;
    }

    lemma AdoptedShape(n: Node, h: nat, key: nat, nodes': seq<Node>, hs': seq<nat>, keys': seq<nat>)
      requires Shaped() && 1 <= h <= level && n.key == key
      requires Linking(n, h, FirstNotLess(keys, key), h)
      requires var at := FirstNotLess(keys, key);
        nodes' == Put(nodes, at, n) && hs' == Put(hs, at, h) && keys' == Put(keys, at, key)
      ensures ShapedAs(nodes', hs', keys', level) && LanesOk(nodes', Table(nodes'), hs', 0, JK_SKIP_MAX_LEVEL)
    {
      var at := FirstNotLess(keys, key);
      PutIsPut(nodes, at, n);
      PutIsPut(hs, at, h);
      PutIsPut(keys, at, key);
      PutShaped(nodes', hs', keys', n, h, key);
      AdoptedLanes(n, h, at);
    }

    lemma AdoptedLanes(n: Node, h: nat, at: nat)
      requires Linking(n, h, at, h)
      ensures Fits(Table(Put(nodes, at, n)), Put(hs, at, h))
      ensures LanesOk(Put(nodes, at, n), Table(Put(nodes, at, n)), Put(hs, at, h), 0, JK_SKIP_MAX_LEVEL)
    {
      FullyLinked(nodes, Table(nodes), hs, n, n.forward, at);
      TableOfPut(nodes, n, at);
    }

    /** The loop that links the new node into its lanes. */
    method LinkAll(n: Node, update: array<Node?>, key: nat, h: nat, ghost us: seq<nat>)
      requires Linked() && update.Length == JK_SKIP_MAX_LEVEL && h <= level
      requires |us| == JK_SKIP_MAX_LEVEL && Searched(update[..], us, key, 0)
      requires n !in nodes && |n.forward| == h
      modifies n`forward, nodes`forward
      ensures Shaped() && Linking(n, h, FirstNotLess(keys, key), h)
    {
      ghost var at := FirstNotLess(keys, key);
      var i := 0;
      while i < h
        invariant 0 <= i <= h
        invariant Shaped() && Linking(n, h, at, i)
      {
        assert Stop(hs, keys, key, i, us[i]) && update[i] == nodes[us[i]];
        StopBrackets(hs, keys, key, i, us[i]);
        LinkLane(n, update[i], i, h, at, us[i]);
        i := i + 1;
      }
    }

    /**
     jk_skip_insert. `newLevel` is what jk_skip_random_level drew and `mallocOk` whether the node
     could be allocated. The new entry goes just before the first that is not less.
     */
    method Insert(key: nat, value: object?, newLevel: nat, mallocOk: bool) returns (ret: int)
      requires Valid() && 1 <= newLevel <= JK_SKIP_MAX_LEVEL
      modifies this`length, this`level, this`nodes, this`hs, this`keys, this`born, this`clock, nodes`forward
      ensures Valid() && ret == (if mallocOk then 0 else -1)
      ensures level == if newLevel > old(level) then newLevel else old(level)
      ensures !mallocOk ==> nodes == old(nodes) && keys == old(keys) && hs == old(hs) && born == old(born)
      ensures mallocOk ==>
        var at := FirstNotLess(old(keys), key);
        && |nodes| == |old(nodes)| + 1
        && fresh(nodes[at]) && nodes[at].key == key && nodes[at].value == value
        && nodes == Put(old(nodes), at, nodes[at])
        && keys == Put(old(keys), at, key) && hs == Put(old(hs), at, newLevel)
        && |old(born)| == |old(keys)| && born == Put(old(born), at, old(clock)) && clock == old(clock) + 1
    {
      var update := NewUpdate();
      ghost var us := SearchAndRaise(key, newLevel, update);
      if !mallocOk {
        return -1;
      }
      var n := NewNode(newLevel, key, value);
      ghost var before := keys;
      LinkIn(n, update, key, newLevel, us);
      Date(key, before);
      return 0;
    }

    /** The new entry is younger than all others. */
    ghost method Date(key: nat, before: seq<nat>)
      requires Linked() && Dated(before, born, clock)
      requires keys == Put(before, FirstNotLess(before, key), key)
      modifies this`born, this`clock
      ensures Valid() && born == Put(old(born), FirstNotLess(before, key), old(clock)) && clock == old(clock) + 1
    {
      var at := FirstNotLess(before, key);
      var born' := Put(born, at, clock);
      DatedPut(before, born, clock, key, keys, born');
      born, clock := born', clock + 1;
    }

    ghost method Undate(at: nat, before: seq<nat>)
      requires Linked() && Dated(before, born, clock) && 1 <= at < |before| && keys == Cut(before, at)
      modifies this`born
      ensures Valid() && born == Cut(old(born), at)
    {
      var born' := Cut(born, at);
      DatedCut(before, born, clock, at, keys, born');
      born := born';
    }

    method LinkIn(n: Node, update: array<Node?>, key: nat, h: nat, ghost us: seq<nat>)
      requires Linked() && update.Length == JK_SKIP_MAX_LEVEL && 1 <= h <= level
      requires |us| == JK_SKIP_MAX_LEVEL && Searched(update[..], us, key, 0)
      requires n !in nodes && |n.forward| == h && n.key == key
      modifies n`forward, nodes`forward, this`nodes, this`hs, this`keys, this`length
      ensures Linked()
      ensures var at := FirstNotLess(old(keys), key);
        && IsPut(old(nodes), at, n, nodes)
        && nodes == Put(old(nodes), at, n) && keys == Put(old(keys), at, key) && hs == Put(old(hs), at, h)
    {
      LinkAll(n, update, key, h, us);
      PutIsPut(nodes, FirstNotLess(keys, key), n);
      FinishInsert(n, h, key, FirstNotLess(keys, key));
    }

    method NewUpdate() returns (update: array<Node?>)
      requires Linked()
      ensures Linked() && fresh(update) && update.Length == JK_SKIP_MAX_LEVEL
    {
      update := new Node?[JK_SKIP_MAX_LEVEL](_ => null);
    }

    /** jk_skip_node_new */
    method NewNode(h: nat, key: nat, value: object?) returns (n: Node)
      requires Linked()
      ensures Linked() && fresh(n) && n !in nodes
      ensures n.key == key && n.value == value && |n.forward| == h
    {
      n := new Node(h, key, value);
    }

    /** The node at `at` is out of the first `i` lanes and still in the others. */
    ghost predicate Unlinking(at: nat, i: nat)
      reads this, nodes
    {
      Shaped() && 1 <= at < |nodes| && i <= hs[at] && HalfCut(nodes, Table(nodes), hs, at, i)
    }

    /** One turn of the loop that takes a node out of its lanes. */
    method UnlinkLane(n: Node, before: Node, i: nat, ghost at: nat, ghost u: nat)
      requires Unlinking(at, i) && i < hs[at] && n == nodes[at] && u < |nodes| && before == nodes[u]
      requires hs[u] > i && u < at == Next(hs, u, i)
      modifies before`forward
      ensures Unlinking(at, i + 1)
    {
      ghost var t := Table(nodes);
      before.forward := before.forward[i := n.forward[i]];
      assert Table(nodes) == t[u := t[u][i := t[at][i]]];
      TurnUnlinks(nodes, t, hs, at, i, u);
    }

    /** The loop with its early exit: it leaves at the first lane that the node is not in. */
    method UnlinkAll(n: Node, update: array<Node?>, key: nat, ghost us: seq<nat>)
      requires Linked() && update.Length == JK_SKIP_MAX_LEVEL
      requires |us| == JK_SKIP_MAX_LEVEL && Searched(update[..], us, key, 0)
      requires FirstNotLess(keys, key) < |nodes| && n == nodes[FirstNotLess(keys, key)]
      modifies nodes`forward
      ensures var at := FirstNotLess(keys, key); Unlinking(at, hs[at])
    {
      ghost var at := FirstNotLess(keys, key);
      CutStart(at);
      var i := 0;
      while i < level
        invariant 0 <= i <= hs[at]
        invariant Unlinking(at, i)
      {
        ghost var u := us[i];
        assert Stop(hs, keys, key, i, u) && update[i] == nodes[u];
        StopBrackets(hs, keys, key, i, u);
        LaneLeft(at, i);
        LaneMeets(at, i, u);
        if update[i].forward[i] != n {
          break;
        }
        UnlinkLane(n, update[i], i, at, u);
        i := i + 1;
      }
    }

    lemma CutStart(at: nat)
      requires Linked() && 1 <= at < |nodes|
      ensures Unlinking(at, 0)
    {
      CutIsCut(nodes, at);
      CutIsCut(hs, at);
      CutIsCut(Table(nodes), at);
    }

    /** Before the place `at`, a lane leads to its node exactly when the node is in the lane. */
    lemma LaneMeets(at: nat, i: nat, u: nat)
      requires Shaped() && LaneOk(nodes, Table(nodes), hs, i) && at < |nodes|
      requires u < |nodes| && hs[u] > i && u < at <= Next(hs, u, i)
      ensures nodes[u].forward[i] == nodes[at] <==> i < hs[at]
      ensures i < hs[at] ==> Next(hs, u, i) == at
    {
      NextMeets(hs, u, i, at);
      assert nodes[u].forward[i] == At(nodes, Next(hs, u, i)) by {
        assert Table(nodes)[u] == nodes[u].forward;
      }
    }

    lemma LaneLeft(at: nat, i: nat)
      requires Unlinking(at, i) && i < JK_SKIP_MAX_LEVEL
      ensures Shaped() && LaneOk(nodes, Table(nodes), hs, i)
    {
    }

    /** The list gives the unlinked node up. */
    ghost method Drop(at: nat)
      requires 1 <= at < |nodes| && |nodes| == |hs| && Unlinking(at, hs[at])
      modifies this`nodes, this`hs, this`keys
      ensures nodes == Cut(old(nodes), at) && keys == Cut(old(keys), at) && hs == Cut(old(hs), at)
      ensures Shaped() && LanesOk(nodes, Table(nodes), hs, 0, JK_SKIP_MAX_LEVEL)
    {
      ghost var nodes', hs', keys' := Cut(nodes, at), Cut(hs, at), Cut(keys, at);
      DroppedShape(at, nodes', hs', keys');
      nodes, hs, keys := nodes', hs', keys';
    }

    lemma DroppedShape(at: nat, nodes': seq<Node>, hs': seq<nat>, keys': seq<nat>)
      requires 1 <= at < |nodes| && |nodes| == |hs| && Unlinking(at, hs[at])
      requires nodes' == Cut(nodes, at) && hs' == Cut(hs, at) && keys' == Cut(keys, at)
      ensures ShapedAs(nodes', hs', keys', level) && LanesOk(nodes', Table(nodes'), hs', 0, JK_SKIP_MAX_LEVEL)
    {
      CutIsCut(nodes, at);
      CutIsCut(hs, at);
      CutIsCut(keys, at);
      FullyCut(nodes, Table(nodes), hs, at);
      assert Table(nodes') == Cut(Table(nodes), at);
      CutShaped(at, nodes', hs', keys');
    }

    lemma CutShaped(at: nat, nodes': seq<Node>, hs': seq<nat>, keys': seq<nat>)
      requires Shaped() && 1 <= at < |nodes|
      requires IsCut(nodes, at, nodes') && IsCut(hs, at, hs') && IsCut(keys, at, keys')
      ensures ShapedAs(nodes', hs', keys', level)
    {
    }

    /** The loop that lowers the level past empty lanes. */
    method Shrink()
      requires Shaped() && LanesOk(nodes, Table(nodes), hs, 0, JK_SKIP_MAX_LEVEL)
      modifies this`level
      ensures Shaped() && LanesOk(nodes, Table(nodes), hs, 0, JK_SKIP_MAX_LEVEL)
      ensures level <= old(level) && Tight(hs, level)
    {
      while level > 1 && header.forward[level - 1] == null
        invariant Shaped() && LanesOk(nodes, Table(nodes), hs, 0, JK_SKIP_MAX_LEVEL) && level <= old(level)
        decreases level
      {
        TopLaneEmpty();
        level := level - 1;
      }
      TopLaneUsed();
    }

    /** The level is that of the tallest node when the top lane is in use. */
    lemma TopLaneUsed()
      requires Shaped() && LanesOk(nodes, Table(nodes), hs, 0, JK_SKIP_MAX_LEVEL)
      requires level > 1 ==> header.forward[level - 1] != null
      ensures Tight(hs, level)
    {
      if level > 1 {
        assert LaneOk(nodes, Table(nodes), hs, level - 1);
        NextIs(hs, 0, level - 1);
      }
    }

    lemma TopLaneEmpty()
      requires Shaped() && LanesOk(nodes, Table(nodes), hs, 0, JK_SKIP_MAX_LEVEL)
      requires header.forward[level - 1] == null
      ensures forall p :: 1 <= p < |nodes| ==> hs[p] <= level - 1
    {
      assert LaneOk(nodes, Table(nodes), hs, level - 1);
      NextIs(hs, 0, level - 1);
    }

    /** jk_skip_delete removes the first entry with the key, or nothing when there is none. */
    method Delete(key: nat) returns (ret: int)
      requires Valid()
      modifies this`length, this`level, this`nodes, this`hs, this`keys, this`born, nodes`forward
      ensures Valid()
      ensures var at := FirstNotLess(old(keys), key);
        if at < |old(nodes)| && old(keys)[at] == key then
          && ret == 0 && nodes == Cut(old(nodes), at) && keys == Cut(old(keys), at) && hs == Cut(old(hs), at)
          && |old(born)| == |old(keys)| && born == Cut(old(born), at)
          && level <= old(level) && Tight(hs, level)
        else
          && ret == -1 && nodes == old(nodes) && keys == old(keys) && hs == old(hs)
          && born == old(born) && level == old(level)
    {
      var update := NewUpdate();
      var n, us := SearchNext(key, update);
      if n == null || n.key != key {
        return -1;
      }
      ghost var before := keys;
      TakeOut(n, update, key, us);
      Undate(FirstNotLess(before, key), before);
      return 0;
    }

    /** The search, and the step to the next node on lane 0. */
    method SearchNext(key: nat, update: array<Node?>) returns (n: Node?, ghost us: seq<nat>)
      requires Linked() && update.Length == JK_SKIP_MAX_LEVEL
      modifies update
      ensures Linked() && n == At(nodes, FirstNotLess(keys, key))
      ensures |us| == JK_SKIP_MAX_LEVEL && Searched(update[..], us, key, 0)
    {
      var last;
      last, us := Search(key, update);
      SearchEnds(key, update[..], us);
      n := last.forward[0];
    }

    method TakeOut(n: Node, update: array<Node?>, key: nat, ghost us: seq<nat>)
      requires Linked() && update.Length == JK_SKIP_MAX_LEVEL
      requires |us| == JK_SKIP_MAX_LEVEL && Searched(update[..], us, key, 0)
      requires FirstNotLess(keys, key) < |nodes| && n == nodes[FirstNotLess(keys, key)]
      modifies this`length, this`level, this`nodes, this`hs, this`keys, nodes`forward
      ensures Linked()
      ensures var at := FirstNotLess(old(keys), key);
        nodes == Cut(old(nodes), at) && keys == Cut(old(keys), at) && hs == Cut(old(hs), at)
      ensures level <= old(level) && Tight(hs, level)
    {
      UnlinkAll(n, update, key, us);
      FinishDelete(FirstNotLess(keys, key));
    }

    method FinishDelete(ghost at: nat)
      requires 1 <= at < |nodes| && |nodes| == |hs| && Unlinking(at, hs[at]) && length == |nodes| - 1
      modifies this`length, this`level, this`nodes, this`hs, this`keys
      ensures Linked() && nodes == Cut(old(nodes), at) && keys == Cut(old(keys), at) && hs == Cut(old(hs), at)
      ensures level <= old(level) && Tight(hs, level)
    {
      Drop(at);
      Shrink();
      CountDown();
    }

    method CountDown()
      requires Shaped() && LanesOk(nodes, Table(nodes), hs, 0, JK_SKIP_MAX_LEVEL) && length == |nodes|
      modifies this`length
      ensures Linked()
    {
      length := length - 1;
    }

    lemma SearchEnds(key: nat, update: seq<Node?>, us: seq<nat>)
      requires Linked() && |update| == |us| == JK_SKIP_MAX_LEVEL && Searched(update, us, key, 0)
      ensures us[0] < |nodes| && nodes[us[0]].forward[0] == At(nodes, FirstNotLess(keys, key))
    {
      assert Stop(hs, keys, key, 0, us[0]);
      FirstAfter(key, us[0]);
    }
  }

  /** Of the slots, at most those of lane i differ. */
  ghost predicate OnlyLane(t: seq<seq<Node?>>, t': seq<seq<Node?>>, hs: seq<nat>, i: nat)
    requires Fits(t, hs)
  {
    Fits(t', hs) && forall p, j :: 0 <= p < |hs| && 0 <= j < hs[p] && j != i ==> t'[p][j] == t[p][j]
  }

  lemma OtherLanes(nodes: seq<Node>, t: seq<seq<Node?>>, t': seq<seq<Node?>>, hs: seq<nat>, i: nat, lo: nat, hi: nat)
    requires Fits(t, hs) && OnlyLane(t, t', hs, i) && LanesOk(nodes, t, hs, lo, hi) && !(lo <= i < hi)
    ensures LanesOk(nodes, t', hs, lo, hi)
  {
    forall j | lo <= j < hi
      ensures LaneOk(nodes, t', hs, j)
    {
      assert LaneOk(nodes, t, hs, j);
    }
  }

  /** `n` with the slots `row` is in the lanes below `i` of the new list; the others are as before. */
  ghost predicate HalfLinked(nodes: seq<Node>, t: seq<seq<Node?>>, hs: seq<nat>, n: Node, row: seq<Node?>,
                             at: nat, i: nat)
    requires Fits(t, hs) && at <= |hs| == |nodes|
  {
    && Fits(Put(t, at, row), Put(hs, at, |row|))
    && LanesOk(Put(nodes, at, n), Put(t, at, row), Put(hs, at, |row|), 0, i)
    && LanesOk(nodes, t, hs, i, JK_SKIP_MAX_LEVEL)
  }

  lemma PutFits(t: seq<seq<Node?>>, t': seq<seq<Node?>>, hs: seq<nat>, hs': seq<nat>, row: seq<Node?>, at: nat)
    requires Fits(t, hs) && IsPut(t, at, row, t') && IsPut(hs, at, |row|, hs')
    ensures Fits(t', hs')
  {
    forall p' | 0 <= p' < |hs'|
      ensures |t'[p']| == hs'[p']
    {
      if p' != at {
        var p := Unshift(at, p');
        assert t'[p'] == t[p] && hs'[p'] == hs[p];
      }
    }
  }

  /** The two assignments of one turn put the new node into lane i and leave the other lanes alone. */
  lemma TurnLinks(nodes: seq<Node>, t: seq<seq<Node?>>, hs: seq<nat>, n: Node, row: seq<Node?>, at: nat, i: nat, u: nat)
    requires Fits(t, hs) && at <= |hs| == |nodes| && i < |row| && i < JK_SKIP_MAX_LEVEL && u < |hs|
    requires HalfLinked(nodes, t, hs, n, row, at, i)
    requires hs[u] > i && u < at <= Next(hs, u, i)
    ensures HalfLinked(nodes, t[u := t[u][i := n]], hs, n, row[i := t[u][i]], at, i + 1)
  {
    var t1, row1 := t[u := t[u][i := n]], row[i := t[u][i]];
    PutIsPut(nodes, at, n);
    PutIsPut(hs, at, |row|);
    PutIsPut(t, at, row);
    PutIsPut(t1, at, row1);
    TurnLinksIn(nodes, Put(nodes, at, n), t, Put(t, at, row), t1, Put(t1, at, row1), hs, Put(hs, at, |row|),
                n, row, row1, at, i, u);
  }

  /** The same for any sequences with the node put in. */
  lemma TurnLinksIn(nodes: seq<Node>, nodes': seq<Node>, t: seq<seq<Node?>>, t': seq<seq<Node?>>,
                    t1: seq<seq<Node?>>, t1': seq<seq<Node?>>, hs: seq<nat>, hs': seq<nat>,
                    n: Node, row: seq<Node?>, row1: seq<Node?>, at: nat, i: nat, u: nat)
    requires Fits(t, hs) && |hs| == |nodes| && i < |row| && i < JK_SKIP_MAX_LEVEL && u < |hs| && hs[u] > i
    requires t1 == t[u := t[u][i := n]] && row1 == row[i := t[u][i]] && u < at <= Next(hs, u, i)
    requires IsPut(nodes, at, n, nodes') && IsPut(hs, at, |row|, hs')
    requires IsPut(t, at, row, t') && IsPut(t1, at, row1, t1')
    requires Fits(t', hs') && LanesOk(nodes', t', hs', 0, i) && LanesOk(nodes, t, hs, i, JK_SKIP_MAX_LEVEL)
    ensures Fits(t1', hs') && LanesOk(nodes', t1', hs', 0, i + 1)
    ensures Fits(t1, hs) && LanesOk(nodes, t1, hs, i + 1, JK_SKIP_MAX_LEVEL)
  {
    assert LaneOk(nodes, t, hs, i);
    OtherLanes(nodes, t, t1, hs, i, i + 1, JK_SKIP_MAX_LEVEL);
    PutFits(t1, t1', hs, hs', row1, at);
    PutOnlyLane(t, t', t1, t1', hs, hs', row, row1, at, i);
    OtherLanes(nodes', t', t1', hs', i, 0, i);
    NewLane(nodes, nodes', t, t1', hs, hs', n, |row|, at, i, u);
  }

  lemma PutOnlyLane(t: seq<seq<Node?>>, t': seq<seq<Node?>>, t1: seq<seq<Node?>>, t1': seq<seq<Node?>>,
                    hs: seq<nat>, hs': seq<nat>, row: seq<Node?>, row1: seq<Node?>, at: nat, i: nat)
    requires Fits(t, hs) && OnlyLane(t, t1, hs, i) && |row| == |row1|
    requires forall j :: 0 <= j < |row| && j != i ==> row1[j] == row[j]
    requires IsPut(t, at, row, t') && IsPut(t1, at, row1, t1') && IsPut(hs, at, |row|, hs')
    requires Fits(t', hs') && Fits(t1', hs')
    ensures OnlyLane(t', t1', hs', i)
  {
    forall p, j | 0 <= p < |hs'| && 0 <= j < hs'[p] && j != i
      ensures t1'[p][j] == t'[p][j]
    {
      if p != at {
        var p0 := Unshift(at, p);
        assert t1'[p] == t1[p0] && t'[p] == t[p0] && hs'[p] == hs[p0];
      }
    }
  }

  /** Lane i of the new list, from lane i of the old one. */
  lemma NewLane(nodes: seq<Node>, nodes': seq<Node>, t: seq<seq<Node?>>, t': seq<seq<Node?>>,
                hs: seq<nat>, hs': seq<nat>, n: Node, h: nat, at: nat, i: nat, u: nat)
    requires Fits(t, hs) && |hs| == |nodes| && i < h && u < |hs| && LaneOk(nodes, t, hs, i)
    requires IsPut(nodes, at, n, nodes') && IsPut(hs, at, h, hs') && Fits(t', hs')
    requires hs[u] > i && u < at <= Next(hs, u, i)
    requires t'[at][i] == t[u][i]
    requires forall p :: 0 <= p < |hs| && hs[p] > i ==>
      |t'[Shift(at, p)]| > i && t'[Shift(at, p)][i] == if p == u then n else t[p][i]
    ensures LaneOk(nodes', t', hs', i)
  {
    forall p' | 0 <= p' < |hs'| && hs'[p'] > i
      ensures t'[p'][i] == At(nodes', Next(hs', p', i))
    {
      if p' == at {
        TargetOfNew(nodes, nodes', hs, hs', n, h, at, i, u);
      } else {
        var p := Unshift(at, p');
        assert hs'[p'] == hs[p];
        TargetOfOld(nodes, nodes', hs, hs', n, h, at, i, u, p);
      }
    }
  }

  lemma TargetOfNew(nodes: seq<Node>, nodes': seq<Node>, hs: seq<nat>, hs': seq<nat>, n: Node, h: nat,
                    at: nat, i: nat, u: nat)
    requires |hs| == |nodes| && IsPut(nodes, at, n, nodes') && IsPut(hs, at, h, hs')
    requires u < at && at <= Next(hs, u, i)
    ensures At(nodes', Next(hs', at, i)) == At(nodes, Next(hs, u, i))
  {
    var q := Next(hs, u, i);
    NextOfPut(hs, hs', at, h, u, i);
    if q < |nodes| {
      assert nodes'[Shift(at, q)] == nodes[q];
    }
  }

  lemma TargetOfOld(nodes: seq<Node>, nodes': seq<Node>, hs: seq<nat>, hs': seq<nat>, n: Node, h: nat,
                    at: nat, i: nat, u: nat, p: nat)
    requires |hs| == |nodes| && IsPut(nodes, at, n, nodes') && IsPut(hs, at, h, hs')
    requires u < at && at <= Next(hs, u, i) && p < |hs| && i < h && hs[u] > i && hs[p] > i
    ensures At(nodes', Next(hs', Shift(at, p), i)) == if p == u then n else At(nodes, Next(hs, p, i))
  {
    var q := Next(hs, p, i);
    NextPut(hs, hs', at, h, p, i);
    if q < |nodes| {
      assert nodes'[Shift(at, q)] == nodes[q];
    }
    if p != u && p < at <= q {
      StopUnique(hs, at, i, u, p);
    }
  }

  lemma PutDistinct(nodes: seq<Node>, nodes': seq<Node>, at: nat, n: Node)
    requires DistinctNodes(nodes) && n !in nodes && IsPut(nodes, at, n, nodes')
    ensures DistinctNodes(nodes')
  {
    forall p, q | 0 <= p < q < |nodes'|
      ensures nodes'[p] != nodes'[q]
    {
      assert p != at ==> nodes'[p] == nodes[Unshift(at, p)];
      assert q != at ==> nodes'[q] == nodes[Unshift(at, q)];
    }
  }

  lemma PutSorted(keys: seq<nat>, keys': seq<nat>, key: nat)
    requires |keys| > 0 && SortedKeys(keys) && IsPut(keys, FirstNotLess(keys, key), key, keys')
    ensures SortedKeys(keys')
  {
    var at := FirstNotLess(keys, key);
    forall p, q | 1 <= p < q < |keys'|
      ensures keys'[p] <= keys'[q]
    {
      assert p != at ==> keys'[p] == keys[Unshift(at, p)];
      assert q != at ==> keys'[q] == keys[Unshift(at, q)];
    }
  }

  /** A lane above the new node only sees it pass. */
  lemma PassedLane(nodes: seq<Node>, nodes': seq<Node>, t: seq<seq<Node?>>, t': seq<seq<Node?>>,
                   hs: seq<nat>, hs': seq<nat>, n: Node, row: seq<Node?>, at: nat, j: nat)
    requires Fits(t, hs) && |hs| == |nodes| && |row| <= j && LaneOk(nodes, t, hs, j)
    requires IsPut(nodes, at, n, nodes') && IsPut(hs, at, |row|, hs') && IsPut(t, at, row, t') && Fits(t', hs')
    ensures LaneOk(nodes', t', hs', j)
  {
    forall p' | 0 <= p' < |hs'| && hs'[p'] > j
      ensures t'[p'][j] == At(nodes', Next(hs', p', j))
    {
      var p := Unshift(at, p');
      assert hs'[p'] == hs[p] && t'[p'] == t[p];
      var q := Next(hs, p, j);
      NextPut(hs, hs', at, |row|, p, j);
      if q < |nodes| {
        assert nodes'[Shift(at, q)] == nodes[q];
      }
    }
  }

  lemma TableOfPut(nodes: seq<Node>, n: Node, at: nat)
    requires at <= |nodes|
    ensures Table(Put(nodes, at, n)) == Put(Table(nodes), at, n.forward)
  {
  }

  /** In all its lanes, the new node makes a list with one node more. */
  lemma FullyLinked(nodes: seq<Node>, t: seq<seq<Node?>>, hs: seq<nat>, n: Node, row: seq<Node?>, at: nat)
    requires Fits(t, hs) && at <= |hs| == |nodes| && |row| <= JK_SKIP_MAX_LEVEL
    requires HalfLinked(nodes, t, hs, n, row, at, |row|)
    ensures LanesOk(Put(nodes, at, n), Put(t, at, row), Put(hs, at, |row|), 0, JK_SKIP_MAX_LEVEL)
  {
    PutIsPut(nodes, at, n);
    PutIsPut(hs, at, |row|);
    PutIsPut(t, at, row);
    forall j | |row| <= j < JK_SKIP_MAX_LEVEL
      ensures LaneOk(Put(nodes, at, n), Put(t, at, row), Put(hs, at, |row|), j)
    {
      assert LaneOk(nodes, t, hs, j);
      PassedLane(nodes, Put(nodes, at, n), t, Put(t, at, row), hs, Put(hs, at, |row|), n, row, at, j);
    }
  }

  // ---------- Out of the lanes ----------

  /** The node at `at` is in no lane below `i` of the shorter list; the other lanes are as before. */
  ghost predicate HalfCut(nodes: seq<Node>, t: seq<seq<Node?>>, hs: seq<nat>, at: nat, i: nat)
    requires Fits(t, hs) && at < |hs| == |nodes|
  {
    && Fits(Cut(t, at), Cut(hs, at))
    && LanesOk(Cut(nodes, at), Cut(t, at), Cut(hs, at), 0, i)
    && LanesOk(nodes, t, hs, i, JK_SKIP_MAX_LEVEL)
  }

  lemma CutFits(t: seq<seq<Node?>>, t': seq<seq<Node?>>, hs: seq<nat>, hs': seq<nat>, at: nat)
    requires Fits(t, hs) && IsCut(t, at, t') && IsCut(hs, at, hs')
    ensures Fits(t', hs')
  {
  }

  lemma TurnUnlinks(nodes: seq<Node>, t: seq<seq<Node?>>, hs: seq<nat>, at: nat, i: nat, u: nat)
    requires Fits(t, hs) && 0 < at < |hs| == |nodes| && i < hs[at] && i < JK_SKIP_MAX_LEVEL
    requires HalfCut(nodes, t, hs, at, i)
    requires u < at == Next(hs, u, i) && hs[u] > i
    ensures HalfCut(nodes, t[u := t[u][i := t[at][i]]], hs, at, i + 1)
  {
    var t1 := t[u := t[u][i := t[at][i]]];
    var nodes', hs', t', t1' := Cut(nodes, at), Cut(hs, at), Cut(t, at), Cut(t1, at);
    assert LaneOk(nodes, t, hs, i);
    OtherLanes(nodes, t, t1, hs, i, i + 1, JK_SKIP_MAX_LEVEL);
    CutIsCut(nodes, at);
    CutIsCut(hs, at);
    CutIsCut(t, at);
    CutIsCut(t1, at);
    CutFits(t1, t1', hs, hs', at);
    assert OnlyLane(t', t1', hs', i);
    OtherLanes(nodes', t', t1', hs', i, 0, i);
    ShorterLane(nodes, nodes', t, t1, t1', hs, hs', at, i, u);
  }

  /** Lane i of the shorter list, from lane i of the old one. */
  lemma ShorterLane(nodes: seq<Node>, nodes': seq<Node>, t: seq<seq<Node?>>, t1: seq<seq<Node?>>, t1': seq<seq<Node?>>,
                    hs: seq<nat>, hs': seq<nat>, at: nat, i: nat, u: nat)
    requires Fits(t, hs) && |hs| == |nodes| && 0 < at < |hs| && LaneOk(nodes, t, hs, i) && hs[at] > i
    requires IsCut(nodes, at, nodes') && IsCut(hs, at, hs') && Fits(t1', hs') && IsCut(t1, at, t1')
    requires u < at == Next(hs, u, i) && hs[u] > i && t1 == t[u := t[u][i := t[at][i]]]
    ensures LaneOk(nodes', t1', hs', i)
  {
    forall p' | 0 <= p' < |hs'| && hs'[p'] > i
      ensures t1'[p'][i] == At(nodes', Next(hs', p', i))
    {
      var p := Shift(at, p');
      NextCut(hs, hs', at, p', i);
      AtCut(nodes, nodes', at, Next(hs', p', i));
      if p != u && Next(hs, p, i) == at {
        StopUnique(hs, at, i, u, p);
      }
    }
  }

  lemma AtCut(nodes: seq<Node>, nodes': seq<Node>, at: nat, q: nat)
    requires IsCut(nodes, at, nodes') && q <= |nodes'|
    ensures At(nodes', q) == At(nodes, Shift(at, q))
  {
  }

  /** A lane above the node only loses a place it did not use. */
  lemma SkippedLane(nodes: seq<Node>, nodes': seq<Node>, t: seq<seq<Node?>>, t': seq<seq<Node?>>,
                    hs: seq<nat>, hs': seq<nat>, at: nat, j: nat)
    requires Fits(t, hs) && |hs| == |nodes| && 0 < at < |hs| && LaneOk(nodes, t, hs, j) && hs[at] <= j
    requires IsCut(nodes, at, nodes') && IsCut(hs, at, hs') && IsCut(t, at, t') && Fits(t', hs')
    ensures LaneOk(nodes', t', hs', j)
  {
    forall p' | 0 <= p' < |hs'| && hs'[p'] > j
      ensures t'[p'][j] == At(nodes', Next(hs', p', j))
    {
      NextIs(hs, Shift(at, p'), j);
      NextCut(hs, hs', at, p', j);
      AtCut(nodes, nodes', at, Next(hs', p', j));
    }
  }

  /** Out of all its lanes, the node leaves a list with one node less. */
  lemma FullyCut(nodes: seq<Node>, t: seq<seq<Node?>>, hs: seq<nat>, at: nat)
    requires Fits(t, hs) && 0 < at < |hs| == |nodes| && HalfCut(nodes, t, hs, at, hs[at])
    ensures LanesOk(Cut(nodes, at), Cut(t, at), Cut(hs, at), 0, JK_SKIP_MAX_LEVEL)
  {
    CutIsCut(nodes, at);
    CutIsCut(hs, at);
    CutIsCut(t, at);
    forall j | hs[at] <= j < JK_SKIP_MAX_LEVEL
      ensures LaneOk(Cut(nodes, at), Cut(t, at), Cut(hs, at), j)
    {
      assert LaneOk(nodes, t, hs, j);
      SkippedLane(nodes, Cut(nodes, at), t, Cut(t, at), hs, Cut(hs, at), at, j);
    }
  }

  /** A jk_int64_t compared with a jk_uint64_t is converted to it. */
  function Unsigned(key: int): (k: nat)
    requires -0x8000_0000_0000_0000 <= key < 0x8000_0000_0000_0000
  {
    if key < 0 then key + TWO64 else key
  }
}
