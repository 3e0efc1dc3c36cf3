/** The doubly linked list: a heap structure that stands for a sequence of nodes. */
module DList {

  datatype Direction = FromHead | FromTail

  datatype Match<!V> = ByIdentity | ByFunction(f: (V, V) -> bool)

  class Node<V> {
    var prev: Node?<V>
    var next: Node?<V>
    var val: V

    /** `list_node_new`. */
    constructor (val: V)
      ensures prev == null && next == null && this.val == val
    {
      prev, next := null, null;
      this.val := val;
    }
  }

  /** The nodes hang together in both directions and end on both sides. */
  ghost predicate Chained<V>(nodes: seq<Node<V>>)
    reads nodes
  {
    && (forall i, j :: 0 <= i < j < |nodes| ==> nodes[i] != nodes[j])
    && (forall i {:trigger nodes[i].next} :: 0 <= i < |nodes| ==> nodes[i].next == if i + 1 < |nodes| then nodes[i + 1] else null)
    && (forall i {:trigger nodes[i].prev} :: 0 <= i < |nodes| ==> nodes[i].prev == if i > 0 then nodes[i - 1] else null)
  }

  /** The links around the node at place `i` lead past it. */
  lemma Unlinked<V>(w: seq<Node<V>>, i: nat, v: seq<Node<V>>)
    requires i < |w| && v == w[..i] + w[i + 1..]
    requires forall j, k :: 0 <= j < k < |w| ==> w[j] != w[k]
    requires forall k {:trigger w[k].next} :: 0 <= k < |w| && k != i ==>
               w[k].next == var l := if k == i - 1 then k + 2 else k + 1; if l < |w| then w[l] else null
    requires forall k {:trigger w[k].prev} :: 0 <= k < |w| && k != i ==>
               w[k].prev == var l := if k == i + 1 then k - 2 else k - 1; if l >= 0 then w[l] else null
    ensures Chained(v)
    ensures v != [] ==> v[0] == w[if i == 0 then 1 else 0] && v[|v| - 1] == w[if i == |w| - 1 then i - 1 else |w| - 1]
  {
    assert forall k :: 0 <= k < |v| ==> v[k] == w[if k < i then k else k + 1];
    forall k | 0 <= k < |v|
      ensures v[k].next == if k + 1 < |v| then v[k + 1] else null
      ensures v[k].prev == if k > 0 then v[k - 1] else null
    {
      var m := if k < i then k else k + 1;
      assert v[k] == w[m];
    }
  }

  const MAX_LEN: nat := 0xFFFF_FFFF

  class List<V(==)> {
    var head: Node?<V>
    var tail: Node?<V>
    var len: nat
    var match': Match<V>

    /** What the list stands for. */
    ghost var nodes: seq<Node<V>>

    ghost predicate Valid()
      reads this, nodes
    {
      && Chained(nodes)
      && len == |nodes| <= MAX_LEN
      && head == (if nodes == [] then null else nodes[0])
      && tail == (if nodes == [] then null else nodes[|nodes| - 1])
    }

    /** `list_new`. */
    constructor ()
      ensures Valid() && nodes == [] && match' == ByIdentity
    {
      head, tail, len := null, null, 0;
      match' := ByIdentity;
      nodes := [];
    }

    /** `list_rpush`: a node that is in no list goes behind the last one. */
    method RPush(node: Node?<V>) returns (r: Node?<V>)
      requires Valid() && node !in nodes && len < MAX_LEN
      modifies this`head, this`tail, this`len, this`nodes, node, nodes
      ensures Valid() && r == node
      ensures nodes == if node == null then old(nodes) else old(nodes) + [node]
      ensures forall n :: n in nodes ==> n.val == old(n.val)
    {
      if node == null { return null; }
      if len != 0 {
        node.prev := tail;
        node.next := null;
        tail.next := node;
        tail := node;
      } else {
        head, tail := node, node;
        node.prev, node.next := null, null;
      }
      len := len + 1;
      nodes := nodes + [node];
      r := node;
    }

    /** `list_lpush`. */
    method LPush(node: Node?<V>) returns (r: Node?<V>)
      requires Valid() && node !in nodes && len < MAX_LEN
      modifies this`head, this`tail, this`len, this`nodes, node, nodes
      ensures Valid() && r == node
      ensures nodes == if node == null then old(nodes) else [node] + old(nodes)
      ensures forall n :: n in nodes ==> n.val == old(n.val)
    {
      if node == null { return null; }
      if len != 0 {
        node.next := head;
        node.prev := null;
        head.prev := node;
        head := node;
      } else {
        head, tail := node, node;
        node.prev, node.next := null, null;
      }
      len := len + 1;
      nodes := [node] + nodes;
      r := node;
    }

    /** `list_rpop`. */
    method RPop() returns (r: Node?<V>)
      requires Valid()
      modifies this`head, this`tail, this`len, this`nodes, nodes
      ensures Valid()
      ensures if old(nodes) == [] then r == null && nodes == []
              else r == old(nodes[|nodes| - 1]) && nodes == old(nodes[..|nodes| - 1]) && r.prev == null && r.next == null
      ensures forall n :: n in old(nodes) ==> n.val == old(n.val)
    {
      if len == 0 { return null; }
      var node := tail;
      len := len - 1;
      if len != 0 {
        tail := node.prev;
        tail.next := null;
      } else {
        tail, head := null, null;
      }
      node.next, node.prev := null, null;
      nodes := nodes[..|nodes| - 1];
      r := node;
    }

    /** `list_lpop`. */
    method LPop() returns (r: Node?<V>)
      requires Valid()
      modifies this`head, this`tail, this`len, this`nodes, nodes
      ensures Valid()
      ensures if old(nodes) == [] then r == null && nodes == []
              else r == old(nodes[0]) && nodes == old(nodes[1..]) && r.prev == null && r.next == null
      ensures forall n :: n in old(nodes) ==> n.val == old(n.val)
    {
      if len == 0 { return null; }
      var node := head;
      len := len - 1;
      if len != 0 {
        head := node.next;
        head.prev := null;
      } else {
        head, tail := null, null;
      }
      node.next, node.prev := null, null;
      nodes := nodes[1..];
      r := node;
    }

    /** The first line of `list_remove`: the link from the left, or the head, leads past
        the node. */
    method LinkPast(node: Node<V>, ghost i: nat)
      requires Valid() && i < |nodes| && node == nodes[i]
      modifies this`head, nodes`next
      ensures head == if i == 0 then node.next else old(head)
      ensures forall k {:trigger nodes[k].next} :: 0 <= k < |nodes| ==>
                nodes[k].next == var l := if k == i - 1 then k + 2 else k + 1; if l < |nodes| then nodes[l] else null
    {
      if node.prev != null { node.prev.next := node.next; } else { head := node.next; }
    }

    /** The second line: the link from the right, or the tail. */
    method LinkBack(node: Node<V>, ghost i: nat)
      requires i < |nodes| && node == nodes[i] && forall j, k :: 0 <= j < k < |nodes| ==> nodes[j] != nodes[k]
      requires node.next == if i + 1 < |nodes| then nodes[i + 1] else null
      requires forall k {:trigger nodes[k].prev} :: 0 <= k < |nodes| ==> nodes[k].prev == if k > 0 then nodes[k - 1] else null
      modifies this`tail, nodes`prev
      ensures tail == if i == |nodes| - 1 then node.prev else old(tail)
      ensures forall k {:trigger nodes[k].prev} :: 0 <= k < |nodes| ==>
                nodes[k].prev == var l := if k == i + 1 then k - 2 else k - 1; if l >= 0 then nodes[l] else null
    {
      if node.next != null { node.next.prev := node.prev; } else { tail := node.prev; }
    }

    /** `list_remove`: unlinks a node of the list and releases it. */
    method Remove(node: Node<V>, ghost i: nat)
      requires Valid() && i < |nodes| && node == nodes[i]
      modifies this`head, this`tail, this`len, this`nodes, nodes
      ensures Valid() && nodes == old(nodes[..i] + nodes[i + 1..])
      ensures forall n :: n in old(nodes) ==> n.val == old(n.val)
    {
      ghost var v := nodes[..i] + nodes[i + 1..];
      LinkPast(node, i);
      LinkBack(node, i);
      Unlinked(nodes, i, v);
      hide Chained;
      if len != 0 { len := len - 1; }
      nodes := v;
    }

    /** `list_find`: the first node from the head whose value matches, if any. */
    method Find(val: V) returns (r: Node?<V>)
      requires Valid()
      ensures if r == null then forall i :: 0 <= i < |nodes| ==> !Matches(match', val, nodes[i].val)
              else exists k :: 0 <= k < |nodes| && r == nodes[k] && Matches(match', val, r.val)
                               && forall i :: 0 <= i < k ==> !Matches(match', val, nodes[i].val)
    {
      var it := NewIterator(this, FromHead);
      ghost var i: nat := 0;
      var node := it.Next(nodes, i);
      while node != null
        invariant i <= |nodes| && fresh(it) && node == (if i < |nodes| then nodes[i] else null)
        invariant i < |nodes| ==> it.On(nodes, i + 1)
        invariant forall j :: 0 <= j < i ==> !Matches(match', val, nodes[j].val)
        decreases |nodes| - i
      {
        if Matches(match', val, node.val) { return node; }
        i := i + 1;
        node := it.Next(nodes, i);
      }
      return null;
    }

    /** `list_at`: index `i` counts from the head, index `~i` from the tail. */
    method At(index: int) returns (r: Node?<V>)
      requires Valid() && -0x8000_0000 <= index < 0x8000_0000
      ensures r == if 0 <= index < |nodes| then nodes[index]
                   else if index < 0 && -index <= |nodes| then nodes[|nodes| + index]
                   else null
    {
      var direction, k := FromHead, index;
      if index < 0 { direction, k := FromTail, -index - 1; }
      if k >= len { return null; }
      var it := NewIterator(this, direction);
      ghost var i: nat := 0;
      r := it.Next(nodes, i);
      while k > 0
        invariant 0 <= k && i + k < |nodes| && i + k == (if index < 0 then -index - 1 else index)
        invariant fresh(it) && it.direction == direction && r == nodes[Place(|nodes|, direction, i)] && it.On(nodes, i + 1)
      {
        k := k - 1;
        i := i + 1;
        r := it.Next(nodes, i);
      }
    }
  }

  function Matches<V(==)>(m: Match<V>, a: V, b: V): bool {
    match m
    case ByIdentity => a == b
    case ByFunction(f) => f(a, b)
  }

  /** The list's function gets the value sought first; without one, values are compared. */
  lemma MatchOrder<V>(f: (V, V) -> bool, sought: V, held: V)
    ensures Matches(ByFunction(f), sought, held) == f(sought, held)
    ensures Matches(ByIdentity, sought, held) <==> sought == held
  {}

  /** Where the `i`-th node of a walk stands among `n` nodes. */
  function Place(n: nat, direction: Direction, i: nat): (k: nat)
    requires i < n
    ensures k < n
  {
    if direction == FromHead then i else n - 1 - i
  }

  class Iterator<V(==)> {
    var next: Node?<V>
    const direction: Direction

    /** The next node to hand out is the `i`-th of the walk. */
    ghost predicate On(nodes: seq<Node<V>>, i: nat)
      reads this
    {
      i <= |nodes| && next == if i < |nodes| then nodes[Place(|nodes|, direction, i)] else null
    }

    /** `list_iterator_new_from_node`. */
    constructor FromNode(node: Node?<V>, direction: Direction)
      ensures this.direction == direction && next == node
    {
      this.direction := direction;
      next := node;
    }

    /** `list_iterator_next`. */
    method Next(ghost nodes: seq<Node<V>>, ghost i: nat) returns (curr: Node?<V>)
      requires Chained(nodes) && On(nodes, i)
      modifies this`next
      ensures curr == if i < |nodes| then nodes[Place(|nodes|, direction, i)] else null
      ensures On(nodes, if i < |nodes| then i + 1 else i)
    {
      curr := next;
      if curr != null {
        assert curr == nodes[Place(|nodes|, direction, i)];
        next := if direction == FromHead then curr.next else curr.prev;
      }
    }
  }

  /** `list_iterator_new`: a walk that starts at the node its direction begins with. */
  method NewIterator<V(==)>(list: List<V>, direction: Direction) returns (it: Iterator<V>)
    requires list.Valid()
    ensures fresh(it) && it.direction == direction && it.On(list.nodes, 0)
  {
    var node := if direction == FromHead then list.head else list.tail;
    it := new Iterator.FromNode(node, direction);
  }

  // --------------------------------------------------------- walks and removal

  function Without<T>(s: seq<T>, k: nat): seq<T>
    requires k < |s|
  {
    s[..k] + s[k + 1..]
  }

  /** Where the rest of a walk stands once its last node is gone: one place earlier
      than before, whichever the direction. */
  lemma PlaceAfterRemoval<T>(s: seq<T>, direction: Direction, i: nat, j: nat)
    requires 0 < i <= j < |s|
    ensures var k := Place(|s|, direction, i - 1);
            Without(s, k)[Place(|s| - 1, direction, j - 1)] == s[Place(|s|, direction, j)]
  {}

  /** The nodes of a walk in the order it visits them. */
  function Walk<T>(s: seq<T>, direction: Direction): (w: seq<T>)
    ensures |w| == |s| && forall i :: 0 <= i < |s| ==> w[i] == s[Place(|s|, direction, i)]
  {
    seq(|s|, i requires 0 <= i < |s| => s[Place(|s|, direction, i)])
  }

  /** The node reached from `n` by following `next` (or `prev`) `k` times, null once the
      chain has ended. */
  ghost function Follow<V>(nodes: seq<Node<V>>, n: Node?<V>, direction: Direction, k: nat): Node?<V>
    requires Chained(nodes) && (n == null || n in nodes)
    reads nodes
    decreases k
  {
    if n == null || k == 0 then n
    else
      NeighboursInside(nodes, n);
      Follow(nodes, if direction == FromHead then n.next else n.prev, direction, k - 1)
  }

  lemma NeighboursInside<V>(nodes: seq<Node<V>>, n: Node<V>)
    requires Chained(nodes) && n in nodes
    ensures (n.next == null || n.next in nodes) && (n.prev == null || n.prev in nodes)
  {
    var i :| 0 <= i < |nodes| && nodes[i] == n;
    assert nodes[i].next == n.next && nodes[i].prev == n.prev;
  }

  /** From the `i`-th node of a walk, `k` links lead to the `i + k`-th. */
  lemma {:induction false} FollowFrom<V>(nodes: seq<Node<V>>, direction: Direction, i: nat, k: nat)
    requires Chained(nodes) && i < |nodes|
    ensures Follow(nodes, nodes[Place(|nodes|, direction, i)], direction, k)
            == if i + k < |nodes| then nodes[Place(|nodes|, direction, i + k)] else null
    decreases k
  {
    var n := nodes[Place(|nodes|, direction, i)];
    if k > 0 {
      NeighboursInside(nodes, n);
      var m := if direction == FromHead then n.next else n.prev;
      if i + 1 < |nodes| {
        assert m == nodes[Place(|nodes|, direction, i + 1)];
        FollowFrom(nodes, direction, i + 1, k - 1);
      } else {
        assert m == null;
      }
    }
  }

  /** In a valid list the `prev` links from the tail lead through the very nodes the
      `next` links from the head do, in reverse; both chains end after `len` nodes. */
  lemma WalksMirror<V>(list: List<V>, i: nat)
    requires list.Valid() && i <= |list.nodes|
    ensures list.head == null || list.head in list.nodes
    ensures list.tail == null || list.tail in list.nodes
    ensures i < list.len ==>
              Follow(list.nodes, list.head, FromHead, i) == list.nodes[i] == Follow(list.nodes, list.tail, FromTail, list.len - 1 - i)
    ensures i == list.len ==>
              Follow(list.nodes, list.head, FromHead, i) == null == Follow(list.nodes, list.tail, FromTail, i)
  {
    var n := |list.nodes|;
    if n > 0 {
      FollowFrom(list.nodes, FromHead, 0, i);
      FollowFrom(list.nodes, FromTail, 0, if i < n then n - 1 - i else i);
    }
  }

  /** What a sweep keeps, in list order. */
  function Kept<T>(s: seq<T>, drop: T -> bool): seq<T> {
    if s == [] then [] else Kept(s[..|s| - 1], drop) + if drop(s[|s| - 1]) then [] else [s[|s| - 1]]
  }

  /** Exactly the nodes not to be dropped, none of them twice if none was. */
  lemma {:induction false} KeptExact<T>(s: seq<T>, drop: T -> bool)
    ensures forall x :: x in Kept(s, drop) <==> x in s && !drop(x)
    ensures (forall i, j :: 0 <= i < j < |s| ==> s[i] != s[j]) ==> forall i, j :: 0 <= i < j < |Kept(s, drop)| ==> Kept(s, drop)[i] != Kept(s, drop)[j]
  {
    if s != [] {
      var n := |s| - 1;
      KeptExact(s[..n], drop);
      assert s == s[..n] + [s[n]];
      assert forall x :: x in s[..n] ==> exists i :: 0 <= i < n && s[i] == x;
    }
  }

  lemma {:induction false} KeptAppend<T>(a: seq<T>, b: seq<T>, drop: T -> bool)
    ensures Kept(a + b, drop) == Kept(a, drop) + Kept(b, drop)
  {
    if b == [] {
      assert a + b == a;
    } else {
      var n := |b| - 1;
      assert (a + b)[..|a + b| - 1] == a + b[..n];
      KeptAppend(a, b[..n], drop);
    }
  }

  /** A list in the middle of a sweep over `all`: `i` nodes have been visited and
      those to be dropped are gone. */
  ghost predicate Swept<T>(all: seq<T>, direction: Direction, drop: T -> bool, i: nat, now: seq<T>) {
    i <= |all| && now == if direction == FromHead then Kept(all[..i], drop) + all[i..] else all[..|all| - i] + Kept(all[|all| - i..], drop)
  }

  /** Removing the node an iterator has just handed out leaves the iterator on the
      node it would have handed out next. */
  method RemoveVisited<V(==)>(list: List<V>, it: Iterator<V>, node: Node<V>, ghost k: nat)
    requires list.Valid() && k < |list.nodes| && node == list.nodes[Place(|list.nodes|, it.direction, k)] && it.On(list.nodes, k + 1)
    modifies list, list.nodes
    ensures list.Valid() && list.nodes == Without(old(list.nodes), Place(|old(list.nodes)|, it.direction, k))
    ensures it.On(list.nodes, k)
  {
    ghost var now := list.nodes;
    assert it.next == if k + 1 < |now| then now[Place(|now|, it.direction, k + 1)] else null;
    ghost var next := it.next;
    list.Remove(node, Place(|now|, it.direction, k));
    if k + 1 < |now| { PlaceAfterRemoval(now, it.direction, k + 1, k + 1); }
  }

  /** Visits every node, removing the dropped ones while the walk goes on: each node
      is visited exactly once, and exactly the others remain. */
  method Sweep<V(==)>(list: List<V>, direction: Direction, drop: Node<V> -> bool) returns (visited: seq<Node<V>>)
    requires list.Valid()
    modifies list, list.nodes
    ensures list.Valid()
    ensures visited == Walk(old(list.nodes), direction)
    ensures list.nodes == Kept(old(list.nodes), drop)
  {
    hide Kept, Chained, Without, Walk, Progress;
    ghost var all := list.nodes;
    var it := NewIterator(list, direction);
    visited := [];
    ghost var k: nat := 0;
    ProgressStart(all, direction, drop);
    var node := it.Next(list.nodes, k);
    while node != null
      invariant list.Valid() && fresh(it) && it.direction == direction
      invariant Progress(all, direction, drop, visited, list.nodes, k)
      invariant forall n :: n in list.nodes ==> n in all
      invariant if node == null then k >= |list.nodes|
                else k < |list.nodes| && node == list.nodes[Place(|list.nodes|, direction, k)] && it.On(list.nodes, k + 1)
      decreases |all| - |visited|
    {
      var curr: Node<V> := node;
      ghost var now := list.nodes;
      ProgressStep(all, direction, drop, visited, now, k);
      visited := visited + [curr];
      if drop(curr) {
        assert forall i :: 0 <= i < |list.nodes| ==> list.nodes[i] in all;
        RemoveVisited(list, it, curr, k);
      } else {
        k := k + 1;
      }
      ProgressWithin(all, direction, drop, visited, list.nodes, k);
      node := it.Next(list.nodes, k);
    }
    ProgressEnd(all, direction, drop, visited, list.nodes, k);
  }

  /** A sweep under way: visited nodes, what is in the list now, and how many of the
      visited are still there. */
  ghost predicate Progress<V>(all: seq<Node<V>>, direction: Direction, drop: Node<V> -> bool, visited: seq<Node<V>>, now: seq<Node<V>>, k: nat) {
    && (forall n :: n in now ==> n in all)
    && |visited| <= |all| && visited == Walk(all, direction)[..|visited|]
    && Swept(all, direction, drop, |visited|, now)
    && k <= |now| && |now| - k == |all| - |visited|
  }

  lemma ProgressStart<V>(all: seq<Node<V>>, direction: Direction, drop: Node<V> -> bool)
    ensures Progress(all, direction, drop, [], all, 0)
  {
    SweepStart(all, direction, drop);
  }

  lemma ProgressWithin<V>(all: seq<Node<V>>, direction: Direction, drop: Node<V> -> bool, visited: seq<Node<V>>, now: seq<Node<V>>, k: nat)
    requires Progress(all, direction, drop, visited, now, k)
    ensures (forall n :: n in now ==> n in all) && |visited| <= |all| && k <= |now| && (k < |now| <==> |visited| < |all|)
  {}

  lemma ProgressStep<V>(all: seq<Node<V>>, direction: Direction, drop: Node<V> -> bool, visited: seq<Node<V>>, now: seq<Node<V>>, k: nat)
    requires Progress(all, direction, drop, visited, now, k) && k < |now|
    ensures var p := Place(|now|, direction, k);
            var x := now[p];
            |visited| < |all| && Progress(all, direction, drop, visited + [x], if drop(x) then Without(now, p) else now, if drop(x) then k else k + 1)
  {
    hide Swept, Kept, Walk, Without, Place;
    var p := Place(|now|, direction, k);
    SweepNode(all, direction, drop, |visited|, now, k);
    StillWithin(now, all, p);
    WalkNext(all, direction, |visited|);
  }

  lemma WalkNext<V>(all: seq<Node<V>>, direction: Direction, i: nat)
    requires i < |all|
    ensures Walk(all, direction)[..i + 1] == Walk(all, direction)[..i] + [all[Place(|all|, direction, i)]]
  {
    hide Walk;
  }

  lemma StillWithin<V>(now: seq<Node<V>>, all: seq<Node<V>>, p: nat)
    requires p < |now| && forall n :: n in now ==> n in all
    ensures |Without(now, p)| == |now| - 1 && forall n :: n in Without(now, p) ==> n in all
  {}

  lemma ProgressEnd<V>(all: seq<Node<V>>, direction: Direction, drop: Node<V> -> bool, visited: seq<Node<V>>, now: seq<Node<V>>, k: nat)
    requires Progress(all, direction, drop, visited, now, k) && k >= |now|
    ensures visited == Walk(all, direction) && now == Kept(all, drop)
  {
    hide Kept;
    SweepEnd(all, direction, drop, now);
    assert Walk(all, direction)[..|all|] == Walk(all, direction);
  }

  lemma SweepStart<T>(all: seq<T>, direction: Direction, drop: T -> bool)
    ensures Swept(all, direction, drop, 0, all)
  {
    assert all[..0] == [] && all[|all|..] == [] && all[..|all|] == all;
  }

  lemma SweepEnd<T>(all: seq<T>, direction: Direction, drop: T -> bool, now: seq<T>)
    requires Swept(all, direction, drop, |all|, now)
    ensures now == Kept(all, drop)
  {
    hide Kept;
    if direction == FromHead {
      assert all[..|all|] == all && all[|all|..] == [];
    } else {
      assert all[|all| - |all|..] == all && all[..|all| - |all|] == [];
    }
  }

  /** The node at hand is the next of the original walk; with or without it, the
      sweep goes on. */
  lemma SweepNode<T>(all: seq<T>, direction: Direction, drop: T -> bool, i: nat, now: seq<T>, k: nat)
    requires Swept(all, direction, drop, i, now) && i < |all| && k < |now| && |now| - k == |all| - i
    ensures var x := now[Place(|now|, direction, k)];
            x == all[Place(|all|, direction, i)]
            && Swept(all, direction, drop, i + 1, if drop(x) then Without(now, Place(|now|, direction, k)) else now)
  {
    if direction == FromHead {
      SweepForward(all, drop, i, Kept(all[..i], drop));
    } else {
      SweepBackward(all, drop, |all| - i - 1, Kept(all[|all| - i..], drop));
    }
  }

  lemma SweepForward<T>(all: seq<T>, drop: T -> bool, i: nat, a: seq<T>)
    requires i < |all| && a == Kept(all[..i], drop)
    ensures (a + all[i..])[|a|] == all[i]
    ensures Kept(all[..i + 1], drop) + all[i + 1..] == if drop(all[i]) then Without(a + all[i..], |a|) else a + all[i..]
  {
    assert all[..i + 1] == all[..i] + [all[i]];
    KeptAppend(all[..i], [all[i]], drop);
    KeptOne(all[i], drop);
    hide Kept;
    assert all[i..] == [all[i]] + all[i + 1..];
    DropMiddle(a, all[i], all[i + 1..]);
  }

  lemma SweepBackward<T>(all: seq<T>, drop: T -> bool, j: nat, b: seq<T>)
    requires j < |all| && b == Kept(all[j + 1..], drop)
    ensures (all[..j + 1] + b)[j] == all[j]
    ensures all[..j] + Kept(all[j..], drop) == if drop(all[j]) then Without(all[..j + 1] + b, j) else all[..j + 1] + b
  {
    assert all[j..] == [all[j]] + all[j + 1..];
    KeptAppend([all[j]], all[j + 1..], drop);
    KeptOne(all[j], drop);
    hide Kept;
    assert all[..j + 1] == all[..j] + [all[j]];
    DropMiddle(all[..j], all[j], b);
  }

  lemma DropMiddle<T>(a: seq<T>, x: T, b: seq<T>)
    ensures var s := a + ([x] + b);
            s == (a + [x]) + b && s[|a|] == x && Without(s, |a|) == a + b
  {}

  lemma KeptOne<T>(x: T, drop: T -> bool)
    ensures Kept([x], drop) == if drop(x) then [] else [x]
  {
    assert [x][..0] == [];
    assert Kept([], drop) == [];
  }
}
