/** A doubly linked list of payloads, with iterators that run one element ahead. Freed nodes are remembered, and a
    pointer is only ever followed to a node that is not among them. */
module PayloadList {
  import opened Options

  class Node<T> {
    const payload: T
    var prev: Node?<T>
    var next: Node?<T>

    constructor (payload: T)
      ensures this.payload == payload && prev == null && next == null
    {
      this.payload, prev, next := payload, null, null;
    }
  }

  /** Following a pointer to a node: not allowed once the node has been freed. */
  function Next<T>(n: Node<T>, ghost freed: set<Node<T>>): Node?<T>
    requires n !in freed
    reads n
  {
    n.next
  }

  function Prev<T>(n: Node<T>, ghost freed: set<Node<T>>): Node?<T>
    requires n !in freed
    reads n
  {
    n.prev
  }

  function Payload<T>(n: Node<T>, ghost freed: set<Node<T>>): T
    requires n !in freed
  {
    n.payload
  }

  ghost function NodeSet<T>(nodes: seq<Node<T>>): (s: set<Node<T>>)
    ensures (forall n :: n in nodes ==> n in s) && (forall n :: n in s ==> n in nodes)
  {
    set n | n in nodes
  }

  function NodeAt<T>(nodes: seq<Node<T>>, i: int): (n: Node?<T>)
    ensures n != null ==> n in nodes
  {
    if 0 <= i < |nodes| then nodes[i] else null
  }

  function Payloads<T>(nodes: seq<Node<T>>): (p: seq<T>)
    ensures |p| == |nodes|
    ensures forall i :: 0 <= i < |nodes| ==> p[i] == nodes[i].payload
  {
    seq(|nodes|, i requires 0 <= i < |nodes| => nodes[i].payload)
  }

  ghost predicate Distinct<T>(nodes: seq<Node<T>>) {
    forall i, j :: 0 <= i < j < |nodes| ==> nodes[i] != nodes[j]
  }

  /** Two neighbours point at each other; an end points to nothing. */
  ghost predicate Joined<T>(a: Node?<T>, b: Node?<T>)
    reads if a != null then {a} else {}, if b != null then {b} else {}
  {
    (a != null ==> a.next == b) && (b != null ==> b.prev == a)
  }

  ghost predicate EdgeAt<T>(nodes: seq<Node<T>>, i: int)
    reads nodes
  {
    Joined(NodeAt(nodes, i - 1), NodeAt(nodes, i))
  }

  ghost predicate Linked<T>(nodes: seq<Node<T>>)
    reads nodes
  {
    forall i :: 0 <= i <= |nodes| ==> EdgeAt(nodes, i)
  }

  function Without<T>(s: seq<T>, k: nat): seq<T>
    requires k < |s|
  {
    s[..k] + s[k + 1..]
  }

  lemma WithoutAt<T>(nodes: seq<Node<T>>, k: nat, i: int)
    requires k < |nodes|
    ensures NodeAt(Without(nodes, k), i) == NodeAt(nodes, if i < k then i else i + 1)
  {
  }

  lemma AtDistinct<T>(nodes: seq<Node<T>>, i: int, j: int)
    requires Distinct(nodes)
    ensures i != j ==> NodeAt(nodes, i) != NodeAt(nodes, j) || NodeAt(nodes, i) == null
  {
  }

  ghost predicate NextIs<T>(nodes: seq<Node<T>>, i: int)
    reads nodes
  {
    0 <= i < |nodes| ==> nodes[i].next == NodeAt(nodes, i + 1)
  }

  ghost predicate PrevIs<T>(nodes: seq<Node<T>>, i: int)
    reads nodes
  {
    0 <= i < |nodes| ==> nodes[i].prev == NodeAt(nodes, i - 1)
  }

  /** With its neighbours joined, the chain without a node is linked. */
  lemma Rejoined<T>(nodes: seq<Node<T>>, k: nat)
    requires k < |nodes| && Joined(NodeAt(nodes, k - 1), NodeAt(nodes, k + 1))
    requires forall i :: i != k - 1 && i != k ==> NextIs(nodes, i)
    requires forall i :: i != k && i != k + 1 ==> PrevIs(nodes, i)
    ensures Linked(Without(nodes, k))
  {
    forall i | 0 <= i < |nodes| ensures EdgeAt(Without(nodes, k), i) {
      WithoutAt(nodes, k, i - 1);
      WithoutAt(nodes, k, i);
      hide Without;
      var j := if i < k then i else i + 1;
      if i != k {
        assert NextIs(nodes, j - 1) && PrevIs(nodes, j);
      }
    }
  }

  /** Joins two neighbours over a gap. */
  method Splice<T>(prev: Node?<T>, next: Node?<T>, ghost freed: set<Node<T>>)
    requires prev != next || prev == null
    requires (prev != null ==> prev !in freed) && (next != null ==> next !in freed)
    modifies if prev != null then {prev} else {}, if next != null then {next} else {}
    ensures Joined(prev, next)
    ensures prev != null ==> prev.prev == old(prev.prev)
    ensures next != null ==> next.next == old(next.next)
  {
    if prev != null {
      prev.next := next;
    }
    if next != null {
      next.prev := prev;
    }
  }

  lemma WithoutDistinct<T>(nodes: seq<Node<T>>, k: nat)
    requires k < |nodes| && Distinct(nodes)
    ensures Distinct(Without(nodes, k)) && |Without(nodes, k)| == |nodes| - 1
    ensures Payloads(Without(nodes, k)) == Without(Payloads(nodes), k)
  {
  }

  lemma WithoutMembers<T>(nodes: seq<Node<T>>, k: nat, freed: set<Node<T>>)
    requires k < |nodes| && Distinct(nodes) && NodeSet(nodes) !! freed
    ensures nodes[k] !in Without(nodes, k) && nodes[k] !in freed && NodeSet(Without(nodes, k)) !! freed
  {
    assert nodes[k] in NodeSet(nodes);
    forall n | n in Without(nodes, k) ensures n in nodes {
      var i :| 0 <= i < |nodes| - 1 && Without(nodes, k)[i] == n;
      assert n == nodes[if i < k then i else i + 1];
    }
  }

  /** Makes a node's neighbours point past it. */
  method Bypass<T>(current: Node<T>, ghost nodes: seq<Node<T>>, ghost k: nat, ghost freed: set<Node<T>>)
    requires k < |nodes| && current == nodes[k] && Distinct(nodes) && Linked(nodes) && NodeSet(nodes) !! freed
    modifies nodes
    ensures Linked(Without(nodes, k))
  {
    assert EdgeAt(nodes, k) && EdgeAt(nodes, k + 1);
    AtDistinct(nodes, k - 1, k + 1);
    assert current in nodes;
    Splice(Prev(current, freed), Next(current, freed), freed);
    forall i | i != k - 1 && i != k ensures NextIs(nodes, i) {
      assert old(EdgeAt(nodes, i + 1));
      AtDistinct(nodes, i, k - 1);
    }
    forall i | i != k && i != k + 1 ensures PrevIs(nodes, i) {
      assert old(EdgeAt(nodes, i));
      AtDistinct(nodes, i, k + 1);
    }
    hide Linked;
    Rejoined(nodes, k);
  }

  class List<T> {
    var head: Node?<T>
    var tail: Node?<T>
    ghost var nodes: seq<Node<T>>   // the live nodes, in order
    ghost var contents: seq<T>
    ghost var freed: set<Node<T>>   // the nodes that have been freed

    ghost predicate Valid()
      reads this, nodes
    {
      && NodeSet(nodes) !! freed
      && Distinct(nodes) && Linked(nodes) && contents == Payloads(nodes)
      && head == NodeAt(nodes, 0) && tail == NodeAt(nodes, |nodes| - 1)
    }

    constructor ()
      ensures Valid() && contents == [] && nodes == [] && freed == {}
    {
      head, tail, nodes, contents, freed := null, null, [], [], {};
    }

    /** Gives a node's memory back; once only. */
    ghost method Free(n: Node<T>)
      requires n !in freed
      modifies `freed
      ensures freed == old(freed) + {n}
    {
      freed := freed + {n};
    }

    predicate IsEmpty()
      reads this
    {
      head == null
    }

    method AddElement(payload: T)
      requires Valid()
      modifies this, nodes
      ensures Valid() && contents == old(contents) + [payload] && freed == old(freed)
      ensures |nodes| == |old(nodes)| + 1 && nodes[..|old(nodes)|] == old(nodes) && fresh(nodes[|old(nodes)|])
    {
      ghost var was := nodes;
      ghost var n := |was|;
      assert EdgeAt(was, 0) && EdgeAt(was, n);
      var e := new Node(payload);
      if head == null {
        head, tail := e, e;
      } else {
        assert tail !in freed;
        tail.next := e;
        e.prev := tail;
        tail := e;
      }
      nodes, contents := was + [e], contents + [payload];
      forall i | 0 <= i <= n + 1 ensures EdgeAt(nodes, i) {
        if i < n {
          assert old(EdgeAt(was, i));
          AtDistinct(was, i - 1, n - 1);
        }
      }
    }

    /** Takes a node out of the chain. */
    method Unlink(current: Node<T>, ghost k: nat)
      requires Valid() && k < |nodes| && current == nodes[k]
      modifies this, nodes
      ensures Valid() && nodes == Without(old(nodes), k) && contents == Without(old(contents), k)
      ensures freed == old(freed) && current !in nodes && current !in freed
    {
      hide Linked, Distinct, Without, NodeAt, Payloads, NodeSet;
      MoveEnds(current, k);
      WithoutDistinct(nodes, k);
      WithoutMembers(nodes, k, freed);
      Bypass(current, nodes, k, freed);
      nodes, contents := Without(nodes, k), Without(contents, k);
    }

    method MoveEnds(current: Node<T>, ghost k: nat)
      requires Valid() && k < |nodes| && current == nodes[k]
      modifies `head, `tail
      ensures head == NodeAt(Without(nodes, k), 0)
      ensures tail == NodeAt(Without(nodes, k), |nodes| - 2)
      ensures current.prev == NodeAt(nodes, k - 1) && current.next == NodeAt(nodes, k + 1)
    {
      assert EdgeAt(nodes, k) && EdgeAt(nodes, k + 1);
      AtDistinct(nodes, 0, k);
      AtDistinct(nodes, |nodes| - 1, k);
      WithoutAt(nodes, k, 0);
      WithoutAt(nodes, k, |nodes| - 2);
      assert current in nodes;
      hide Linked, Distinct;
      if head == current {
        head := Next(current, freed);
      }
      if tail == current {
        tail := Prev(current, freed);
      }
    }
  }

  /** Frees the nodes from the front, each of them once, with their payloads if wanted. */
  method FreeList<T>(l: List<T>, freePayload: bool) returns (payloads: seq<T>, ghost gone: seq<Node<T>>)
    requires l.Valid()
    modifies l
    ensures l.head == null && l.tail == null && l.nodes == [] && l.contents == []
    ensures payloads == if freePayload then old(l.contents) else []
    ensures gone == old(l.nodes) && l.freed == old(l.freed) + NodeSet(gone)
  {
    payloads, gone := [], [];
    ghost var was := l.nodes;
    ghost var k := 0;
    while l.head != null
      invariant k <= |was| && l.head == NodeAt(was, k) && Linked(was)
      invariant payloads == if freePayload then Payloads(was[..k]) else []
      invariant gone == was[..k] && l.freed == old(l.freed) + NodeSet(gone)
      decreases |was| - k
    {
      assert EdgeAt(was, k + 1);
      NotYetFreed(was, k, old(l.freed));
      var elem := l.head;
      l.head := Next(elem, l.freed);
      if freePayload {
        payloads := payloads + [Payload(elem, l.freed)];
      }
      l.Free(elem);
      gone := gone + [elem];
      k := k + 1;
    }
    assert was[..k] == was;
    l.tail := null;
    l.nodes, l.contents := [], [];
  }

  lemma NotYetFreed<T>(nodes: seq<Node<T>>, k: nat, freed: set<Node<T>>)
    requires k < |nodes| && Distinct(nodes) && NodeSet(nodes) !! freed
    ensures nodes[k] !in freed + NodeSet(nodes[..k])
  {
    assert nodes[k] in NodeSet(nodes);
  }

  class Iterator<T> {
    var elem: Node?<T>
    var parent: List<T>
    ghost var at: nat   // index of the next element to return

    ghost predicate Valid()
      reads this, parent
    {
      at <= |parent.contents| == |parent.nodes| && elem == NodeAt(parent.nodes, at)
    }

    constructor (l: List<T>)
      requires l.Valid()
      ensures Valid() && parent == l && at == 0
    {
      parent, elem, at := l, l.head, 0;
    }

    method GetNext() returns (r: Option<T>)
      requires Valid() && parent.Valid()
      modifies this
      ensures Valid() && parent == old(parent)
      ensures if old(at) < |parent.contents|
        then r == Some(parent.contents[old(at)]) && at == old(at) + 1
        else r == None && at == old(at)
      ensures r.Some? ==> old(elem) == parent.nodes[old(at)] && old(elem) !in parent.freed
    {
      if elem == null {
        return None;
      }
      assert EdgeAt(parent.nodes, at + 1);
      assert elem in parent.nodes;
      r := Some(Payload(elem, parent.freed));
      elem := Next(elem, parent.freed);
      at := at + 1;
    }

    /** The iterator is one element ahead, so the current element is the one before it. */
    method FindCurrent() returns (current: Node?<T>)
      requires Valid() && parent.Valid() && |parent.nodes| > 0
      ensures current == parent.nodes[if at == 0 then 0 else at - 1]
    {
      assert EdgeAt(parent.nodes, at);
      AtDistinct(parent.nodes, 0, at);
      hide Linked, Distinct, Payloads;
      if elem == null {
        current := parent.tail;
      } else if elem == parent.head {
        current := parent.head;
      } else {
        assert elem in parent.nodes;
        current := Prev(elem, parent.freed);
      }
    }

    /** Deletes the element returned last; the iterator stays where it was. Before the first element has been
        returned this takes the first, and then the iterator points to a freed node. */
    method DeleteCurrent() returns (r: Option<T>)
      requires Valid() && parent.Valid()
      modifies this`at, parent, parent.nodes
      ensures parent.Valid() && parent == old(parent) && elem == old(elem)
      ensures forall i :: 0 <= i < |parent.nodes| ==> parent.nodes[i] in old(parent.nodes)
      ensures var c := old(parent.contents); var k := if old(at) == 0 then 0 else old(at) - 1;
        if |c| == 0 then r == None && parent.contents == c && parent.freed == old(parent.freed)
        else
          && r == Some(c[k]) && parent.contents == Without(c, k)
          && parent.nodes == Without(old(parent.nodes), k)
          && parent.freed == old(parent.freed) + {old(parent.nodes)[k]}
      ensures old(at) > 0 ==> at == old(at) - 1
      ensures Valid() <==> old(at) > 0 || |old(parent.contents)| == 0
      ensures !Valid() ==> elem in parent.freed
    {
      hide Linked, Distinct, NodeSet, List.Valid, Payloads;
      Sizes();
      if parent.IsEmpty() {
        return None;
      }
      var current := FindCurrent();
      if current == null {
        return None;
      }
      ghost var k := if at == 0 then 0 else at - 1;
      NodeStays(parent.nodes, k);
      assert elem == NodeAt(parent.nodes, at) && current == NodeAt(parent.nodes, k);
      hide NodeAt;
      var payload := Remove(current, k);
      at := k;
      return Some(payload);
    }

    lemma Sizes()
      requires Valid() && parent.Valid()
      ensures at <= |parent.contents| == |parent.nodes| && Distinct(parent.nodes)
      ensures parent.head == null <==> |parent.nodes| == 0
    {
    }

    /** Takes the node out of the list, keeps its payload, and frees it. */
    method Remove(current: Node<T>, ghost k: nat) returns (payload: T)
      requires parent.Valid() && k < |parent.nodes| && current == parent.nodes[k]
      modifies parent, parent.nodes
      ensures parent.Valid() && payload == old(parent.contents)[k]
      ensures parent.nodes == Without(old(parent.nodes), k) && parent.contents == Without(old(parent.contents), k)
      ensures parent.freed == old(parent.freed) + {current}
    {
      hide Linked, Distinct, NodeAt, Without;
      parent.Unlink(current, k);
      payload := Payload(current, parent.freed);
      parent.Free(current);
    }

    /** The removed node is not the one the iterator points to, unless it is the first. */
    lemma NodeStays(nodes: seq<Node<T>>, k: nat)
      requires k < |nodes| && Distinct(nodes)
      ensures NodeAt(Without(nodes, k), k) == NodeAt(nodes, k + 1) != nodes[k]
    {
      WithoutAt(nodes, k, k);
    }
  }

  function Keep<T>(s: seq<T>, chosen: T -> bool): seq<T> {
    if |s| == 0 then [] else (if chosen(s[0]) then [] else [s[0]]) + Keep(s[1..], chosen)
  }

  lemma {:induction false} KeepSnoc<T>(s: seq<T>, x: T, chosen: T -> bool)
    ensures Keep(s + [x], chosen) == Keep(s, chosen) + if chosen(x) then [] else [x]
  {
    if |s| > 0 {
      KeepSnoc(s[1..], x, chosen);
      assert (s + [x])[1..] == s[1..] + [x];
    }
  }

  /** A node that was followed, and the nodes that had been freed by then. */
  datatype Visit<T> = Visit(node: Node<T>, freed: set<Node<T>>)

  /** The nodes were followed in order, none after it had been freed. */
  ghost predicate SafeVisits<T>(visits: seq<Visit<T>>, nodes: seq<Node<T>>) {
    && |visits| <= |nodes|
    && forall i :: 0 <= i < |visits| ==> visits[i].node == nodes[i] && visits[i].node !in visits[i].freed
  }

  /** The nodes among the first n whose payloads are chosen. */
  ghost function Chosen<T>(nodes: seq<Node<T>>, chosen: T -> bool): (s: set<Node<T>>)
    ensures forall n :: n in nodes && chosen(n.payload) ==> n in s
    ensures forall n :: n in s ==> n in nodes && chosen(n.payload)
  {
    set n | n in nodes && chosen(n.payload)
  }

  /** Fetches the next payload and notes the node that was followed for it. */
  method Fetch<T>(it: Iterator<T>, ghost was: seq<Node<T>>, ghost n: nat, ghost visits: seq<Visit<T>>)
    returns (p: Option<T>, ghost more: seq<Visit<T>>)
    requires it.Valid() && it.parent.Valid() && SafeVisits(visits, was) && |visits| == n
    requires n < |was| ==> it.at < |it.parent.nodes| && it.parent.nodes[it.at] == was[n]
    requires n == |was| ==> it.at == |it.parent.nodes|
    modifies it
    ensures it.Valid() && it.parent == old(it.parent) && SafeVisits(more, was)
    ensures if n < |was|
      then p == Some(it.parent.contents[old(it.at)]) && it.at == old(it.at) + 1 && |more| == n + 1
      else p == None && it.at == old(it.at) && |more| == n
  {
    hide Iterator.Valid, List.Valid;
    AsMany(it);
    more := visits;
    p := it.GetNext();
    if p.Some? {
      more := visits + [Visit(was[n], it.parent.freed)];
    }
  }

  /** Deletes the element fetched last if it is chosen. */
  method PruneOne<T>(it: Iterator<T>, chosen: T -> bool, value: T, ghost all: seq<T>, ghost was: seq<Node<T>>,
                     ghost n: nat, ghost kept: seq<Node<T>>, ghost gone: set<Node<T>>, ghost before: set<Node<T>>)
    returns (ghost kept': seq<Node<T>>, ghost gone': set<Node<T>>)
    requires it.Valid() && it.parent.Valid() && it.at == |kept| + 1 && n < |all| == |was| && value == all[n]
    requires PrunedTo(all, was, n, kept, it.parent.contents, it.parent.nodes, gone, chosen)
    requires it.parent.freed == before + gone
    modifies it`at, it.parent, it.parent.nodes
    ensures it.Valid() && it.parent == old(it.parent) && it.parent.Valid() && it.at == |kept'|
    ensures forall i :: 0 <= i < |it.parent.nodes| ==> it.parent.nodes[i] in old(it.parent.nodes)
    ensures PrunedTo(all, was, n + 1, kept', it.parent.contents, it.parent.nodes, gone', chosen)
    ensures it.parent.freed == before + gone'
  {
    hide Iterator.Valid, List.Valid, PrunedTo, Without;
    PruneStep(all, was, n, kept, it.parent.contents, it.parent.nodes, gone, chosen);
    kept', gone' := kept, gone;
    if chosen(value) {
      AsMany(it);
      var _ := it.DeleteCurrent();
      gone' := gone + {was[n]};
    } else {
      kept' := kept + [was[n]];
    }
  }

  lemma AsMany<T>(it: Iterator<T>)
    requires it.Valid() && it.parent.Valid()
    ensures it.at <= |it.parent.nodes| == |it.parent.contents|
  {
  }

  /** Deleting while iterating: every payload is visited once, in order, and exactly the chosen ones go. No node is
      followed after it has been freed, and exactly the chosen ones are freed. */
  method Prune<T>(l: List<T>, chosen: T -> bool) returns (visited: seq<T>, ghost visits: seq<Visit<T>>)
    requires l.Valid()
    modifies l, l.nodes
    ensures l.Valid() && visited == old(l.contents)
    ensures l.contents == Keep(old(l.contents), chosen)
    ensures |visits| == |old(l.nodes)| && SafeVisits(visits, old(l.nodes))
    ensures l.freed == old(l.freed) + Chosen(old(l.nodes), chosen)
  {
    hide List.Valid, Iterator.Valid, Without, Keep, Chosen, NodeSet, PrunedTo, SafeVisits;
    PayloadsOfNodes(l);
    var it := new Iterator(l);
    ghost var was, all, n := l.nodes, l.contents, 0;
    ghost var kept: seq<Node<T>>, gone: set<Node<T>> := [], {};
    visited := [];
    PruneStart(all, was, chosen);
    NoVisits(was);
    var p;
    p, visits := Fetch(it, was, 0, []);
    while p.Some?
      invariant l.Valid() && it.parent == l && it.Valid() && fresh(it)
      invariant forall i :: 0 <= i < |l.nodes| ==> l.nodes[i] in old(l.nodes)
      invariant n <= |all| == |was| && visited == all[..n]
      invariant PrunedTo(all, was, n, kept, l.contents, l.nodes, gone, chosen) && l.freed == old(l.freed) + gone
      invariant if p.Some? then n < |all| && p.value == all[n] else n == |all|
      invariant it.at == |kept| + if p.Some? then 1 else 0
      invariant SafeVisits(visits, was) && |visits| == n + if p.Some? then 1 else 0
      decreases |all| - n
    {
      assert all[..n] + [all[n]] == all[..n + 1];
      visited := visited + [p.value];
      kept, gone := PruneOne(it, chosen, p.value, all, was, n, kept, gone, old(l.freed));
      n := n + 1;
      PruneRest(all, was, n, kept, l.contents, l.nodes, gone, chosen);
      p, visits := Fetch(it, was, n, visits);
    }
    PruneEnd(all, was, kept, l.contents, l.nodes, gone, chosen);
  }

  lemma NoVisits<T>(nodes: seq<Node<T>>)
    ensures SafeVisits([], nodes)
  {
  }

  /** The first n elements are dealt with: what is left of them comes before the others, and the chosen nodes are
      gone. */
  ghost predicate PrunedTo<T>(all: seq<T>, was: seq<Node<T>>, n: nat, kept: seq<Node<T>>, contents: seq<T>,
                              nodes: seq<Node<T>>, gone: set<Node<T>>, chosen: T -> bool) {
    && n <= |all| == |was| && (forall i :: 0 <= i < |was| ==> all[i] == was[i].payload)
    && |Keep(all[..n], chosen)| == |kept|
    && contents == Keep(all[..n], chosen) + all[n..] && nodes == kept + was[n..]
    && gone == Chosen(was[..n], chosen)
  }

  lemma PruneStart<T>(all: seq<T>, was: seq<Node<T>>, chosen: T -> bool)
    requires |all| == |was| && forall i :: 0 <= i < |was| ==> all[i] == was[i].payload
    ensures PrunedTo(all, was, 0, [], all, was, {}, chosen)
  {
    assert all[..0] == [];
    assert Keep(all[..0], chosen) + all[0..] == all;
    assert [] + was[0..] == was;
    assert Chosen(was[..0], chosen) == {};
  }

  lemma PruneStep<T>(all: seq<T>, was: seq<Node<T>>, n: nat, kept: seq<Node<T>>, contents: seq<T>,
                     nodes: seq<Node<T>>, gone: set<Node<T>>, chosen: T -> bool)
    requires PrunedTo(all, was, n, kept, contents, nodes, gone, chosen) && n < |all|
    ensures |kept| < |nodes| == |contents| && nodes[|kept|] == was[n] && all[..n] + [all[n]] == all[..n + 1]
    ensures if chosen(all[n]) then
        PrunedTo(all, was, n + 1, kept, Without(contents, |kept|), Without(nodes, |kept|), gone + {was[n]}, chosen)
      else
        PrunedTo(all, was, n + 1, kept + [was[n]], contents, nodes, gone, chosen)
  {
    hide Without, Keep, Chosen;
    var before := Keep(all[..n], chosen);
    KeepSnoc(all[..n], all[n], chosen);
    assert all[..n] + [all[n]] == all[..n + 1];
    MoveFirst(before, all[n..]);
    MoveFirst(kept, was[n..]);
    ChosenNext(was, n, chosen);
    assert before + [] == before;
  }

  lemma PruneRest<T>(all: seq<T>, was: seq<Node<T>>, n: nat, kept: seq<Node<T>>, contents: seq<T>,
                     nodes: seq<Node<T>>, gone: set<Node<T>>, chosen: T -> bool)
    requires PrunedTo(all, was, n, kept, contents, nodes, gone, chosen)
    ensures |contents| == |nodes| == |kept| + |all| - n
    ensures n < |all| ==> contents[|kept|] == all[n] && nodes[|kept|] == was[n]
  {
  }

  lemma PruneEnd<T>(all: seq<T>, was: seq<Node<T>>, kept: seq<Node<T>>, contents: seq<T>,
                    nodes: seq<Node<T>>, gone: set<Node<T>>, chosen: T -> bool)
    requires PrunedTo(all, was, |all|, kept, contents, nodes, gone, chosen)
    ensures contents == Keep(all, chosen) && gone == Chosen(was, chosen) && all[..|all|] == all
  {
    assert all[..|all|] == all && was[..|all|] == was;
  }

  lemma PayloadsOfNodes<T>(l: List<T>)
    requires l.Valid()
    ensures |l.contents| == |l.nodes| && forall i :: 0 <= i < |l.nodes| ==> l.contents[i] == l.nodes[i].payload
  {
  }

  lemma ChosenNext<T>(nodes: seq<Node<T>>, n: nat, chosen: T -> bool)
    requires n < |nodes|
    ensures Chosen(nodes[..n + 1], chosen) ==
      Chosen(nodes[..n], chosen) + if chosen(nodes[n].payload) then {nodes[n]} else {}
  {
    assert nodes[..n + 1] == nodes[..n] + [nodes[n]];
  }

  lemma MoveFirst<T>(a: seq<T>, rest: seq<T>)
    requires |rest| > 0
    ensures Without(a + rest, |a|) == a + rest[1..]
    ensures a + [rest[0]] + rest[1..] == a + rest
  {
  }
}
