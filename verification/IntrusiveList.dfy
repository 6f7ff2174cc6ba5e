/** The doubly linked list whose links are inside its elements (src/intrusive-list.h), refining a
    sequence of nodes.  An iterator is a node, or null behind the last one. */
module IntrusiveList {
  class Node {
    var next: Node?
    var prev: Node?

    constructor ()
      ensures Free()
    {
      next, prev := null, null;
    }

    /** Not in a list. */
    predicate Free()
      reads this
    {
      next == null && prev == null
    }
  }

  /** The node at a place, or null beyond the ends. */
  ghost function NodeAt(nodes: seq<Node>, i: int): Node? {
    if 0 <= i < |nodes| then nodes[i] else null
  }

  /** Where an iterator stands in a sequence of nodes. */
  ghost predicate At(nodes: seq<Node>, pos: Node?, at: nat) {
    at <= |nodes| && pos == NodeAt(nodes, at)
  }

  ghost predicate Distinct(nodes: seq<Node>) { forall i, j | 0 <= i < j < |nodes| :: nodes[i] != nodes[j] }

  /** Neighbours point at each other, and the ends at nothing. */
  ghost predicate Linked(nodes: seq<Node>)
    reads nodes
  {
    forall i | 0 <= i < |nodes| :: nodes[i].next == NodeAt(nodes, i + 1) && nodes[i].prev == NodeAt(nodes, i - 1)
  }

  lemma NodeIs(nodes: seq<Node>, i: int)
    ensures NodeAt(nodes, i) != null <==> 0 <= i < |nodes|
    ensures 0 <= i < |nodes| ==> NodeAt(nodes, i) == nodes[i]
  {}

  function With(nodes: seq<Node>, at: nat, node: Node): seq<Node>
    requires at <= |nodes|
  {
    nodes[..at] + [node] + nodes[at..]
  }

  function Without(nodes: seq<Node>, at: nat): seq<Node>
    requires at < |nodes|
  {
    nodes[..at] + nodes[at + 1..]
  }

  lemma Ends(nodes: seq<Node>)
    ensures NodeAt(nodes, -1) == null && NodeAt(nodes, |nodes|) == null
    ensures nodes == [] ==> NodeAt(nodes, 0) == null
    ensures nodes != [] ==> NodeAt(nodes, 0) == nodes[0] && NodeAt(nodes, |nodes| - 1) == nodes[|nodes| - 1]
  {}

  /** In a sequence without repetition an iterator stands at one place only. */
  lemma OnlyAt(nodes: seq<Node>, k: nat, j: nat)
    requires Distinct(nodes) && k <= j <= |nodes|
    ensures NodeAt(nodes, k) == NodeAt(nodes, j) ==> k == j
  {}

  lemma ShiftedAt(was: seq<Node>, i: nat, k: nat, at: nat)
    requires i <= k <= |was| && i <= at
    ensures NodeAt(was[..i] + was[k..], at) == NodeAt(was, at - i + k)
  {}

  lemma NotAmong(mine: seq<Node>, theirs: seq<Node>, at: nat, i: nat)
    requires at <= |mine| && i < |theirs| && theirs[i] !in Without(theirs, i) && forall n | n in mine :: n !in theirs
    ensures theirs[i] !in mine && forall n | n in With(mine, at, theirs[i]) :: n !in Without(theirs, i)
  {
    forall n | n in With(mine, at, theirs[i]) ensures n !in Without(theirs, i) {
      if n != theirs[i] { assert n in mine; }
    }
  }

  /** One node further. */
  lemma MovedOn(mine: seq<Node>, theirs: seq<Node>, at: nat, i: nat, k: nat)
    requires at <= |mine| && i <= k < |theirs|
    ensures With(mine[..at] + theirs[i..k] + mine[at..], at + (k - i), theirs[k])
            == mine[..at] + theirs[i..k + 1] + mine[at..]
    ensures (theirs[..i] + theirs[k..])[i] == theirs[k]
            && Without(theirs[..i] + theirs[k..], i) == theirs[..i] + theirs[k + 1..]
  {}

  /** No node beyond those the two lists had. */
  ghost predicate SameNodes(a: seq<Node>, b: seq<Node>, mine: seq<Node>, theirs: seq<Node>) {
    (forall n | n in a :: n in mine || n in theirs) && forall n | n in b :: n in mine || n in theirs
  }

  lemma StillSame(mine: seq<Node>, theirs: seq<Node>, at: nat, i: nat, k: nat)
    requires at <= |mine| && i <= k <= |theirs|
    ensures SameNodes(mine[..at] + theirs[i..k] + mine[at..], theirs[..i] + theirs[k..], mine, theirs)
  {}

  /** The place behind some nodes put in before `at` is where the node at `at` went. */
  lemma MiddleAt(nodes: seq<Node>, at: nat, more: seq<Node>)
    requires at <= |nodes|
    ensures NodeAt(nodes[..at] + more + nodes[at..], at + |more|) == NodeAt(nodes, at)
  {}

  lemma WithAt(nodes: seq<Node>, at: nat, node: Node, k: int)
    requires at <= |nodes|
    ensures NodeAt(With(nodes, at, node), k) == if k < at then NodeAt(nodes, k) else if k == at then node
            else NodeAt(nodes, k - 1)
  {}

  lemma WithDistinct(nodes: seq<Node>, at: nat, node: Node)
    requires at <= |nodes| && Distinct(nodes) && node !in nodes
    ensures Distinct(With(nodes, at, node))
  {}

  lemma WithoutAt(nodes: seq<Node>, at: nat, k: int)
    requires at < |nodes|
    ensures NodeAt(Without(nodes, at), k) == if k < at then NodeAt(nodes, k) else NodeAt(nodes, k + 1)
  {}

  lemma FrontIs(nodes: seq<Node>)
    requires nodes != []
    ensures Without(nodes, 0) == nodes[1..] && [nodes[0]] + nodes[1..] == nodes
            && NodeAt(nodes, 1) == NodeAt(Without(nodes, 0), 0)
  {}

  lemma WithoutDistinct(nodes: seq<Node>, at: nat)
    requires at < |nodes| && Distinct(nodes)
    ensures Distinct(Without(nodes, at)) && nodes[at] !in Without(nodes, at)
  {}

  /** With a node added: the links around it are right, and the others are as they were. */
  lemma Relinked(was: seq<Node>, at: nat, node: Node)
    requires at <= |was| && Distinct(was) && node !in was
    requires node.prev == NodeAt(was, at - 1) && node.next == NodeAt(was, at)
    requires forall i | 0 <= i < |was| :: was[i].next == if i == at - 1 then node else NodeAt(was, i + 1)
    requires forall i | 0 <= i < |was| :: was[i].prev == if i == at then node else NodeAt(was, i - 1)
    ensures Linked(With(was, at, node)) && Distinct(With(was, at, node))
  {
    hide NodeAt;
    WithDistinct(was, at, node);
    var all := With(was, at, node);
    forall k | 0 <= k < |all| ensures all[k].next == NodeAt(all, k + 1) && all[k].prev == NodeAt(all, k - 1) {
      WithAt(was, at, node, k + 1);
      WithAt(was, at, node, k - 1);
      if k < at {
        assert all[k] == was[k];
      } else if k > at {
        assert all[k] == was[k - 1];
      }
    }
  }

  /** With a node taken out: its neighbours point at each other, and the others are as they were. */
  lemma Unlinked(was: seq<Node>, at: nat)
    requires at < |was| && Distinct(was)
    requires forall i | 0 <= i < |was| && i != at :: was[i].next == NodeAt(was, if i == at - 1 then at + 1 else i + 1)
    requires forall i | 0 <= i < |was| && i != at :: was[i].prev == NodeAt(was, if i == at + 1 then at - 1 else i - 1)
    ensures Linked(Without(was, at)) && Distinct(Without(was, at)) && was[at] !in Without(was, at)
  {
    hide NodeAt;
    WithoutDistinct(was, at);
    var all := Without(was, at);
    forall k | 0 <= k < |all| ensures all[k].next == NodeAt(all, k + 1) && all[k].prev == NodeAt(all, k - 1) {
      WithoutAt(was, at, k + 1);
      WithoutAt(was, at, k - 1);
      assert all[k] == was[if k < at then k else k + 1];
    }
  }

  class List {
    var first: Node?
    var last: Node?
    var size: nat
    ghost var nodes: seq<Node>

    constructor ()
      ensures Valid() && nodes == []
    {
      first, last, size, nodes := null, null, 0, [];
    }

    ghost predicate Valid()
      reads this, nodes
    {
      && size == |nodes| && Distinct(nodes) && Linked(nodes)
      && first == NodeAt(nodes, 0) && last == NodeAt(nodes, |nodes| - 1)
    }

    method PushFront(node: Node)
      requires Valid() && node.Free() && node !in nodes
      modifies this, nodes, node
      ensures Valid() && nodes == [node] + old(nodes)
    {
      hide NodeAt;
      ghost var was := nodes;
      Ends(was);
      if first != null {
        node.next := first;
        first.prev := node;
      } else {
        last := node;
      }
      first := node;
      size := size + 1;
      Relinked(was, 0, node);
      nodes := With(was, 0, node);
      assert nodes == [node] + was;
      Ends(nodes);
    }

    method PushBack(node: Node)
      requires Valid() && node.Free() && node !in nodes
      modifies this, nodes, node
      ensures Valid() && nodes == old(nodes) + [node]
    {
      hide NodeAt;
      ghost var was := nodes;
      Ends(was);
      if last != null {
        node.prev := last;
        last.next := node;
      } else {
        first := node;
      }
      last := node;
      size := size + 1;
      Relinked(was, |was|, node);
      nodes := With(was, |was|, node);
      assert nodes == was + [node];
      Ends(nodes);
    }

    method ExtractFront() returns (node: Node)
      requires Valid() && size > 0
      modifies this, nodes
      ensures Valid() && old(nodes) == [node] + nodes && node.Free() && node !in nodes
    {
      hide NodeAt, Without;
      ghost var was := nodes;
      Ends(was);
      NodeIs(was, 1);
      node := first;
      if first == last {
        first, last := null, null;
      } else {
        first := first.next;
        first.prev := null;
      }
      node.next, node.prev := null, null;
      size := size - 1;
      forall i | 0 <= i < |was| && i != 0
        ensures was[i].next == NodeAt(was, i + 1) && was[i].prev == NodeAt(was, if i == 1 then -1 else i - 1)
      {
        assert was[i] != was[0];
      }
      Unlinked(was, 0);
      nodes := Without(was, 0);
      FrontIs(was);
      Ends(nodes);
    }

    method ExtractBack() returns (node: Node)
      requires Valid() && size > 0
      modifies this, nodes
      ensures Valid() && old(nodes) == nodes + [node] && node.Free() && node !in nodes
    {
      hide NodeAt;
      ghost var was := nodes;
      Ends(was);
      NodeIs(was, |was| - 2);
      node := last;
      if first == last {
        first, last := null, null;
      } else {
        last := last.prev;
        last.next := null;
      }
      node.next, node.prev := null, null;
      size := size - 1;
      Unlinked(was, |was| - 1);
      nodes := Without(was, |was| - 1);
      assert nodes == was[..|was| - 1];
      Ends(nodes);
    }

    /** Before `pos`. */
    method Insert(pos: Node?, node: Node, ghost at: nat) returns (it: Node)
      requires Valid() && At(nodes, pos, at) && node.Free() && node !in nodes
      modifies this, nodes, node
      ensures Valid() && nodes == With(old(nodes), at, node) && it == node
    {
      hide NodeAt;
      ghost var was := nodes;
      NodeIs(was, at);
      if pos == null {
        PushBack(node);
        assert nodes == With(was, at, node);
      } else {
        NodeIs(was, at - 1);
        Ends(was);
        node.prev := pos.prev;
        node.next := pos;
        if pos.prev != null {
          pos.prev.next := node;
        } else {
          first := node;
        }
        pos.prev := node;
        size := size + 1;
        Relinked(was, at, node);
        nodes := With(was, at, node);
        Ends(nodes);
      }
      it := node;
    }

    method Extract(pos: Node, ghost at: nat)
      requires Valid() && At(nodes, pos, at)
      modifies this, nodes
      ensures at < |old(nodes)| && Valid() && nodes == Without(old(nodes), at) && pos.Free() && pos !in nodes
    {
      hide NodeAt;
      ghost var was := nodes;
      NodeIs(was, at);
      NodeIs(was, at - 1);
      NodeIs(was, at + 1);
      Ends(was);
      if first == last {
        first, last := null, null;
      } else {
        if pos.prev != null {
          pos.prev.next := pos.next;
        } else {
          first := pos.next;
        }
        if pos.next != null {
          pos.next.prev := pos.prev;
        } else {
          last := pos.prev;
        }
      }
      pos.next, pos.prev := null, null;
      size := size - 1;
      Unlinked(was, at);
      nodes := Without(was, at);
      Ends(nodes);
    }

    method Erase(pos: Node, ghost at: nat) returns (next: Node?)
      requires Valid() && At(nodes, pos, at)
      modifies this, nodes
      ensures at < |old(nodes)| && Valid() && nodes == Without(old(nodes), at) && At(nodes, next, at)
      ensures next == NodeAt(old(nodes), at + 1)
    {
      hide NodeAt;
      NodeIs(nodes, at);
      WithoutAt(nodes, at, at);
      next := pos.next;
      Extract(pos, at);
    }

    method EraseRange(from: Node?, to: Node?, ghost i: nat, ghost j: nat) returns (it: Node?)
      requires Valid() && i <= j && At(nodes, from, i) && At(nodes, to, j)
      modifies this, nodes
      ensures Valid() && nodes == old(nodes)[..i] + old(nodes)[j..] && it == to && At(nodes, it, i)
    {
      hide NodeAt, Linked;
      it := from;
      ghost var k, was := i, nodes;
      assert nodes == was[..i] + was[i..];
      while it != to
        invariant i <= k <= j && Valid() && nodes == was[..i] + was[k..] && At(nodes, it, i) && it == NodeAt(was, k)
        invariant forall n | n in nodes :: n in was
        decreases j - k
      {
        OnlyAt(was, k, j);
        NodeIs(was, k);
        NodeIs(nodes, i);
        assert Without(nodes, i) == was[..i] + was[k + 1..];
        WithoutAt(nodes, i, i);
        ShiftedAt(was, i, k, i + 1);
        it := Erase(it, i);
        k := k + 1;
      }
      OnlyAt(was, k, j);
    }

    ghost predicate Apart(other: List)
      reads this`nodes, other`nodes
    {
      this != other && forall n | n in nodes :: n !in other.nodes
    }

    /** Splicing a single node: where the iterator in `other` goes on is returned. */
    method SpliceOne(pos: Node?, other: List, node: Node, ghost at: nat, ghost i: nat) returns (next: Node?)
      requires Valid() && other.Valid() && Apart(other) && At(nodes, pos, at) && At(other.nodes, node, i)
      modifies this, nodes, other, other.nodes
      ensures Valid() && other.Valid() && Apart(other)
      ensures i < |old(other.nodes)| && old(other.nodes)[i] == node && next == NodeAt(old(other.nodes), i + 1)
      ensures nodes == With(old(nodes), at, node) && other.nodes == Without(old(other.nodes), i)
    {
      hide NodeAt, Distinct;
      NodeIs(other.nodes, i);
      LinkOf(other, i);
      ghost var mine, theirs := nodes, other.nodes;
      next := node.next;
      other.Extract(node, i);
      assert forall n | n in mine :: n.next == old(n.next) && n.prev == old(n.prev);
      label L:
      NotAmong(mine, theirs, at, i);
      var _ := Insert(pos, node, at);
      assert forall n | n in other.nodes :: n.next == old@L(n.next) && n.prev == old@L(n.prev);
    }

    lemma LinkOf(other: List, i: nat)
      requires other.Valid() && i < |other.nodes|
      ensures other.nodes[i].next == NodeAt(other.nodes, i + 1)
    {
      hide NodeAt;
    }

    /** The nodes of `other` from `from` up to `to` move before `pos`. */
    method Splice(pos: Node?, other: List, from: Node?, to: Node?, ghost at: nat, ghost i: nat, ghost j: nat)
      requires Valid() && other.Valid() && Apart(other)
      requires At(nodes, pos, at) && i <= j && At(other.nodes, from, i) && At(other.nodes, to, j)
      modifies this, nodes, other, other.nodes
      ensures Valid() && other.Valid() && Apart(other)
      ensures nodes == old(nodes)[..at] + old(other.nodes)[i..j] + old(nodes)[at..]
      ensures other.nodes == old(other.nodes)[..i] + old(other.nodes)[j..]
    {
      hide NodeAt, Linked, Distinct, Valid, With, Without, Apart;
      StillSame(nodes, other.nodes, at, i, i);
      var it := from;
      ghost var k, mine, theirs := i, nodes, other.nodes;
      assert Distinct(theirs) by { DistinctNodes(other); }
      assert mine == mine[..at] + theirs[i..i] + mine[at..] && theirs == theirs[..i] + theirs[i..];
      while it != to
        invariant i <= k <= j && Valid() && other.Valid() && Apart(other)
        invariant nodes == mine[..at] + theirs[i..k] + mine[at..] && other.nodes == theirs[..i] + theirs[k..]
        invariant At(theirs, it, k)
        invariant SameNodes(nodes, other.nodes, mine, theirs)
        decreases j - k
      {
        OnlyAt(theirs, k, j);
        NodeIs(theirs, k);
        ShiftedAt(theirs, i, k, i);
        ShiftedAt(theirs, i, k, i + 1);
        MiddleAt(mine, at, theirs[i..k]);
        it := SpliceOne(pos, other, it, at + (k - i), i);
        MovedOn(mine, theirs, at, i, k);
        k := k + 1;
        StillSame(mine, theirs, at, i, k);
      }
      OnlyAt(theirs, k, j);
    }

    lemma DistinctNodes(other: List)
      requires other.Valid()
      ensures Distinct(other.nodes)
    {}

    method SpliceAll(pos: Node?, other: List, ghost at: nat)
      requires Valid() && other.Valid() && Apart(other) && At(nodes, pos, at)
      modifies this, nodes, other, other.nodes
      ensures Valid() && other.Valid() && other.nodes == []
      ensures nodes == old(nodes)[..at] + old(other.nodes) + old(nodes)[at..]
    {
      hide NodeAt, Linked, Distinct;
      ghost var theirs := other.nodes;
      Ends(theirs);
      assert theirs[0..|theirs|] == theirs && theirs[..0] + theirs[|theirs|..] == [];
      Splice(pos, other, other.first, null, at, 0, |other.nodes|);
    }

    /** Every node is deleted, once and in order. */
    method Clear() returns (ghost deleted: seq<Node>)
      requires Valid()
      modifies this
      ensures Valid() && nodes == [] && deleted == old(nodes)
    {
      hide NodeAt;
      deleted := [];
      Ends(nodes);
      var iter := first;
      while iter != null
        invariant Valid() && nodes == old(nodes)
        invariant |deleted| <= |nodes| && deleted == nodes[..|deleted|] && iter == NodeAt(nodes, |deleted|)
        decreases |nodes| - |deleted|
      {
        NodeIs(nodes, |deleted|);
        var next := iter.next;
        deleted := deleted + [iter];
        iter := next;
      }
      NodeIs(nodes, |deleted|);
      first, last, size, nodes := null, null, 0, [];
      Ends(nodes);
    }

    /** Move assignment: the nodes of this list are deleted, those of the other change hands. */
    method MoveFrom(other: List) returns (ghost deleted: seq<Node>)
      requires this != other && Valid() && other.Valid()
      modifies this, other
      ensures Valid() && other.Valid() && nodes == old(other.nodes) && other.nodes == [] && deleted == old(nodes)
    {
      deleted := Clear();
      first, last, size, nodes := other.first, other.last, other.size, other.nodes;
      other.first, other.last, other.size, other.nodes := null, null, 0, [];
    }

    method Swap(other: List)
      requires Valid() && other.Valid()
      modifies this, other
      ensures Valid() && other.Valid() && nodes == old(other.nodes) && other.nodes == old(nodes)
    {
      hide NodeAt;
      var first', last', size' := other.first, other.last, other.size;
      ghost var nodes' := other.nodes;
      other.first, other.last, other.size, other.nodes := first, last, size, nodes;
      first, last, size, nodes := first', last', size', nodes';
    }

    /** Walking forwards and backwards visits the same nodes in opposite orders. */
    method Walk() returns (forwards: seq<Node>, backwards: seq<Node>)
      requires Valid()
      ensures forwards == nodes && |backwards| == |nodes| && forall i | 0 <= i < |nodes| ::
              backwards[i] == nodes[|nodes| - 1 - i]
    {
      hide NodeAt;
      forwards, backwards := [], [];
      var it := first;
      Ends(nodes);
      ghost var k := 0;
      while it != null
        invariant At(nodes, it, k) && forwards == nodes[..k]
        decreases |nodes| - k
      {
        NodeIs(nodes, k);
        forwards := forwards + [it];
        it := it.next;
        k := k + 1;
      }
      NodeIs(nodes, k);
      it := last;
      k := 0;
      while it != null
        invariant k <= |nodes| && it == NodeAt(nodes, |nodes| - 1 - k)
        invariant |backwards| == k && forall i | 0 <= i < k :: backwards[i] == nodes[|nodes| - 1 - i]
        decreases |nodes| - k
      {
        NodeIs(nodes, |nodes| - 1 - k);
        backwards := backwards + [it];
        it := it.prev;
        k := k + 1;
      }
      NodeIs(nodes, |nodes| - 1 - k);
    }
  }
}
