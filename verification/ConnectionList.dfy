/** The list of connection threads: nodes linked through the heap, appended at the end and freed
    from the front. */
module ConnectionList {

  class Node {
    var threadId: int
    var clientSocket: int
    var finished: int
    var next: Node?

    constructor (threadId: int, clientSocket: int, finished: int)
      ensures this.threadId == threadId && this.clientSocket == clientSocket && this.finished == finished
      ensures next == null
    {
      this.threadId, this.clientSocket, this.finished, this.next := threadId, clientSocket, finished, null;
    }
  }

  /** Following next from `first` visits exactly these nodes and then ends. */
  ghost predicate Chain(first: Node?, nodes: seq<Node>)
    reads nodes
  {
    if nodes == [] then first == null
    else
      && first == nodes[0]
      && (forall i :: 0 <= i < |nodes| - 1 ==> nodes[i].next == nodes[i + 1])
      && nodes[|nodes| - 1].next == null
  }

  /** A list that ends has no cycle: no node is visited twice. */
  lemma {:induction false} ChainHasNoRepeat(first: Node?, nodes: seq<Node>, i: nat, j: nat)
    requires Chain(first, nodes) && i < j < |nodes|
    ensures nodes[i] != nodes[j]
    decreases |nodes| - j
  {
    if j + 1 < |nodes| {
      ChainHasNoRepeat(first, nodes, i + 1, j + 1);
    } else {
      assert nodes[i].next == nodes[i + 1];
    }
  }

  /** A list visits one sequence of nodes only. */
  lemma {:induction false} ChainIsUnique(first: Node?, a: seq<Node>, b: seq<Node>)
    requires Chain(first, a) && Chain(first, b)
    ensures a == b
  {
    if a != [] && b != [] {
      ChainTail(first, a);
      ChainTail(first, b);
      ChainIsUnique(a[0].next, a[1..], b[1..]);
    }
  }

  lemma ChainTail(first: Node?, nodes: seq<Node>)
    requires Chain(first, nodes) && nodes != []
    ensures Chain(nodes[0].next, nodes[1..])
  {
  }

  ghost function Members(nodes: seq<Node>): set<Node>
  {
    set i | 0 <= i < |nodes| :: nodes[i]
  }

  lemma MembersOfPrefix(nodes: seq<Node>, k: nat)
    requires k < |nodes|
    ensures Members(nodes[..k + 1]) == Members(nodes[..k]) + {nodes[k]}
  {
    var a, b := nodes[..k + 1], nodes[..k];
    assert a == b + [nodes[k]];
    assert a[k] == nodes[k];
    forall n | n in Members(b)
      ensures n in Members(a)
    {
      var i :| 0 <= i < |b| && b[i] == n;
      assert a[i] == n;
    }
  }

  class List {
    var head: Node?
    ghost var nodes: seq<Node>  // the nodes of the list, in order
    ghost var live: set<Node>   // the nodes allocated and not freed

    ghost predicate Valid()
      reads this, nodes
    {
      Chain(head, nodes) && forall n :: n in nodes ==> n in live
    }

    constructor ()
      ensures Valid() && nodes == [] && live == {}
    {
      head, nodes, live := null, [], {};
    }

    method CreateNode(threadId: int, clientSocket: int, finished: int) returns (n: Node)
      requires Valid()
      modifies this`live
      ensures Valid() && fresh(n) && n.next == null && live == old(live) + {n}
      ensures n.threadId == threadId && n.clientSocket == clientSocket && n.finished == finished
    {
      n := new Node(threadId, clientSocket, finished);
      live := live + {n};
    }

    /** Appends a node that is not in the list. Only the end of the list changes: its head when it
        was empty, the next of its last node otherwise. */
    method AppendNode(newNode: Node)
      requires Valid() && newNode.next == null && newNode in live && newNode !in nodes
      modifies this`head, this`nodes, if nodes == [] then {} else {nodes[|nodes| - 1]}
      ensures Valid() && nodes == old(nodes) + [newNode]
      ensures old(nodes) != [] ==> head == old(head)
      ensures forall n :: n in old(nodes) ==>
                n.threadId == old(n.threadId) && n.clientSocket == old(n.clientSocket) && n.finished == old(n.finished)
    {
      if head == null {
        head := newNode;
      } else {
        var temp: Node := head;
        ghost var k := 0;
        while temp.next != null
          invariant 0 <= k < |nodes| && temp == nodes[k]
          invariant k < |nodes| - 1 ==> temp.next == nodes[k + 1]
          decreases |nodes| - k
        {
          temp := temp.next;
          k := k + 1;
        }
        LastHasNoTwin(head, nodes);
        temp.next := newNode;
      }
      nodes := nodes + [newNode];
    }

    method Free(n: Node)
      requires n in live
      modifies this`live
      ensures live == old(live) - {n}
    {
      live := live - {n};
    }

    /** One turn of the freeing loop: the head moves on before its node is freed. */
    method FreeFirst()
      requires Valid() && head != null
      modifies this
      ensures Valid() && nodes == old(nodes)[1..] && live == old(live) - {old(nodes)[0]}
    {
      var temp := head;
      FirstHasNoTwin(head, nodes);
      ChainTail(head, nodes);
      head := head.next;
      Free(temp);
      nodes := nodes[1..];
    }

    /** Frees every node of the list, each while it is live and hence once, and nothing else. */
    method FreeList()
      requires Valid()
      modifies this
      ensures head == null && nodes == [] && Valid()
      ensures live == old(live) - Members(old(nodes))
    {
      ghost var all, gone := nodes, 0;
      while head != null
        invariant 0 <= gone <= |all| && nodes == all[gone..]
        invariant Valid() && live == old(live) - Members(all[..gone])
        decreases |all| - gone
      {
        MembersOfPrefix(all, gone);
        FreeFirst();
        gone := gone + 1;
      }
      assert all[..gone] == all;
    }
  }

  lemma LastHasNoTwin(first: Node?, nodes: seq<Node>)
    requires Chain(first, nodes) && nodes != []
    ensures forall i :: 0 <= i < |nodes| - 1 ==> nodes[i] != nodes[|nodes| - 1]
  {
    forall i | 0 <= i < |nodes| - 1
      ensures nodes[i] != nodes[|nodes| - 1]
    {
      ChainHasNoRepeat(first, nodes, i, |nodes| - 1);
    }
  }

  lemma FirstHasNoTwin(first: Node?, nodes: seq<Node>)
    requires Chain(first, nodes) && nodes != []
    ensures nodes[0] !in nodes[1..]
  {
    forall j | 0 < j < |nodes|
      ensures nodes[0] != nodes[j]
    {
      ChainHasNoRepeat(first, nodes, 0, j);
    }
  }
}
