/**
 * A mutable singly-linked list: nodes holding a value and a `next` link, and a
 * list object that keeps the first node in `head` and a private node counter.
 *
 * The list's abstract view is kept in ghost fields: `Nodes`, the chain of
 * nodes reached from `head` by following `next` until null, and `Contents`,
 * the values those nodes hold, in order. That the chain is acyclic, and that
 * the chain reached from a node is unique, are proved as lemmas about the
 * chain predicate rather than assumed in the invariant.
 */
module LinkedLists {

  datatype Result<+R, +E> = Success(value: R) | Failure(error: E)

  /** The one error the list raises: a constructor argument that is neither a node nor null. */
  datatype Error = TypeError(message: string)

  const HeadNotANode := "head must be an instance of Node."

  /**
   * The argument handed to the list constructor. The source accepts a node or
   * null (an omitted argument defaults to null); any other value is rejected.
   */
  datatype HeadArg<T> = NodeOrNull(node: Node?<T>) | OtherValue

  class Node<T> {
    var value: T
    var next: Node?<T>

    /** Stores exactly the given value and successor; the successor defaults to null. */
    constructor (value: T, next: Node?<T> := null)
      ensures this.value == value && this.next == next
    {
      this.value := value;
      this.next := next;
    }
  }

  /**
   * `nodes` is the chain reached from `n`: empty iff `n` is null, otherwise it
   * starts at `n`, each node's `next` is the following one, and the last
   * node's `next` is null.
   */
  ghost predicate IsChain<T>(n: Node?<T>, nodes: seq<Node<T>>)
    reads set k | 0 <= k < |nodes| :: nodes[k]
  {
    (if nodes == [] then n == null else n == nodes[0] && nodes[|nodes| - 1].next == null) &&
    forall k :: 0 <= k < |nodes| - 1 ==> nodes[k].next == nodes[k + 1]
  }

  /** The successor of the node at position `k` of a chain. */
  lemma ChainNext<T>(n: Node?<T>, nodes: seq<Node<T>>, k: nat)
    requires IsChain(n, nodes) && k < |nodes|
    ensures nodes[k].next == if k == |nodes| - 1 then null else nodes[k + 1]
  {
  }

  /** Two chains that agree at positions `i` and `j` agree `d` positions further on. */
  lemma {:induction false} ChainShift<T>(n: Node?<T>, nodes: seq<Node<T>>, i: nat, j: nat, d: nat)
    requires IsChain(n, nodes)
    requires i < j && j + d < |nodes| && nodes[i] == nodes[j]
    ensures nodes[i + d] == nodes[j + d]
  {
    if d > 0 {
      ChainShift(n, nodes, i, j, d - 1);
      assert nodes[i + d] == nodes[i + d - 1].next == nodes[j + d - 1].next == nodes[j + d];
    }
  }

  /** A chain that ends in null never revisits a node: the list is acyclic. */
  lemma {:induction false} ChainAcyclic<T>(n: Node?<T>, nodes: seq<Node<T>>)
    requires IsChain(n, nodes)
    ensures forall i, j :: 0 <= i < j < |nodes| ==> nodes[i] != nodes[j]
  {
    forall i, j | 0 <= i < j < |nodes|
      ensures nodes[i] != nodes[j]
    {
      if nodes[i] == nodes[j] {
        ChainShift(n, nodes, i, j, |nodes| - 1 - j);
        ChainNext(n, nodes, i + |nodes| - 1 - j);
        assert false;
      }
    }
  }

  /** Two chains from the same node agree on their common positions. */
  lemma {:induction false} ChainPrefixAgree<T>(n: Node?<T>, a: seq<Node<T>>, b: seq<Node<T>>, k: nat)
    requires IsChain(n, a) && IsChain(n, b)
    requires k < |a| && k < |b|
    ensures a[k] == b[k]
  {
    if k > 0 {
      ChainPrefixAgree(n, a, b, k - 1);
    }
  }

  /** The chain reached from a node is determined by the heap: there is only one. */
  lemma {:induction false} ChainUnique<T>(n: Node?<T>, a: seq<Node<T>>, b: seq<Node<T>>)
    requires IsChain(n, a) && IsChain(n, b)
    ensures a == b
  {
    if |a| < |b| {
      if a != [] {
        ChainPrefixAgree(n, a, b, |a| - 1);
        ChainNext(n, b, |a| - 1);
      }
      assert false;
    } else if |b| < |a| {
      if b != [] {
        ChainPrefixAgree(n, a, b, |b| - 1);
        ChainNext(n, a, |b| - 1);
      }
      assert false;
    } else {
      forall k | 0 <= k < |a|
        ensures a[k] == b[k]
      {
        ChainPrefixAgree(n, a, b, k);
      }
    }
  }

  /** The values held by the nodes of a chain, in order. */
  ghost function Values<T>(nodes: seq<Node<T>>): (vs: seq<T>)
    reads set k | 0 <= k < |nodes| :: nodes[k]
    ensures |vs| == |nodes| && forall k :: 0 <= k < |nodes| ==> vs[k] == nodes[k].value
  {
    if nodes == [] then [] else [nodes[0].value] + Values(nodes[1..])
  }

  class LinkedList<T> {
    var head: Node?<T>
    var length: nat

    ghost var Nodes: seq<Node<T>>
    ghost var Contents: seq<T>
    ghost var Repr: set<object>

    /**
     * The chain from `head` ends in null and its values are `Contents`. This is
     * all `append`, `prepend`, `tail` and `head` rely on; the counter may differ.
     */
    ghost predicate ChainValid()
      reads this, Repr
    {
      this in Repr &&
      (forall k :: 0 <= k < |Nodes| ==> Nodes[k] in Repr) &&
      IsChain(head, Nodes) &&
      |Contents| == |Nodes| &&
      forall k :: 0 <= k < |Nodes| ==> Contents[k] == Nodes[k].value
    }

    /** Moreover the counter equals the length of the chain. */
    ghost predicate Valid()
      reads this, Repr
    {
      ChainValid() && length == |Nodes|
    }

    /**
     * Sets `head` to the seed and the counter to 1 for any seed, 0 for null.
     * The counter matches the chain only when the seed has no successor.
     */
    constructor (seed: Node?<T>)
      ensures head == seed && length == (if seed == null then 0 else 1)
      ensures (exists c :: IsChain(seed, c)) ==> ChainValid()
      ensures Repr == (set k | 0 <= k < |Nodes| :: Nodes[k] as object) + {this}
      ensures seed == null ==> Valid() && Contents == [] && Repr == {this}
      ensures seed != null && seed.next == null ==>
        Valid() && Nodes == [seed] && Contents == [seed.value] && Repr == {this, seed}
    {
      head := seed;
      length := if seed != null then 1 else 0;
      if seed == null {
        Nodes, Contents, Repr := [], [], {this};
      } else if seed.next == null {
        var last: Node<T> := seed;
        Nodes, Contents, Repr := [last], [last.value], {this, last};
      } else if exists c :: IsChain(seed, c) {
        ghost var c :| IsChain(seed, c);
        Nodes, Contents := c, Values(c);
        Repr := (set k | 0 <= k < |c| :: c[k] as object) + {this};
      } else {
        Nodes, Contents, Repr := [], [], {this};
      }
    }

    /** The counter. It is the number of nodes exactly when the list is valid. */
    function Size(): (n: nat)
      reads this, Repr
      requires ChainValid()
      ensures n == |Nodes| <==> Valid()
      ensures Valid() ==> n == |Contents|
    {
      length
    }

    /** The first node, or null when the list is empty. */
    function Head(): (h: Node?<T>)
      reads this, Repr
      requires ChainValid()
      ensures h == null <==> Contents == []
      ensures h != null ==> h == Nodes[0] && h.value == Contents[0]
    {
      head
    }

    /** The counter equals the number of nodes reachable from `head`, whatever chain is exhibited. */
    lemma SizeCountsReachable(nodes: seq<Node<T>>)
      requires Valid() && IsChain(head, nodes)
      ensures Size() == |nodes| && nodes == Nodes
    {
      ChainUnique(head, nodes, Nodes);
    }

    /** Links a new node holding `value` after the last node. */
    method Append(value: T)
      requires ChainValid()
      modifies Repr
      ensures ChainValid() && fresh(Repr - old(Repr))
      ensures Contents == old(Contents) + [value]
      ensures length == old(length) + 1 && (Valid() <==> old(Valid()))
      ensures |Nodes| == |old(Nodes)| + 1 && Nodes[..|old(Nodes)|] == old(Nodes)
      ensures fresh(Nodes[|Nodes| - 1]) && Nodes[|Nodes| - 1].next == null
      ensures head == if old(head) == null then Nodes[|Nodes| - 1] else old(head)
    {
      var node := new Node(value);
      if head == null {
        head := node;
        length := length + 1;
        Nodes, Contents, Repr := [node], [value], Repr + {node};
        return;
      }

      var dummy := head;
      ghost var i := 0;
      while dummy.next != null
        modifies {}
        invariant 0 <= i < |Nodes| && dummy == Nodes[i]
        decreases |Nodes| - i
      {
        ChainNext(head, Nodes, i);
        dummy := dummy.next;
        i := i + 1;
      }
      ChainNext(head, Nodes, i);
      ChainAcyclic(head, Nodes);

      dummy.next := node;
      length := length + 1;
      Nodes, Contents, Repr := Nodes + [node], Contents + [value], Repr + {node};
    }

    /** Makes a new node holding `value` the head, linked to the old head. */
    method Prepend(value: T)
      requires ChainValid()
      modifies this
      ensures ChainValid() && fresh(Repr - old(Repr))
      ensures Contents == [value] + old(Contents)
      ensures length == old(length) + 1 && (Valid() <==> old(Valid()))
      ensures fresh(head) && Nodes == [head] + old(Nodes) && head.next == old(head)
    {
      var node := new Node(value);
      if head == null {
        head := node;
        length := length + 1;
        Nodes, Contents, Repr := [node], [value], Repr + {node};
        return;
      }

      var temp := head;
      head := node;
      head.next := temp;
      length := length + 1;
      Nodes, Contents, Repr := [node] + Nodes, [value] + Contents, Repr + {node};
    }

    /** Walks from `head` to the node whose `next` is null; null for an empty list. */
    method Tail() returns (t: Node?<T>)
      requires ChainValid()
      ensures t == null <==> Contents == []
      ensures t != null ==> t == Nodes[|Nodes| - 1] && t.next == null
      ensures t != null ==> t.value == Contents[|Contents| - 1]
    {
      if head == null {
        return null;
      }
      var dummy := head;
      ghost var i := 0;
      while dummy.next != null
        invariant 0 <= i < |Nodes| && dummy == Nodes[i]
        decreases |Nodes| - i
      {
        ChainNext(head, Nodes, i);
        dummy := dummy.next;
        i := i + 1;
      }
      ChainNext(head, Nodes, i);
      return dummy;
    }
  }

  /** The constructor together with its argument check: anything but a node or null is a TypeError. */
  method Create<T>(arg: HeadArg<T>) returns (r: Result<LinkedList<T>, Error>)
    ensures r.Failure? <==> arg.OtherValue?
    ensures r.Failure? ==> r.error == TypeError(HeadNotANode)
    ensures r.Success? ==> fresh(r.value) && r.value.head == arg.node
    ensures r.Success? ==> r.value.length == if arg.node == null then 0 else 1
    ensures r.Success? && (exists c :: IsChain(arg.node, c)) ==> r.value.ChainValid()
    ensures r.Success? && arg.node == null ==> r.value.Valid() && r.value.Contents == []
    ensures r.Success? && arg.node != null && arg.node.next == null ==>
      r.value.Valid() && r.value.Contents == [arg.node.value]
  {
    match arg
    case NodeOrNull(seed) =>
      var list := new LinkedList(seed);
      r := Success(list);
    case OtherValue =>
      r := Failure(TypeError(HeadNotANode));
  }

  /**
   * A list whose head already has a successor but whose counter is 1, as the
   * constructor leaves it for a chained seed, is not valid: every chain from
   * its head is longer than the counter says.
   */
  lemma ChainedSeedMiscounted<T>(list: LinkedList<T>)
    requires list.head != null && list.head.next != null && list.length == 1
    ensures !list.Valid()
    ensures forall nodes :: IsChain(list.head, nodes) ==> list.length < |nodes|
  {
    forall nodes | IsChain(list.head, nodes)
      ensures list.length < |nodes|
    {
      ChainNext(list.head, nodes, 0);
    }
  }

  /**
   * What the source does with a seed that already has a successor: `tail()`
   * finds the real last node and `append` links after it, while the counter
   * stays one behind the chain. Also the `Node` constructor's default successor.
   */
  method ChainedSeedClient()
  {
    var second := new Node(2);
    assert second.value == 2 && second.next == null;
    var first := new Node(1, second);
    assert first.next == second && first.next.value == 2;
    assert IsChain(first, [first, second]);
    var list := new LinkedList(first);
    assert IsChain(first, [first, second]);
    ChainUnique(first, list.Nodes, [first, second]);
    assert list.Size() == 1 && !list.Valid();
    var t := list.Tail();
    assert t == second;
    list.Append(3);
    assert list.Contents == [1, 2, 3] && list.Size() == 2;
  }

  /** An insertion at one end of the list. */
  datatype Insertion<T> = AppendOp(v: T) | PrependOp(v: T)

  /** The values a list holds after applying `ops`, in order, to a list holding `s`. */
  function Replay<T>(s: seq<T>, ops: seq<Insertion<T>>): seq<T>
    decreases |ops|
  {
    if ops == [] then s
    else
      var s' := match ops[0]
        case AppendOp(v) => s + [v]
        case PrependOp(v) => [v] + s;
      Replay(s', ops[1..])
  }

  /** Every insertion adds exactly one value. */
  lemma {:induction false} ReplayLength<T>(s: seq<T>, ops: seq<Insertion<T>>)
    ensures |Replay(s, ops)| == |s| + |ops|
    decreases |ops|
  {
    if ops != [] {
      var s' := match ops[0]
        case AppendOp(v) => s + [v]
        case PrependOp(v) => [v] + s;
      ReplayLength(s', ops[1..]);
    }
  }

  /**
   * Starting from an empty list, any sequence of appends and prepends leaves a
   * valid list: acyclic, ending in null, with the counter equal to the number
   * of insertions and to the number of reachable nodes.
   */
  method Build<T>(ops: seq<Insertion<T>>) returns (list: LinkedList<T>)
    ensures fresh(list) && fresh(list.Repr) && list.Valid()
    ensures list.Contents == Replay([], ops)
    ensures list.Size() == |ops|
  {
    list := new LinkedList(null);
    var i := 0;
    while i < |ops|
      invariant 0 <= i <= |ops|
      invariant fresh(list) && fresh(list.Repr) && list.Valid()
      invariant Replay(list.Contents, ops[i..]) == Replay([], ops)
      invariant list.Size() == i
    {
      match ops[i] {
        case AppendOp(v) => list.Append(v);
        case PrependOp(v) => list.Prepend(v);
      }
      assert ops[i..][1..] == ops[i + 1..];
      i := i + 1;
    }
    assert ops[i..] == [];
    ReplayLength([], ops);
  }
}
