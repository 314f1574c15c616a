# Singly-linked list

A Dafny model of `src/linkedList.js`, a mutable singly-linked list. A `Node` holds a
`value` and a `next` link. A `LinkedList` keeps the first node in `head` and a
private counter, `#length`, which is `length` here. The list can be:

- constructed empty or from a seed node, with a `TypeError` for any other argument;
- queried with `size()`, `head()` and `tail()`;
- extended at the end with `append`, which walks the chain and links a new node;
- extended at the front with `prepend`.

The model is imperative, like the source. `Node` and `LinkedList` are classes, and
the methods change their fields in place. `Append` and `Tail` walk the chain with
a loop, as the source does. Each list carries three ghost fields:

- `Nodes`, the chain reached from `head` by following `next` until null;
- `Contents`, the values of those nodes in order;
- `Repr`, the objects the list may touch.

`ChainValid()` ties the real fields to the ghost ones: the chain starts at `head`,
each node's `next` is the following node, the last node's `next` is null, and the
nodes hold `Contents`. `append`, `prepend`, `tail` and `head` rely on nothing more,
so they are modelled on any list that satisfies it. `Valid()` adds that the counter
equals `|Nodes|`. `append` and `prepend` add 1 to the counter in every case, so
they keep `Valid()` when it held and keep a wrong count wrong.

Two facts are proved as lemmas about the chain predicate `IsChain` rather than
written into the invariant: no node repeats in the chain, so
the list is acyclic and every walk ends; and the chain reached from a node is
unique, so the counter is the number of reachable nodes.

The source file has both a field `head` and a prototype method `head()` (line 75).
The constructor always sets the own field `head` (line 12), and an own field hides
a prototype method of the same name. So `list.head` is always the field, and calling
`list.head()` raises a TypeError on every instance. The model keeps the field `head`.
Its function `Head()` stands for reading the field `list.head`.

The constructor sets the counter to 1 for any seed node (line 13), even one that
already has a successor. The model does the same. When the seed starts a chain
that ends in null, the new list satisfies `ChainValid()`, and `Nodes` is that whole
chain. It satisfies `Valid()` only when the seed is null or has no successor.
`ChainedSeedMiscounted` proves that a list whose head has a successor but whose
counter is 1 is not valid, because every chain from its head is longer than the
counter. The method `ChainedSeedClient` shows the source's behaviour on such a list:

- seed with `new Node(1, new Node(2))`;
- `tail()` returns the node holding 2;
- `append(3)` gives the values 1, 2, 3, with `size()` equal to 2.

`src/linkedList.js` stores no tail field: `tail()` walks the chain on every call.
It has no `at`, `pop`, `contains`, `findIndex`, `insertAt`, `removeAt` or
`toString`. The model has none of them either.

## Model

| member | source | states |
|---|---|---|
| LinkedLists.Node.constructor | src/linkedList.js:2-5 | a new node stores exactly the given value and successor, and the successor defaults to null |
| LinkedLists.LinkedList.constructor | src/linkedList.js:10-15 | `head` is the seed; the counter is 1 for a seed and 0 for null; whenever the seed's chain ends in null, the list's chain is that whole chain; the list is valid when the seed is null or has no successor, and then it holds nothing or just the seed's value |
| LinkedLists.Create | src/linkedList.js:10-14 | fails with `TypeError("head must be an instance of Node.")` exactly when the argument is neither a node nor null; otherwise yields a fresh list headed by the argument with counter 1 or 0, with a well-formed chain whenever the argument's chain ends in null, valid and empty for null and valid holding the seed's value for a seed without a successor |
| LinkedLists.LinkedList.Size | src/linkedList.js:17-19 | returns the counter; it equals the number of nodes in the chain exactly when the list is valid, and then it also equals the number of values |
| LinkedLists.LinkedList.Head | src/linkedList.js:75-77 | on any list with a well-formed chain: null exactly when the list is empty; otherwise the first node of the chain, holding the first value |
| LinkedLists.LinkedList.Append | src/linkedList.js:25-40 | on any list with a well-formed chain: the values become the old values followed by `value`; the counter grows by exactly 1, so the list is valid afterwards exactly when it was before; the old nodes stay in order; the new last node is fresh and its `next` is null; an empty list gets the new node as its head, and otherwise the head is unchanged; the chain stays well-formed |
| LinkedLists.LinkedList.Prepend | src/linkedList.js:47-59 | on any list with a well-formed chain: the values become `value` followed by the old values; the counter grows by exactly 1, so the list is valid afterwards exactly when it was before; the new head is fresh, its `next` is the old head, and the old nodes follow it; the chain stays well-formed |
| LinkedLists.LinkedList.Tail | src/linkedList.js:65-73 | on any list with a well-formed chain: null exactly when the list is empty; otherwise the last node of the chain from `head`, whose `next` is null and which holds the last value |
| LinkedLists.ChainAcyclic | src/linkedList.js:33-36 | a chain from a node that ends in null never visits a node twice, so the list is acyclic and the walks in `append` and `tail` end |
| LinkedLists.ChainPrefixAgree | src/linkedList.js:67-70 | two chains from the same node have the same node at every position both reach |
| LinkedLists.ChainUnique | src/linkedList.js:67-70 | the chain from a node is unique: any two chains from the same node are equal |
| LinkedLists.LinkedList.SizeCountsReachable | src/linkedList.js:17-19 | for a valid list, any chain from `head` has exactly `size()` nodes and is the list's own chain |
| LinkedLists.ChainedSeedMiscounted | src/linkedList.js:12-13 | a list whose head has a successor but whose counter is 1, as the constructor leaves a chained seed, is not valid, and every chain from its head is longer than its counter |
| LinkedLists.ReplayLength | src/linkedList.js:25-59 | each append or prepend adds exactly one value, so replaying a sequence of insertions adds as many values as there are insertions |
| LinkedLists.Build | src/linkedList.js:25-59 | starting from an empty list, any sequence of appends and prepends leaves a valid list whose values are the replayed insertions and whose size is the number of insertions |

## Left out

- Default values: `new Node()`, `append()` and `prepend()` default a missing value to JavaScript `null`. The value type `T` here has no null, so callers always pass a value. The successor's default of null is modelled. A missing list seed is passed as `NodeOrNull(null)`.
- The `instanceof Node` test is modelled by the argument type `HeadArg`. An instance of a subclass of `Node` counts as a node; subclasses are not modelled.
- LinkedLists.LinkedList.constructor: promises `Valid()` only for a null seed or a seed without a successor, because the source keeps a counter of 1 for a chained seed. It promises `ChainValid()` only when the seed's chain ends in null. For a seed whose chain is cyclic the source builds the list, but its `tail()` and `append` never return; the model promises nothing about such a list.
- Aliasing of a seed node: a caller that keeps the seed, or seeds two lists with one node, can relink nodes behind the list's back. `Repr` includes the seed and its chain, so the frames show which lists such a change may break. The model does not restrict this further.
- JavaScript numbers: the counter is an unbounded `nat`. Precision loss past 2^53 nodes is not modelled.
- The test file `src/linkedList.test.js` is not part of this model. Its checks that the `Node` constructor stores the given value and successor, and that the successor defaults to null, are stated by that constructor's contract. Its checks that the value defaults to `null` are not modelled (see the first line).
