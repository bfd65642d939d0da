/** The doubly linked list of src/linked_list.c.  Its nodes come from an allocator that the list does
    not know, so they are addresses in memory; each holds the words `data`, `next` and `prev`. */
module LinkedList {
  import opened Memory

  /** sizeof(node_t) and the offsets of its fields. */
  const NODE: nat := 24
  const NEXT: nat := 8
  const PREV: nat := 16

  ghost predicate Apart(a: nat, n: nat, b: nat, k: nat) {
    a + n <= b || b + k <= a
  }

  /** The range [a, a + n) meets no node. */
  ghost predicate Clear(nodes: seq<nat>, a: nat, n: nat) {
    forall i {:trigger nodes[i]} :: 0 <= i < |nodes| ==> Apart(nodes[i], NODE, a, n)
  }

  /** The nodes are distinct objects in memory. */
  ghost predicate Placed(nodes: seq<nat>, limit: nat) {
    && limit <= WORD_LIMIT
    && (forall i {:trigger nodes[i]} :: 0 <= i < |nodes| ==> 0 < nodes[i] && nodes[i] + NODE <= limit)
    && forall i, j {:trigger nodes[i], nodes[j]} :: 0 <= i < j < |nodes| ==> Apart(nodes[i], NODE, nodes[j], NODE)
  }

  function NextOf(nodes: seq<nat>, i: nat): nat
    requires i < |nodes|
  {
    if i + 1 < |nodes| then nodes[i + 1] else NULL
  }

  function PrevOf(nodes: seq<nat>, i: nat): nat
    requires i < |nodes|
  {
    if i > 0 then nodes[i - 1] else NULL
  }

  /** The links in memory run through `nodes` in both directions. */
  ghost predicate Linked(m: seq<byte>, nodes: seq<nat>)
    requires Placed(nodes, |m|)
  {
    forall i {:trigger nodes[i]} :: 0 <= i < |nodes| ==>
      && Word(m, nodes[i] + NEXT) == NextOf(nodes, i)
      && Word(m, nodes[i] + PREV) == PrevOf(nodes, i)
  }

  /** The data pointers, in order. */
  ghost function Data(m: seq<byte>, nodes: seq<nat>): (d: seq<nat>)
    requires Placed(nodes, |m|)
    ensures |d| == |nodes|
    ensures forall i {:trigger d[i]} :: 0 <= i < |d| ==> d[i] == Word(m, nodes[i])
  {
    seq(|nodes|, i requires 0 <= i < |nodes| => Word(m, nodes[i]))
  }

  function Without<T>(s: seq<T>, i: nat): seq<T>
    requires i < |s|
  {
    s[..i] + s[i + 1..]
  }

  /** Only the nodes in `nodes` are written. */
  ghost predicate WritesOnly(m: seq<byte>, r: seq<byte>, nodes: seq<nat>) {
    && |m| == |r|
    && forall a: nat, n: nat {:trigger Clear(nodes, a, n)} :: Clear(nodes, a, n) ==> SameBytes(m, r, a, n)
  }

  // ---------------------------------------------------------------- what the writes do

  /** Node `i` is as before, except for one field of node `k`. */
  ghost predicate Stays(m: seq<byte>, r: seq<byte>, nodes: seq<nat>, i: nat, k: nat, field: nat)
    requires Placed(nodes, |m|) && |m| == |r| && i < |nodes|
  {
    && ((i == k && field == 0) || Word(r, nodes[i]) == Word(m, nodes[i]))
    && ((i == k && field == NEXT) || Word(r, nodes[i] + NEXT) == Word(m, nodes[i] + NEXT))
    && ((i == k && field == PREV) || Word(r, nodes[i] + PREV) == Word(m, nodes[i] + PREV))
  }

  /** `node->field = w` for node `k`. */
  ghost predicate FieldSet(m: seq<byte>, r: seq<byte>, nodes: seq<nat>, k: nat, field: nat, w: nat)
    requires Placed(nodes, |m|)
  {
    && |m| == |r| && k < |nodes| && field in {0, NEXT, PREV}
    && Word(r, nodes[k] + field) == w
    && WritesOnly(m, r, nodes)
    && forall i {:trigger nodes[i]} :: 0 <= i < |nodes| ==> Stays(m, r, nodes, i, k, field)
  }

  lemma SetField(m: seq<byte>, nodes: seq<nat>, k: nat, field: nat, w: nat)
    requires Placed(nodes, |m|) && k < |nodes| && field in {0, NEXT, PREV} && w < WORD_LIMIT
    ensures nodes[k] + field + WORD <= |m|
    ensures FieldSet(m, PutWord(m, nodes[k] + field, w), nodes, k, field, w)
  {
    var at := nodes[k] + field;
    var r := PutWord(m, at, w);
    WordAfterPut(m, at, w);
    forall i | 0 <= i < |nodes| ensures Stays(m, r, nodes, i, k, field) {
      OtherNode(m, nodes, k, field, w, i);
    }
    forall a: nat, n: nat | Clear(nodes, a, n) ensures SameBytes(m, r, a, n) {
      assert Apart(nodes[k], NODE, a, n);
      BytesElsewhere(m, at, w, a, n);
    }
  }

  lemma OtherNode(m: seq<byte>, nodes: seq<nat>, k: nat, field: nat, w: nat, i: nat)
    requires Placed(nodes, |m|) && k < |nodes| && i < |nodes| && field in {0, NEXT, PREV} && w < WORD_LIMIT
    ensures nodes[k] + field + WORD <= |m|
    ensures Stays(m, PutWord(m, nodes[k] + field, w), nodes, i, k, field)
  {
    hide PutWord;
    var at := nodes[k] + field;
    assert i < k ==> Apart(nodes[i], NODE, nodes[k], NODE);
    assert k < i ==> Apart(nodes[k], NODE, nodes[i], NODE);
    if i != k || field != 0 {
      FieldWritten(m, at, w, nodes[i]);
    }
    if i != k || field != NEXT {
      FieldWritten(m, at, w, nodes[i] + NEXT);
    }
    if i != k || field != PREV {
      FieldWritten(m, at, w, nodes[i] + PREV);
    }
  }

  lemma FieldWritten(m: seq<byte>, at: nat, w: nat, b: nat)
    requires at + WORD <= |m| && b + WORD <= |m| && (b + WORD <= at || at + WORD <= b)
    ensures Word(PutWord(m, at, w), b) == Word(m, b)
  {
    WordAfterSplice(m, at, Encode(w, WORD), b);
  }

  lemma WritesNothing(m: seq<byte>, nodes: seq<nat>)
    ensures WritesOnly(m, m, nodes)
  {
  }

  lemma WritesChain(m: seq<byte>, r: seq<byte>, s: seq<byte>, nodes: seq<nat>)
    requires WritesOnly(m, r, nodes) && WritesOnly(r, s, nodes)
    ensures WritesOnly(m, s, nodes)
  {
    forall a: nat, n: nat | Clear(nodes, a, n) ensures SameBytes(m, s, a, n) {
      assert SameBytes(m, r, a, n) && SameBytes(r, s, a, n);
    }
  }

  // ---------------------------------------------------------------- push and remove

  /** `node` is a fresh object, which meets none of the nodes. */
  ghost predicate Fresh(nodes: seq<nat>, node: nat, limit: nat) {
    0 < node && node + NODE <= limit && Clear(nodes, node, NODE)
  }

  lemma PlacedPush(nodes: seq<nat>, node: nat, limit: nat)
    requires Placed(nodes, limit) && Fresh(nodes, node, limit)
    ensures Placed(nodes + [node], limit)
  {
  }

  /** The first element. */
  lemma PushFirst(m0: seq<byte>, m1: seq<byte>, m2: seq<byte>, r: seq<byte>, node: nat, data: nat)
    requires Placed([node], |m0|)
    requires FieldSet(m0, m1, [node], 0, NEXT, NULL)
    requires FieldSet(m1, m2, [node], 0, PREV, NULL)
    requires FieldSet(m2, r, [node], 0, 0, data)
    ensures |m0| == |r| && Linked(r, [node]) && Data(r, [node]) == [data] && WritesOnly(m0, r, [node])
  {
    var ns := [node];
    assert ns[0] == node && Stays(m1, m2, ns, 0, 0, PREV) && Stays(m2, r, ns, 0, 0, 0);
    WritesChain(m0, m1, m2, ns);
    WritesChain(m0, m2, r, ns);
  }

  /** The last node of `ns` is appended to `nodes`. */
  lemma PushLinks(m0: seq<byte>, m1: seq<byte>, m2: seq<byte>, m3: seq<byte>, r: seq<byte>, nodes: seq<nat>,
      ns: seq<nat>, data: nat)
    requires Placed(nodes, |m0|) && Linked(m0, nodes) && Placed(ns, |m0|)
    requires |ns| == |nodes| + 1 >= 2 && forall i {:trigger ns[i]} :: 0 <= i < |nodes| ==> ns[i] == nodes[i]
    requires FieldSet(m0, m1, ns, |ns| - 1, NEXT, NULL)
    requires FieldSet(m1, m2, ns, |ns| - 2, NEXT, ns[|ns| - 1])
    requires FieldSet(m2, m3, ns, |ns| - 1, PREV, ns[|ns| - 2])
    requires FieldSet(m3, r, ns, |ns| - 1, 0, data)
    ensures Linked(r, ns)
    ensures forall i {:trigger ns[i]} :: 0 <= i < |ns| ==>
      Word(r, ns[i]) == if i < |nodes| then Word(m0, nodes[i]) else data
  {
    hide WritesOnly, Word;
    forall i | 0 <= i < |ns|
      ensures Word(r, ns[i] + NEXT) == NextOf(ns, i) && Word(r, ns[i] + PREV) == PrevOf(ns, i)
      ensures Word(r, ns[i]) == if i < |nodes| then Word(m0, nodes[i]) else data
    {
      if i < |nodes| {
        assert NextOf(nodes, i) == if i + 1 < |nodes| then ns[i + 1] else NULL;
        assert PrevOf(nodes, i) == if i > 0 then ns[i - 1] else NULL;
      }
      PushNode(m0, m1, m2, m3, r, ns, data, i);
    }
  }

  lemma PushWrites(m0: seq<byte>, m1: seq<byte>, m2: seq<byte>, m3: seq<byte>, r: seq<byte>, ns: seq<nat>, data: nat)
    requires Placed(ns, |m0|) && |ns| >= 2
    requires FieldSet(m0, m1, ns, |ns| - 1, NEXT, NULL)
    requires FieldSet(m1, m2, ns, |ns| - 2, NEXT, ns[|ns| - 1])
    requires FieldSet(m2, m3, ns, |ns| - 1, PREV, ns[|ns| - 2])
    requires FieldSet(m3, r, ns, |ns| - 1, 0, data)
    ensures WritesOnly(m0, r, ns)
  {
    hide Stays, Word;
    WritesChain(m0, m1, m2, ns);
    WritesChain(m0, m2, m3, ns);
    WritesChain(m0, m3, r, ns);
  }

  /** Node `i` after the four writes that append the last node of `ns`. */
  lemma PushNode(m0: seq<byte>, m1: seq<byte>, m2: seq<byte>, m3: seq<byte>, r: seq<byte>, ns: seq<nat>, data: nat,
      i: nat)
    requires Placed(ns, |m0|) && |ns| >= 2 && i < |ns|
    requires FieldSet(m0, m1, ns, |ns| - 1, NEXT, NULL)
    requires FieldSet(m1, m2, ns, |ns| - 2, NEXT, ns[|ns| - 1])
    requires FieldSet(m2, m3, ns, |ns| - 1, PREV, ns[|ns| - 2])
    requires FieldSet(m3, r, ns, |ns| - 1, 0, data)
    requires i + 1 < |ns| ==>
      Word(m0, ns[i] + PREV) == PrevOf(ns, i) && (i + 2 < |ns| ==> Word(m0, ns[i] + NEXT) == NextOf(ns, i))
    ensures Word(r, ns[i] + NEXT) == NextOf(ns, i) && Word(r, ns[i] + PREV) == PrevOf(ns, i)
    ensures Word(r, ns[i]) == if i + 1 == |ns| then data else Word(m0, ns[i])
  {
    hide WritesOnly, Word;
    assert Stays(m0, m1, ns, i, |ns| - 1, NEXT) && Stays(m1, m2, ns, i, |ns| - 2, NEXT);
    assert Stays(m2, m3, ns, i, |ns| - 1, PREV) && Stays(m3, r, ns, i, |ns| - 1, 0);
  }

  lemma DataPush(m: seq<byte>, r: seq<byte>, nodes: seq<nat>, ns: seq<nat>, data: nat)
    requires Placed(nodes, |m|) && |m| == |r| && Placed(ns, |m|)
    requires |ns| == |nodes| + 1
    requires forall i {:trigger ns[i]} :: 0 <= i < |ns| ==>
      Word(r, ns[i]) == if i < |nodes| then Word(m, nodes[i]) else data
    ensures Data(r, ns) == Data(m, nodes) + [data]
  {
  }

  lemma Pushed(m0: seq<byte>, m1: seq<byte>, m2: seq<byte>, m3: seq<byte>, r: seq<byte>, nodes: seq<nat>,
      ns: seq<nat>, node: nat, data: nat)
    requires Placed(nodes, |m0|) && Linked(m0, nodes) && nodes != [] && Placed(ns, |m0|) && ns == nodes + [node]
    requires FieldSet(m0, m1, ns, |ns| - 1, NEXT, NULL)
    requires FieldSet(m1, m2, ns, |ns| - 2, NEXT, ns[|ns| - 1])
    requires FieldSet(m2, m3, ns, |ns| - 1, PREV, ns[|ns| - 2])
    requires FieldSet(m3, r, ns, |ns| - 1, 0, data)
    ensures |m0| == |r| && Linked(r, ns) && Data(r, ns) == Data(m0, nodes) + [data] && WritesOnly(m0, r, ns)
  {
    hide Linked, Data, Stays;
    PushLinks(m0, m1, m2, m3, r, nodes, ns, data);
    PushWrites(m0, m1, m2, m3, r, ns, data);
    DataPush(m0, r, nodes, ns, data);
  }

  /** The four writes that take node `i` out of `nodes`; the first two only if there is such a
      neighbour. */
  ghost predicate Unlinks(m0: seq<byte>, m1: seq<byte>, m2: seq<byte>, m3: seq<byte>, r: seq<byte>,
      nodes: seq<nat>, i: nat)
    requires Placed(nodes, |m0|) && i < |nodes|
  {
    && (if i > 0 then FieldSet(m0, m1, nodes, i - 1, NEXT, NextOf(nodes, i)) else m1 == m0)
    && |m1| == |m0|
    && (if i + 1 < |nodes| then FieldSet(m1, m2, nodes, i + 1, PREV, PrevOf(nodes, i)) else m2 == m1)
    && |m2| == |m1|
    && FieldSet(m2, m3, nodes, i, NEXT, NULL)
    && |m3| == |m2|
    && FieldSet(m3, r, nodes, i, PREV, NULL)
  }

  lemma UnlinkWrites(m0: seq<byte>, m1: seq<byte>, m2: seq<byte>, m3: seq<byte>, r: seq<byte>, nodes: seq<nat>, i: nat)
    requires Placed(nodes, |m0|) && i < |nodes| && Unlinks(m0, m1, m2, m3, r, nodes, i)
    ensures WritesOnly(m0, r, nodes)
  {
    hide Stays, Word;
    WritesNothing(m0, nodes);
    WritesNothing(m1, nodes);
    WritesChain(m0, m1, m2, nodes);
    WritesChain(m0, m2, m3, nodes);
    WritesChain(m0, m3, r, nodes);
  }

  /** What becomes of another node. */
  lemma UnlinkNode(m0: seq<byte>, m1: seq<byte>, m2: seq<byte>, m3: seq<byte>, r: seq<byte>, nodes: seq<nat>,
      i: nat, k: nat)
    requires Placed(nodes, |m0|) && i < |nodes| && Unlinks(m0, m1, m2, m3, r, nodes, i)
    requires k < |nodes| && k != i
    ensures |m0| == |r| && Word(r, nodes[k]) == Word(m0, nodes[k])
    ensures Word(r, nodes[k] + NEXT) == if k + 1 == i then NextOf(nodes, i) else Word(m0, nodes[k] + NEXT)
    ensures Word(r, nodes[k] + PREV) == if k == i + 1 then PrevOf(nodes, i) else Word(m0, nodes[k] + PREV)
  {
    hide WritesOnly, Word;
    if i > 0 {
      assert Stays(m0, m1, nodes, k, i - 1, NEXT);
    }
    if i + 1 < |nodes| {
      assert Stays(m1, m2, nodes, k, i + 1, PREV);
    }
    assert Stays(m2, m3, nodes, k, i, NEXT) && Stays(m3, r, nodes, k, i, PREV);
  }

  /** The node taken out is left with empty links. */
  lemma NodeCleared(m2: seq<byte>, m3: seq<byte>, r: seq<byte>, nodes: seq<nat>, i: nat)
    requires Placed(nodes, |m2|) && FieldSet(m2, m3, nodes, i, NEXT, NULL)
    requires |m3| == |m2| && FieldSet(m3, r, nodes, i, PREV, NULL)
    ensures |r| == |m2| && i < |nodes| && nodes[i] + NODE <= |r|
    ensures Word(r, nodes[i] + NEXT) == NULL && Word(r, nodes[i] + PREV) == NULL
  {
    hide WritesOnly, Word;
    assert Stays(m3, r, nodes, i, i, PREV);
  }

  lemma PlacedWithout(nodes: seq<nat>, i: nat, limit: nat)
    requires Placed(nodes, limit) && i < |nodes|
    ensures Placed(Without(nodes, i), limit)
    ensures Fresh(Without(nodes, i), nodes[i], limit)
  {
  }

  lemma EndsWithout(nodes: seq<nat>, i: nat)
    requires i < |nodes|
    ensures |Without(nodes, i)| == |nodes| - 1
    ensures |nodes| >= 2 ==>
      && Without(nodes, i)[0] == nodes[if i == 0 then 1 else 0]
      && Without(nodes, i)[|nodes| - 2] == nodes[if i == |nodes| - 1 then i - 1 else |nodes| - 1]
  {
  }

  /** The neighbours in the shorter list. */
  lemma NeighboursWithout(nodes: seq<nat>, ns: seq<nat>, i: nat, j: nat, k: nat)
    requires i < |nodes| && ns == Without(nodes, i) && j < |ns| && k == if j < i then j else j + 1
    ensures k < |nodes| && k != i && ns[j] == nodes[k]
    ensures NextOf(ns, j) == if k + 1 == i then NextOf(nodes, i) else NextOf(nodes, k)
    ensures PrevOf(ns, j) == if k == i + 1 then PrevOf(nodes, i) else PrevOf(nodes, k)
  {
  }

  /** The remaining nodes are linked past the one taken out. */
  lemma UnlinkedAt(m0: seq<byte>, m1: seq<byte>, m2: seq<byte>, m3: seq<byte>, r: seq<byte>, nodes: seq<nat>,
      ns: seq<nat>, i: nat, j: nat)
    requires Placed(nodes, |m0|) && Linked(m0, nodes) && i < |nodes| && Unlinks(m0, m1, m2, m3, r, nodes, i)
    requires |m0| == |r| && Placed(ns, |r|) && ns == Without(nodes, i) && j < |ns|
    ensures Word(r, ns[j] + NEXT) == NextOf(ns, j) && Word(r, ns[j] + PREV) == PrevOf(ns, j)
    ensures Word(r, ns[j]) == Word(m0, nodes[if j < i then j else j + 1])
  {
    hide Unlinks, Word, NextOf, PrevOf, Without;
    var k := if j < i then j else j + 1;
    NeighboursWithout(nodes, ns, i, j, k);
    UnlinkNode(m0, m1, m2, m3, r, nodes, i, k);
  }

  lemma Unlinked(m0: seq<byte>, m1: seq<byte>, m2: seq<byte>, m3: seq<byte>, r: seq<byte>, nodes: seq<nat>,
      ns: seq<nat>, i: nat)
    requires Placed(nodes, |m0|) && Linked(m0, nodes) && i < |nodes| && Unlinks(m0, m1, m2, m3, r, nodes, i)
    requires ns == Without(nodes, i) && Placed(ns, |m0|)
    ensures |m0| == |r| && Linked(r, ns) && Data(r, ns) == Without(Data(m0, nodes), i)
    ensures WritesOnly(m0, r, nodes)
  {
    hide Unlinks, Word, WritesOnly, Linked, Data, Without;
    UnlinkWrites(m0, m1, m2, m3, r, nodes, i);
    UnlinkLength(m0, r, nodes);
    UnlinkedAll(m0, m1, m2, m3, r, nodes, ns, i);
    DataWithout(m0, r, nodes, ns, i);
  }

  lemma UnlinkedAll(m0: seq<byte>, m1: seq<byte>, m2: seq<byte>, m3: seq<byte>, r: seq<byte>, nodes: seq<nat>,
      ns: seq<nat>, i: nat)
    requires Placed(nodes, |m0|) && Linked(m0, nodes) && i < |nodes| && Unlinks(m0, m1, m2, m3, r, nodes, i)
    requires |m0| == |r| && ns == Without(nodes, i) && Placed(ns, |r|)
    ensures Linked(r, ns) && |ns| == |nodes| - 1
    ensures forall j {:trigger ns[j]} :: 0 <= j < |ns| ==> Word(r, ns[j]) == Word(m0, nodes[if j < i then j else j + 1])
  {
    hide Unlinks, Word, NextOf, PrevOf;
    forall j | 0 <= j < |ns|
      ensures Word(r, ns[j] + NEXT) == NextOf(ns, j) && Word(r, ns[j] + PREV) == PrevOf(ns, j)
      ensures Word(r, ns[j]) == Word(m0, nodes[if j < i then j else j + 1])
    {
      UnlinkedAt(m0, m1, m2, m3, r, nodes, ns, i, j);
    }
  }

  lemma UnlinkLength(m0: seq<byte>, r: seq<byte>, nodes: seq<nat>)
    requires WritesOnly(m0, r, nodes)
    ensures |m0| == |r|
  {
  }

  lemma DataWithout(m: seq<byte>, r: seq<byte>, nodes: seq<nat>, ns: seq<nat>, i: nat)
    requires Placed(nodes, |m|) && |m| == |r| && Placed(ns, |m|) && i < |nodes| && ns == Without(nodes, i)
    requires forall j {:trigger ns[j]} :: 0 <= j < |ns| ==> Word(r, ns[j]) == Word(m, nodes[if j < i then j else j + 1])
    ensures Data(r, ns) == Without(Data(m, nodes), i)
  {
  }

  // ---------------------------------------------------------------- linked_list_t

  /** The fields of the list describe `nodes`.  `first` means nothing while the list is empty: it is
      left behind when the sole element is removed. */
  ghost predicate Represents(m: seq<byte>, size: nat, first: nat, last: nat, nodes: seq<nat>) {
    && Placed(nodes, |m|)
    && Linked(m, nodes)
    && size == |nodes|
    && (size > 0 ==> first == nodes[0] && last == nodes[size - 1])
  }

  lemma Ends(m: seq<byte>, size: nat, first: nat, last: nat, nodes: seq<nat>)
    requires Represents(m, size, first, last, nodes)
    ensures size == |nodes| && |m| <= WORD_LIMIT
    ensures size > 0 ==> first == nodes[0] && last == nodes[size - 1]
    ensures NULL !in nodes
  {
  }

  /** The node that is reached from `node` by following `field` `k` times. */
  function Follow(m: seq<byte>, node: nat, field: nat, k: nat): nat {
    if k == 0 then node
    else
      var before := Follow(m, node, field, k - 1);
      if before + field + WORD <= |m| then Word(m, before + field) else NULL
  }

  /** Both chains run through all elements, one from each end, and stop behind the last of them. */
  lemma {:induction false} ChainsMirror(m: seq<byte>, size: nat, first: nat, last: nat, nodes: seq<nat>, i: nat)
    requires Represents(m, size, first, last, nodes) && 0 < size && i <= size
    ensures Follow(m, first, NEXT, i) == if i < size then nodes[i] else NULL
    ensures Follow(m, last, PREV, i) == if i < size then nodes[size - 1 - i] else NULL
  {
    hide Represents, Word;
    Ends(m, size, first, last, nodes);
    if i > 0 {
      ChainsMirror(m, size, first, last, nodes, i - 1);
      LinksAt(m, size, first, last, nodes, i - 1);
      LinksAt(m, size, first, last, nodes, size - i);
    }
  }

  lemma LinksAt(m: seq<byte>, size: nat, first: nat, last: nat, nodes: seq<nat>, k: nat)
    requires Represents(m, size, first, last, nodes) && k < size
    ensures k < |nodes| && nodes[k] + NODE <= |m|
    ensures Word(m, nodes[k] + NEXT) == NextOf(nodes, k) && Word(m, nodes[k] + PREV) == PrevOf(nodes, k)
  {
  }

  lemma SplitList(m: seq<byte>, size: nat, first: nat, last: nat, nodes: seq<nat>)
    requires Represents(m, size, first, last, nodes)
    ensures Placed(nodes, |m|) && Linked(m, nodes)
  {
  }

  lemma JoinList(m: seq<byte>, size: nat, first: nat, last: nat, nodes: seq<nat>)
    requires Placed(nodes, |m|) && Linked(m, nodes)
    requires size == |nodes| && (size > 0 ==> first == nodes[0] && last == nodes[size - 1])
    ensures Represents(m, size, first, last, nodes)
  {
  }

  // ---------------------------------------------------------------- iteration

  /** The calls of the callback, element and index, and the elements left in the list. */
  datatype Walk = Walk(calls: seq<(nat, nat)>, left: seq<nat>)

  /** Where the loop goes on after a removal by a callback with index `i` for element `p`: through `first`
      for the first two indices, otherwise behind the element in front of element `p`. */
  function Back(i: nat, p: nat): nat {
    if i == 0 then 0 else if i == 1 then 1 else p
  }

  /** The rest of an iteration over `d` that calls for element `p` with index `i` next, where callbacks with
      an index in `victims` remove the element that has that index then. */
  function WalkFrom(d: seq<nat>, victims: set<nat>, i: nat, p: nat): Walk
    requires p <= i
    decreases |d| - i
  {
    if i >= |d| then Walk([], d)
    else if i in victims then Before([(d[p], i)], WalkFrom(Without(d, i), victims, i + 1, Back(i, p)))
    else Before([(d[p], i)], WalkFrom(d, victims, i + 1, p + 1))
  }

  function Before(calls: seq<(nat, nat)>, w: Walk): Walk {
    Walk(calls + w.calls, w.left)
  }

  lemma WalkOn(calls: seq<(nat, nat)>, d: seq<nat>, victims: set<nat>, i: nat, p: nat)
    requires p <= i < |d|
    ensures Before(calls, WalkFrom(d, victims, i, p)) == if i in victims
      then Before(calls + [(d[p], i)], WalkFrom(Without(d, i), victims, i + 1, Back(i, p)))
      else Before(calls + [(d[p], i)], WalkFrom(d, victims, i + 1, p + 1))
  {
    BeforeBefore(calls, [(d[p], i)], WalkFrom(d, victims, i + 1, p + 1));
    BeforeBefore(calls, [(d[p], i)], WalkFrom(Without(d, i), victims, i + 1, Back(i, p)));
  }

  lemma WalkEnds(calls: seq<(nat, nat)>, d: seq<nat>, victims: set<nat>, i: nat, p: nat)
    requires p <= i && |d| <= i
    ensures Before(calls, WalkFrom(d, victims, i, p)) == Walk(calls, d)
  {
    assert calls + [] == calls;
  }

  lemma BeforeNothing(w: Walk)
    ensures Before([], w) == w
  {
    assert [] + w.calls == w.calls;
  }

  lemma BeforeBefore(a: seq<(nat, nat)>, b: seq<(nat, nat)>, w: Walk)
    ensures Before(a, Before(b, w)) == Before(a + b, w)
  {
    assert a + (b + w.calls) == (a + b) + w.calls;
  }

  /** Calls with the indices from `i` up to `n`, for the elements of `d` in order from element `k` on. */
  function CallsFrom(d: seq<nat>, k: nat, i: nat, n: nat): (c: seq<(nat, nat)>)
    requires i <= n && k + (n - i) <= |d|
    ensures |c| == n - i && forall j :: 0 <= j < n - i ==> c[j] == (d[k + j], i + j)
    decreases n - i
  {
    if i == n then [] else [(d[k], i)] + CallsFrom(d, k + 1, i + 1, n)
  }

  /** Calls with the indices from `i` up to `n`, each for the element of `d` with its index. */
  function Calls(d: seq<nat>, i: nat, n: nat): (c: seq<(nat, nat)>)
    requires i <= n <= |d|
    ensures |c| == n - i && forall j :: 0 <= j < n - i ==> c[j] == (d[i + j], i + j)
  {
    CallsFrom(d, i, i, n)
  }

  /** As long as nothing is removed, the calls go through the elements of the list `e` in order; `d` is a
      list that has the same elements from element `k` on as `e` has from element `p` on. */
  lemma {:induction false} WalkStraight(d: seq<nat>, e: seq<nat>, victims: set<nat>, i: nat, p: nat, k: nat, n: nat)
    requires p <= i <= n <= |e| && k + (n - i) <= |d| && forall x :: i <= x < n ==> x !in victims
    requires forall x {:trigger e[x]} :: p <= x < p + (n - i) ==> e[x] == d[x - p + k]
    ensures WalkFrom(e, victims, i, p) == Before(CallsFrom(d, k, i, n), WalkFrom(e, victims, n, p + (n - i)))
    decreases n - i
  {
    if i == n {
      BeforeNothing(WalkFrom(e, victims, n, p));
    } else {
      assert e[p] == d[k];
      WalkStraight(d, e, victims, i + 1, p + 1, k + 1, n);
      BeforeBefore([(d[k], i)], CallsFrom(d, k + 1, i + 1, n), WalkFrom(e, victims, n, p + (n - i)));
    }
  }

  /** The next two calls of an iteration, whatever happened before: after a callback without a removal the
      next element; after a callback that removed its own element the one behind it; after a callback that
      removed another one, which lies behind, its own element once more, except that a removal by the call
      with index 1 leads to the element behind the removed one. */
  lemma WalkNext(d: seq<nat>, victims: set<nat>, i: nat, p: nat)
    requires p <= i < |d|
    ensures var w, left := WalkFrom(d, victims, i, p), if i in victims then |d| - 1 else |d|;
      && |w.calls| >= 1 && w.calls[0] == (d[p], i)
      && (i + 1 >= left ==> |w.calls| == 1 && w.left == if i in victims then Without(d, i) else d)
      && (i + 1 < left ==>
            && |w.calls| >= 2 && w.calls[1].1 == i + 1
            && w.calls[1].0 ==
                 if i !in victims then d[p + 1]
                 else if p == i then d[i + 1]
                 else if i == 1 then d[2]
                 else d[p])
  {
    var e := if i in victims then Without(d, i) else d;
    var next := if i in victims then Back(i, p) else p + 1;
    assert WalkFrom(d, victims, i, p) == Before([(d[p], i)], WalkFrom(e, victims, i + 1, next));
    if i + 1 < |e| {
      var f := WalkFrom(e, victims, i + 1, next);
      assert f.calls[0] == (e[next], i + 1);
    }
  }

  /** An iteration up to call `n` in which only call `v` removes something. */
  lemma WalkOneRemoval(d: seq<nat>, victims: set<nat>, v: nat, n: nat)
    requires v in victims && v < n <= |d| - 1 && forall j :: 0 <= j < n && j != v ==> j !in victims
    ensures WalkFrom(d, victims, 0, 0) == Before(Calls(d, 0, n), WalkFrom(Without(d, v), victims, n, n - 1))
  {
    WalkStraight(d, d, victims, 0, 0, 0, v);
    WalkOn(Calls(d, 0, v), d, victims, v, v);
    assert Back(v, v) == v;
    DataWithoutAt(d, v);
    WalkStraight(d, Without(d, v), victims, v + 1, v, v + 1, n);
    BeforeBefore(Calls(d, 0, v) + [(d[v], v)], Calls(d, v + 1, n), WalkFrom(Without(d, v), victims, n, n - 1));
    assert Calls(d, 0, v) + [(d[v], v)] + Calls(d, v + 1, n) == Calls(d, 0, n);
  }

  /** Without removals every element is visited, in order and with its index. */
  lemma IterAll(d: seq<nat>, victims: set<nat>)
    requires forall j :: 0 <= j < |d| ==> j !in victims
    ensures WalkFrom(d, victims, 0, 0) == Walk(Calls(d, 0, |d|), d)
  {
    WalkStraight(d, d, victims, 0, 0, 0, |d|);
    assert Calls(d, 0, |d|) + [] == Calls(d, 0, |d|);
  }

  /** With one self-removal every call gets the element and the index that it had at the start; all are
      visited if the removed one was the last, otherwise all but the last. */
  lemma IterOne(d: seq<nat>, victims: set<nat>, v: nat)
    requires v in victims && v < |d| && forall j :: 0 <= j < |d| && j != v ==> j !in victims
    ensures WalkFrom(d, victims, 0, 0) == Walk(Calls(d, 0, if v + 1 < |d| then |d| - 1 else |d|), Without(d, v))
  {
    DataWithoutAt(d, v);
    hide Without, WalkFrom;
    if v + 1 < |d| {
      WalkOneRemoval(d, victims, v, |d| - 1);
      WalkEnds(Calls(d, 0, |d| - 1), Without(d, v), victims, |d| - 1, |d| - 2);
    } else {
      WalkStraight(d, d, victims, 0, 0, 0, v);
      WalkOn(Calls(d, 0, v), d, victims, v, v);
      WalkEnds(Calls(d, 0, v) + [(d[v], v)], Without(d, v), victims, v + 1, Back(v, v));
      assert Calls(d, 0, v) + [(d[v], v)] == Calls(d, 0, |d|);
    }
  }

  /** A second self-removal, by the call with index `w`, removes the element behind its own.  If the loop goes
      on, the call with index `w` + 1 gets the same element once more, and later ones up to `n`, before which
      nothing else is removed, get the element with their index at the start.  Only if the first two elements
      asked for removal, the loop goes on with element 3 and runs one ahead of the indices. */
  lemma SecondRemovalMisses(d: seq<nat>, victims: set<nat>, v: nat, w: nat, n: nat)
    requires v in victims && w in victims && v < w < |d| - 1
    requires forall j :: 0 <= j < n && j != v && j != w ==> j !in victims
    requires w + 1 < n <= |d| - 2 || w + 1 == n
    ensures var left := Without(Without(d, w + 1), v);
      WalkFrom(d, victims, 0, 0) ==
        if w == 1 then
          Before(Calls(d, 0, 2) + CallsFrom(d, 3, 2, n), WalkFrom(left, victims, n, n - 1))
        else if n == w + 1 then
          Before(Calls(d, 0, w + 1), WalkFrom(left, victims, n, n - 2))
        else
          Before(Calls(d, 0, w + 1) + [(d[w], w + 1)] + Calls(d, w + 2, n), WalkFrom(left, victims, n, n - 2))
  {
    SecondRemoval(d, victims, v, w);
    if w == 1 {
      AfterFirstTwo(d, victims, n);
    } else if n > w + 1 {
      AfterSecond(d, victims, v, w, n);
    }
  }

  lemma AfterFirstTwo(d: seq<nat>, victims: set<nat>, n: nat)
    requires 2 < |d| && 2 <= n && (n == 2 || n <= |d| - 2) && forall j :: 2 <= j < n ==> j !in victims
    ensures var left := Without(Without(d, 2), 0);
      Before(Calls(d, 0, 2), WalkFrom(left, victims, 2, 1))
        == Before(Calls(d, 0, 2) + CallsFrom(d, 3, 2, n), WalkFrom(left, victims, n, n - 1))
  {
    WithoutTwo(d, 0, 1);
    hide Without, WalkFrom, Before, CallsFrom, Calls;
    var left := Without(Without(d, 2), 0);
    if n == 2 {
      BeforeNone(Calls(d, 0, 2), CallsFrom(d, 3, 2, 2), WalkFrom(left, victims, 2, 1));
    } else {
      WalkStraight(d, left, victims, 2, 1, 3, n);
      BeforeBefore(Calls(d, 0, 2), CallsFrom(d, 3, 2, n), WalkFrom(left, victims, n, n - 1));
    }
  }

  lemma BeforeNone(a: seq<(nat, nat)>, b: seq<(nat, nat)>, w: Walk)
    requires b == []
    ensures Before(a, w) == Before(a + b, w)
  {
    assert a + b == a;
  }

  lemma AfterSecond(d: seq<nat>, victims: set<nat>, v: nat, w: nat, n: nat)
    requires v < w && 2 <= w && w + 1 < n <= |d| - 2 && forall j :: w < j < n ==> j !in victims
    ensures var left := Without(Without(d, w + 1), v);
      Before(Calls(d, 0, w + 1), WalkFrom(left, victims, w + 1, w - 1))
        == Before(Calls(d, 0, w + 1) + [(d[w], w + 1)] + Calls(d, w + 2, n), WalkFrom(left, victims, n, n - 2))
  {
    WithoutTwo(d, v, w);
    hide Without, WalkFrom, Before;
    var left := Without(Without(d, w + 1), v);
    assert left[w - 1] == d[w];
    WalkOn(Calls(d, 0, w + 1), left, victims, w + 1, w - 1);
    WalkStraight(d, left, victims, w + 2, w, w + 2, n);
    BeforeBefore(Calls(d, 0, w + 1) + [(d[w], w + 1)], Calls(d, w + 2, n), WalkFrom(left, victims, n, n - 2));
  }

  /** Up to the second removal. */
  lemma SecondRemoval(d: seq<nat>, victims: set<nat>, v: nat, w: nat)
    requires v in victims && w in victims && v < w < |d| - 1
    requires forall j :: 0 <= j < w && j != v ==> j !in victims
    ensures WalkFrom(d, victims, 0, 0) ==
      Before(Calls(d, 0, w + 1),
        WalkFrom(Without(Without(d, w + 1), v), victims, w + 1, if w == 1 then 1 else w - 1))
  {
    DataWithoutAt(d, v);
    CallsGrow(d, w);
    hide Without, WalkFrom, Before, Calls;
    WalkOneRemoval(d, victims, v, w);
    WalkOn(Calls(d, 0, w), Without(d, v), victims, w, w - 1);
    WithoutTwo(d, v, w);
  }

  lemma CallsGrow(d: seq<nat>, w: nat)
    requires w < |d|
    ensures Calls(d, 0, w) + [(d[w], w)] == Calls(d, 0, w + 1)
  {
  }

  lemma WithoutTwo(d: seq<nat>, v: nat, w: nat)
    requires v < w < |d| - 1
    ensures Without(Without(d, v), w) == Without(Without(d, w + 1), v)
    ensures var e := Without(Without(d, w + 1), v);
      |e| == |d| - 2 && forall k {:trigger e[k]} :: 0 <= k < |e| ==>
        e[k] == d[if k < v then k else if k < w then k + 1 else k + 2]
  {
    var one, two := Without(Without(d, v), w), Without(Without(d, w + 1), v);
    assert |one| == |two| == |d| - 2;
    forall k | 0 <= k < |one| ensures one[k] == two[k] == d[if k < v then k else if k < w then k + 1 else k + 2] {
    }
  }

  lemma FreshIsNew(nodes: seq<nat>, node: nat, limit: nat)
    requires Fresh(nodes, node, limit)
    ensures node != NULL && node !in nodes
  {
  }

  lemma DataWithoutAt<T>(d: seq<T>, i: nat)
    requires i < |d|
    ensures |Without(d, i)| == |d| - 1
    ensures forall j :: i <= j < |d| - 1 ==> Without(d, i)[j] == d[j + 1]
  {
  }

  /** The list does not depend on the bytes of objects that are not its nodes. */
  lemma RepresentsFrame(m: seq<byte>, r: seq<byte>, size: nat, first: nat, last: nat, nodes: seq<nat>)
    requires Represents(m, size, first, last, nodes) && |m| == |r|
    requires forall i {:trigger nodes[i]} :: 0 <= i < |nodes| ==> SameBytes(m, r, nodes[i], NODE)
    ensures Represents(r, size, first, last, nodes) && Data(r, nodes) == Data(m, nodes)
  {
    forall i | 0 <= i < |nodes|
      ensures Word(r, nodes[i]) == Word(m, nodes[i])
      ensures Word(r, nodes[i] + NEXT) == Word(m, nodes[i] + NEXT)
        && Word(r, nodes[i] + PREV) == Word(m, nodes[i] + PREV)
    {
      SameWord(m, r, nodes[i]);
      SameWord(m, r, nodes[i] + NEXT);
      SameWord(m, r, nodes[i] + PREV);
    }
  }

  lemma ScribbledFrame(m: seq<byte>, r: seq<byte>, size: nat, first: nat, last: nat, nodes: seq<nat>, freed: nat,
      junk: seq<byte>)
    requires Represents(m, size, first, last, nodes) && Fresh(nodes, freed, |m|) && |junk| <= NODE
    requires r == Splice(m, freed, junk)
    ensures Represents(r, size, first, last, nodes) && Data(r, nodes) == Data(m, nodes)
  {
    forall i | 0 <= i < |nodes| ensures SameBytes(m, r, nodes[i], NODE) {
      assert Apart(nodes[i], NODE, freed, NODE);
    }
    RepresentsFrame(m, r, size, first, last, nodes);
  }

  class List {
    var size: nat
    var first: nat
    var last: nat
    const mem: array<byte>
    ghost var nodes: seq<nat>

    ghost predicate Valid()
      reads this, mem
    {
      Represents(mem[..], size, first, last, nodes)
    }

    /** The elements. */
    ghost function Contents(): seq<nat>
      requires Valid()
      reads this, mem
    {
      Data(mem[..], nodes)
    }

    /** `linked_list_init` */
    constructor (mem: array<byte>)
      requires mem.Length <= WORD_LIMIT
      ensures this.mem == mem && Valid() && nodes == [] && size == 0
    {
      this.mem := mem;
      size, first, last := 0, NULL, NULL;
      nodes := [];
    }

    /** A field of a node that is in the list; a node that was given back cannot be read. */
    method Load(node: nat, field: nat, ghost k: nat) returns (w: nat)
      requires Valid() && k < |nodes| && node == nodes[k] && field in {0, NEXT, PREV}
      ensures w == Word(mem[..], nodes[k] + field)
      ensures field == 0 ==> w == Contents()[k]
      ensures field == NEXT ==> w == NextOf(nodes, k)
      ensures field == PREV ==> w == PrevOf(nodes, k)
    {
      w := Word(mem[..], node + field);
    }

    /** `linked_list_find`, with the number of pointers it follows. */
    method Find(i: nat) returns (node: nat, ghost steps: nat)
      requires Valid()
      ensures node == if i < size then nodes[i] else NULL
      ensures i < size ==> (steps == i || steps == size - 1 - i) && 2 * steps <= size - 1
    {
      hide Represents;
      Ends(mem[..], size, first, last, nodes);
      steps := 0;
      if i < size {
        var direction := false;
        var cur;
        var n := i;
        if n >= size / 2 {
          cur := last;
          n := size - n - 1;
          direction := true;
        } else {
          cur := first;
        }
        ghost var start := n;
        while n > 0
          invariant 0 <= n <= start && steps == start - n
          invariant cur == nodes[if direction then i + n else i - n]
        {
          if direction {
            cur := Load(cur, PREV, i + n);
          } else {
            cur := Load(cur, NEXT, i - n);
          }
          n := n - 1;
          steps := steps + 1;
        }
        return cur, steps;
      }
      return NULL, 0;
    }

    /** `linked_list_get` */
    method Get(i: nat) returns (data: nat)
      requires Valid()
      ensures data == if i < size then Contents()[i] else NULL
    {
      Ends(mem[..], size, first, last, nodes);
      var node, _ := Find(i);
      if node != NULL {
        data := Load(node, 0, i);
        return data;
      }
      return NULL;
    }

    /** `node->field = w` for node `k` of `ns`. */
    method Store(node: nat, field: nat, w: nat, ghost ns: seq<nat>, ghost k: nat)
      requires Placed(ns, mem.Length) && k < |ns| && node == ns[k] && field in {0, NEXT, PREV} && w < WORD_LIMIT
      modifies mem
      ensures FieldSet(old(mem[..]), mem[..], ns, k, field, w)
    {
      SetField(mem[..], ns, k, field, w);
      StoreWord(mem, node + field, w);
    }

    /** `linked_list_push`, where the allocator returned `node`. */
    method Push(node: nat, data: nat) returns (r: int)
      requires Valid() && data < WORD_LIMIT
      requires node != NULL ==> Fresh(nodes, node, mem.Length)
      modifies this, mem
      ensures Valid()
      ensures node == NULL ==>
        && r == -1 && nodes == old(nodes)
        && Contents() == old(Contents()) && mem[..] == old(mem[..])
      ensures node != NULL ==> r == 0 && nodes == old(nodes) + [node] && Contents() == old(Contents()) + [data]
      ensures WritesOnly(old(mem[..]), mem[..], nodes)
    {
      hide FieldSet, WritesOnly, Fresh, Linked, Data;
      if node == NULL {
        WritesNothing(mem[..], nodes);
        return -1;
      }
      ghost var m0, ns := mem[..], nodes + [node];
      PlacedPush(nodes, node, mem.Length);
      if size == 0 {
        assert ns == [node];
        Store(node, NEXT, NULL, ns, 0);
        ghost var m1 := mem[..];
        Store(node, PREV, NULL, ns, 0);
        ghost var m2 := mem[..];
        first := node;
        Store(node, 0, data, ns, 0);
        PushFirst(m0, m1, m2, mem[..], node, data);
      } else {
        Store(node, NEXT, NULL, ns, |nodes|);
        ghost var m1 := mem[..];
        Store(last, NEXT, node, ns, |nodes| - 1);
        ghost var m2 := mem[..];
        Store(node, PREV, last, ns, |nodes|);
        ghost var m3 := mem[..];
        Store(node, 0, data, ns, |nodes|);
        Pushed(m0, m1, m2, m3, mem[..], nodes, ns, node, data);
      }
      last := node;
      size := size + 1;
      nodes := ns;
      return 0;
    }

    /** The links of node `i` and of its neighbours. */
    method Unlink(node: nat, prev: nat, next: nat, ghost i: nat)
      requires i < |nodes| && Placed(nodes, mem.Length) && Linked(mem[..], nodes)
        && Placed(Without(nodes, i), mem.Length)
      requires node == nodes[i] && prev == PrevOf(nodes, i) && next == NextOf(nodes, i)
      modifies mem
      ensures Linked(mem[..], Without(nodes, i))
      ensures Data(mem[..], Without(nodes, i)) == Without(old(Data(mem[..], nodes)), i)
      ensures WritesOnly(old(mem[..]), mem[..], nodes)
      ensures Word(mem[..], node + NEXT) == NULL && Word(mem[..], node + PREV) == NULL
    {
      hide FieldSet, WritesOnly, Linked, Data, Without;
      ghost var m0 := mem[..];
      if prev != NULL {
        Store(prev, NEXT, next, nodes, i - 1);
      }
      ghost var m1 := mem[..];
      if next != NULL {
        Store(next, PREV, prev, nodes, i + 1);
      }
      ghost var m2 := mem[..];
      Store(node, NEXT, NULL, nodes, i);
      ghost var m3 := mem[..];
      Store(node, PREV, NULL, nodes, i);
      NodeCleared(m2, m3, mem[..], nodes, i);
      Unlinked(m0, m1, m2, m3, mem[..], nodes, Without(nodes, i), i);
    }

    /** Node `i` leaves the list. */
    method Detach(node: nat, ghost i: nat, isLast: bool, isFirst: bool) returns (data: nat)
      requires Valid() && i < size && node == nodes[i] && isLast == (i == size - 1) && isFirst == (i == 0)
      modifies this, mem
      ensures Valid() && size == old(size) - 1
      ensures nodes == Without(old(nodes), i) && Contents() == Without(old(Contents()), i)
      ensures data == old(Contents())[i] && Fresh(nodes, node, mem.Length)
      ensures node + NODE <= mem.Length && Word(mem[..], node + NEXT) == NULL && Word(mem[..], node + PREV) == NULL
      ensures WritesOnly(old(mem[..]), mem[..], old(nodes))
      ensures old(size) == 1 ==> first == old(first) && last == NULL
    {
      hide FieldSet, WritesOnly, Placed, Linked, Data, Represents, Without;
      Ends(mem[..], size, first, last, nodes);
      ghost var m0, ns := mem[..], Without(nodes, i);
      var prev := Load(node, PREV, i);
      var next := Load(node, NEXT, i);
      data := Load(node, 0, i);
      SplitList(m0, size, first, last, nodes);
      PlacedWithout(nodes, i, mem.Length);
      EndsWithout(nodes, i);
      Unlink(node, prev, next, i);
      if isLast {
        last := prev;
      } else if isFirst {
        first := next;
      }
      size := size - 1;
      nodes := ns;
      JoinList(mem[..], size, first, last, nodes);
    }

    /** `linked_list_rem`.  The node `freed` goes back to the allocator with empty links.  After the removal
        of the sole element `first` still points to it. */
    method Rem(i: nat) returns (data: nat, freed: nat)
      requires Valid()
      modifies this, mem
      ensures Valid()
      ensures i >= old(size) ==>
        data == NULL && freed == NULL && nodes == old(nodes) && Contents() == old(Contents()) && mem[..] == old(mem[..])
      ensures i < old(size) ==>
        && freed == old(nodes)[i] && nodes == Without(old(nodes), i)
        && data == old(Contents())[i] && Contents() == Without(old(Contents()), i)
        && Fresh(nodes, freed, mem.Length) && freed + NODE <= mem.Length
        && Word(mem[..], freed + NEXT) == NULL && Word(mem[..], freed + PREV) == NULL
      ensures WritesOnly(old(mem[..]), mem[..], old(nodes))
      ensures i == 0 && old(size) == 1 ==> first == freed && last == NULL
    {
      hide FieldSet, WritesOnly, Fresh, Placed, Linked, Data, Represents, Without;
      Ends(mem[..], size, first, last, nodes);
      var node, _ := Find(i);
      if node != NULL {
        data := Detach(node, i, i == size - 1, i == 0);
        return data, node;
      }
      WritesNothing(mem[..], nodes);
      return NULL, NULL;
    }

    /** `list->free(node)`: the allocator does with the bytes of a freed node what it likes. */
    method Scribble(freed: nat, junk: seq<byte>)
      requires Valid() && Fresh(nodes, freed, mem.Length) && |junk| <= NODE
      modifies mem
      ensures Valid() && Contents() == old(Contents())
    {
      ghost var m0 := mem[..];
      CopyIn(mem, freed, junk);
      ScribbledFrame(m0, mem[..], size, first, last, nodes, freed, junk);
    }

    /** The callback is called with index `i` for element `p` and removes element `i`; the loop finds its
        way back through `first`, or from the node `prev` in front of element `p`. */
    method RemoveAt(i: nat, prev: nat, junk: seq<byte>, ghost p: nat) returns (cur: nat, stale: bool)
      requires Valid() && |junk| <= NODE && p <= i < size && (p > 0 ==> prev == nodes[p - 1]) && (i >= 2 ==> p > 0)
      modifies this, mem
      ensures Valid() && size == old(size) - 1 == |nodes|
      ensures Contents() == Without(old(Contents()), i)
      ensures stale <==> old(size) == 1
      ensures !stale ==> cur == if Back(i, p) < size then nodes[Back(i, p)] else NULL
    {
      hide Represents, Linked, Data, Placed, WritesOnly;
      Ends(mem[..], size, first, last, nodes);
      EndsWithout(nodes, i);
      var _, freed := Rem(i);
      FreshIsNew(nodes, freed, mem.Length);
      Scribble(freed, junk);
      Ends(mem[..], size, first, last, nodes);
      if i == 0 {
        cur := first;
      } else if i == 1 {
        cur := Load(first, NEXT, 0);
      } else {
        cur := Load(prev, NEXT, p - 1);
      }
      stale := cur == freed;
    }

    /** The loop of `linked_list_iter` before the call with index `i`: the cursor is at element `p`. */
    ghost predicate Halfway(i: nat, p: nat, cur: nat, prev: nat)
      reads this, mem
    {
      && Valid() && size == |nodes|
      && p <= i && (i >= 2 ==> p > 0)
      && (p < size ==> cur == nodes[p])
      && (0 < p < size ==> prev == nodes[p - 1])
    }

    /** One round of the loop, with a callback that removes an element or not. */
    method Visit(i: nat, cur: nat, prev: nat, removes: bool, junk: seq<byte>, ghost p: nat)
      returns (data: nat, next: nat, back: nat, stale: bool)
      requires Halfway(i, p, cur, prev) && i < size && |junk| <= NODE
      modifies this, mem
      ensures data == old(Contents())[p]
      ensures Valid() && Contents() == if removes then Without(old(Contents()), i) else old(Contents())
      ensures |Contents()| == size == if removes then old(size) - 1 else old(size)
      ensures stale <==> removes && old(size) == 1
      ensures !stale ==> Halfway(i + 1, if removes then Back(i, p) else p + 1, next, back)
    {
      hide Represents, Linked, Data, Placed, Without;
      Ends(mem[..], size, first, last, nodes);
      data := Load(cur, 0, p);
      back, stale := prev, false;
      if removes {
        next, stale := RemoveAt(i, prev, junk, p);
        if stale {
          return;
        }
      } else {
        next := Load(cur, NEXT, p);
      }
      Ends(mem[..], size, first, last, nodes);
      if next != NULL {
        back := Load(next, PREV, if removes then Back(i, p) else p + 1);
      }
    }

    /** `linked_list_iter` with a callback that, if it is called with an index in `victims`, removes the
        element with that index from the list and returns -1; it returns 0 otherwise.  The allocator
        writes `junk(i)` into the node that call `i` frees.  The result is the sequence of calls; `stale`
        reports that the code goes on to read a node that was freed. */
    method Iter(victims: set<nat>, junk: nat -> seq<byte>) returns (calls: seq<(nat, nat)>, stale: bool)
      requires Valid() && forall k: nat :: |junk(k)| <= NODE
      modifies this, mem
      ensures Valid()
      ensures Walk(calls, Contents()) == WalkFrom(old(Contents()), victims, 0, 0)
      ensures stale <==> 0 in victims && old(size) == 1
    {
      hide Represents, Linked, Data, Placed, Without, WalkFrom;
      Ends(mem[..], size, first, last, nodes);
      ghost var d := Contents();
      ghost var p: nat := 0;
      calls, stale := [], false;
      var cur, prev := first, NULL;
      var i: nat := 0;
      BeforeNothing(WalkFrom(d, victims, 0, 0));
      while i < size
        invariant Valid() && |Contents()| == size && p <= i
        invariant !stale ==> Halfway(i, p, cur, prev)
        invariant stale ==> size == 0 < i
        invariant if i == 0 then Contents() == d && !stale else stale <==> 0 in victims && |d| == 1
        invariant Before(calls, WalkFrom(Contents(), victims, i, p)) == WalkFrom(d, victims, 0, 0)
        decreases size - i
      {
        WalkOn(calls, Contents(), victims, i, p);
        var data;
        data, cur, prev, stale := Visit(i, cur, prev, i in victims, junk(i), p);
        calls := calls + [(data, i)];
        p := if i in victims then Back(i, p) else p + 1;
        i := i + 1;
      }
      WalkEnds(calls, Contents(), victims, i, p);
    }
  }
}
