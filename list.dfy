/** The doubly linked list of src/p5k-base/list.h. A `List` owns a chain of
    `Node`s from `head` to `tail`; the ghost sequence `nodes` names them in
    order and `Contents` is the data they carry. Elements are the `void *`
    payloads, here of a type parameter; an operation that returns `nil`
    for "no element" returns `None`. */
module Lists {
  import opened Base

  /* ---- sequence-level meaning ------------------------------------------------ */

  /** `s` with `x` put at position `i`. */
  function InsertAt<T>(s: seq<T>, i: nat, x: T): (r: seq<T>)
    requires i <= |s|
    ensures |r| == |s| + 1 && r[i] == x
    ensures forall j {:trigger r[j]} :: 0 <= j < i ==> r[j] == s[j]
    ensures forall j :: i < j < |r| ==> r[j] == s[j - 1]
  {
    s[..i] + [x] + s[i..]
  }

  /** `s` without its element at position `i`. */
  function RemoveAt<T>(s: seq<T>, i: nat): (r: seq<T>)
    requires i < |s|
    ensures |r| + 1 == |s|
    ensures forall j {:trigger r[j]} :: 0 <= j < i ==> r[j] == s[j]
    ensures forall j :: i <= j < |r| ==> r[j] == s[j + 1]
  {
    s[..i] + s[i + 1..]
  }

  /** The first element moved to the end. */
  function Rotate<T>(s: seq<T>): (r: seq<T>)
    ensures |r| == |s|
    ensures s != [] ==> r[|r| - 1] == s[0] && forall j :: 0 <= j < |s| - 1 ==> r[j] == s[j + 1]
  {
    if s == [] then [] else s[1..] + [s[0]]
  }

  /** `k` rotations in a row. */
  function Rotations<T>(s: seq<T>, k: nat): seq<T>
    decreases k
  {
    if k == 0 then s else Rotations(Rotate(s), k - 1)
  }

  /** Inserting at the end appends. */
  lemma AppendIsInsert<T>(s: seq<T>, x: T)
    ensures InsertAt(s, |s|, x) == s + [x]
  {
  }

  /** Removing what was just inserted gives the list back. */
  lemma RemoveInsertedAt<T>(s: seq<T>, i: nat, x: T)
    requires i <= |s|
    ensures RemoveAt(InsertAt(s, i, x), i) == s
  {
  }

  /** Splitting a rotated list one place earlier is splitting the list. */
  lemma RotateSlices<T>(s: seq<T>, k: nat)
    requires 0 < k <= |s|
    ensures Rotate(s)[k - 1..] + Rotate(s)[..k - 1] == s[k..] + s[..k]
  {
    var r := Rotate(s);
    assert r == s[1..] + [s[0]];
    assert r[k - 1..] == s[k..] + [s[0]];
    assert r[..k - 1] == s[1..k];
    assert s[..k] == [s[0]] + s[1..k];
  }

  /** `k` rotations of a list of at least `k` elements move its first `k`
      elements, in order, to the end. */
  lemma {:induction false} RotationsSplit<T>(s: seq<T>, k: nat)
    requires k <= |s|
    ensures Rotations(s, k) == s[k..] + s[..k]
    decreases k
  {
    if k > 0 {
      RotationsSplit(Rotate(s), k - 1);
      RotateSlices(s, k);
    }
  }

  /** Requeueing as many times as there are elements restores the list. */
  lemma RequeueAllRestores<T>(s: seq<T>)
    ensures Rotations(s, |s|) == s
  {
    RotationsSplit(s, |s|);
  }

  /** No element occurs twice. */
  ghost predicate Distinct<U>(s: seq<U>) {
    forall i, k :: 0 <= i < k < |s| ==> s[i] != s[k]
  }

  /** Inserting an element that is not there keeps the elements
      distinct. */
  lemma InsertDistinct<U>(s: seq<U>, i: nat, x: U)
    requires i <= |s| && Distinct(s) && x !in s
    ensures Distinct(InsertAt(s, i, x))
  {
    var r := InsertAt(s, i, x);
    forall a, b | 0 <= a < b < |r|
      ensures r[a] != r[b]
    {
      var oa := if a < i then a else a - 1;
      var ob := if b < i then b else b - 1;
      if a != i && b != i {
        assert r[a] == s[oa] && r[b] == s[ob];
      }
    }
  }

  /** Removing an element keeps the rest distinct. */
  lemma RemoveDistinct<U>(s: seq<U>, i: nat)
    requires i < |s| && Distinct(s)
    ensures Distinct(RemoveAt(s, i))
  {
    var r := RemoveAt(s, i);
    forall a, b | 0 <= a < b < |r|
      ensures r[a] != r[b]
    {
      var oa := if a < i then a else a + 1;
      var ob := if b < i then b else b + 1;
      assert r[a] == s[oa] && r[b] == s[ob];
    }
  }

  /* ---- the linked structure ------------------------------------------------- */

  /** `list_node`. */
  class Node<T> {
    var next: Node?<T>
    var prev: Node?<T>
    var data: T

    /** A fresh node as alloc_allocz returns it, with `data` stored. */
    constructor (d: T)
      ensures next == null && prev == null && data == d
    {
      next := null;
      prev := null;
      data := d;
    }
  }

  /** The node `a` as a set, empty for `null`. */
  function Opt<T>(a: Node?<T>): set<Node<T>> {
    if a == null then {} else {a}
  }

  /** Each node's `next` is its successor and each node's `prev` its
      predecessor, `null` past either end. */
  ghost predicate Linked<T>(ns: seq<Node<T>>)
    reads ns`next, ns`prev
  {
    && (ns != [] ==> ns[0].prev == null && ns[|ns| - 1].next == null)
    && (forall i :: 0 <= i < |ns| - 1 ==> ns[i].next == ns[i + 1] && ns[i + 1].prev == ns[i])
  }

  /** Linking `n` in at position `k` of a sequence whose links are as
      before everywhere else gives a linked sequence. */
  lemma LinkedInsert<T>(ns: seq<Node<T>>, k: nat, n: Node<T>)
    requires k <= |ns|
    requires forall i :: 0 <= i < |ns| - 1 && i != k - 1 ==> ns[i].next == ns[i + 1]
    requires forall i :: 0 < i < |ns| && i != k ==> ns[i].prev == ns[i - 1]
    requires k > 0 ==> ns[0].prev == null && ns[k - 1].next == n
    requires k < |ns| ==> ns[|ns| - 1].next == null && ns[k].prev == n
    requires n.prev == (if k > 0 then ns[k - 1] else null)
    requires n.next == (if k < |ns| then ns[k] else null)
    ensures Linked(InsertAt(ns, k, n))
  {
    var r := InsertAt(ns, k, n);
    forall i | 0 <= i < |r| - 1
      ensures r[i].next == r[i + 1] && r[i + 1].prev == r[i]
    {
      if i + 1 < k {
        assert r[i] == ns[i] && r[i + 1] == ns[i + 1];
      } else if i > k {
        assert r[i] == ns[i - 1] && r[i + 1] == ns[i];
      } else if i == k {
        assert r[i + 1] == ns[k];
      }
    }
    if k > 0 {
      assert r[0] == ns[0];
    }
    if k < |ns| {
      assert r[|r| - 1] == ns[|ns| - 1];
    }
  }

  /** Unlinking position `k` of a sequence whose links are as before
      everywhere else gives a linked sequence. */
  lemma LinkedRemove<T>(ns: seq<Node<T>>, k: nat)
    requires k < |ns|
    requires forall i :: 0 <= i < |ns| - 1 && i != k - 1 && i != k ==> ns[i].next == ns[i + 1]
    requires forall i :: 0 < i < |ns| && i != k && i != k + 1 ==> ns[i].prev == ns[i - 1]
    requires k > 0 ==> ns[0].prev == null && ns[k - 1].next == (if k + 1 < |ns| then ns[k + 1] else null)
    requires k + 1 < |ns| ==> ns[|ns| - 1].next == null && ns[k + 1].prev == (if k > 0 then ns[k - 1] else null)
    ensures Linked(RemoveAt(ns, k))
  {
    var r := RemoveAt(ns, k);
    forall i | 0 <= i < |r| - 1
      ensures r[i].next == r[i + 1] && r[i + 1].prev == r[i]
    {
      if i + 1 < k {
        assert r[i] == ns[i] && r[i + 1] == ns[i + 1];
      } else if i + 1 == k {
        assert r[i] == ns[k - 1] && r[i + 1] == ns[k + 1];
      } else {
        assert r[i] == ns[i + 1] && r[i + 1] == ns[i + 2];
      }
    }
    if r != [] {
      if k > 0 {
        assert r[0] == ns[0];
      } else {
        assert r[0] == ns[1];
      }
      if k + 1 < |ns| {
        assert r[|r| - 1] == ns[|ns| - 1];
      } else {
        assert r[|r| - 1] == ns[k - 1];
      }
    }
  }

  /** The pointer updates that put the node `n` between `a` and `b`,
      the neighbours at position `k` of the linked sequence `ns` (`null`
      at an end): the shared middle of list_push, list_unshift,
      list_insert and list_requeue. */
  method SpliceIn<T>(ghost ns: seq<Node<T>>, ghost k: nat, a: Node?<T>, n: Node<T>, b: Node?<T>)
    requires k <= |ns| && n !in ns && Distinct(ns) && Linked(ns)
    requires a == (if k > 0 then ns[k - 1] else null)
    requires b == (if k < |ns| then ns[k] else null)
    modifies n`next, n`prev, Opt(a)`next, Opt(b)`prev
    ensures Linked(InsertAt(ns, k, n))
  {
    n.next := b;
    n.prev := a;
    if b != null {
      b.prev := n;
    }
    if a != null {
      a.next := n;
    }
    forall i | 0 <= i < |ns| - 1 && i != k - 1
      ensures ns[i].next == ns[i + 1]
    {
      assert old(ns[i].next) == ns[i + 1];
    }
    forall i | 0 < i < |ns| && i != k
      ensures ns[i].prev == ns[i - 1]
    {
      assert old(ns[i].prev) == ns[i - 1];
    }
    LinkedInsert(ns, k, n);
  }

  /** The pointer updates that unlink position `k` of the linked sequence
      `ns` by joining its neighbours `a` and `b` (`null` at an end): the
      shared middle of list_pop, list_shift, list_remove and
      list_requeue. */
  method SpliceOut<T>(ghost ns: seq<Node<T>>, ghost k: nat, a: Node?<T>, b: Node?<T>)
    requires k < |ns| && Distinct(ns) && Linked(ns)
    requires a == (if k > 0 then ns[k - 1] else null)
    requires b == (if k + 1 < |ns| then ns[k + 1] else null)
    modifies Opt(a)`next, Opt(b)`prev
    ensures Linked(RemoveAt(ns, k))
  {
    if a != null {
      a.next := b;
    }
    if b != null {
      b.prev := a;
    }
    forall i | 0 <= i < |ns| - 1 && i != k - 1 && i != k
      ensures ns[i].next == ns[i + 1]
    {
      assert old(ns[i].next) == ns[i + 1];
    }
    forall i | 0 < i < |ns| && i != k && i != k + 1
      ensures ns[i].prev == ns[i - 1]
    {
      assert old(ns[i].prev) == ns[i - 1];
    }
    LinkedRemove(ns, k);
  }

  /** `list`. The allocator hook is not a field: nodes are allocated with
      `new` and a node that is unlinked is simply dropped. */
  class List<T> {
    var head: Node?<T>
    var tail: Node?<T>
    ghost var nodes: seq<Node<T>>
    ghost var Contents: seq<T>
    ghost var Repr: set<object>

    /** The nodes are distinct, linked both ways in order, carry the
      contents, and `head`/`tail` are the two ends. */
    ghost predicate Valid()
      reads this, Repr
    {
      && this in Repr
      && (forall i :: 0 <= i < |nodes| ==> nodes[i] in Repr)
      && Distinct(nodes)
      && Linked(nodes)
      && |nodes| == |Contents|
      && (forall i :: 0 <= i < |nodes| ==> nodes[i].data == Contents[i])
      && head == (if nodes == [] then null else nodes[0])
      && tail == (if nodes == [] then null else nodes[|nodes| - 1])
    }

    /** An empty list. */
    constructor ()
      ensures Valid() && fresh(Repr) && Contents == []
    {
      head := null;
      tail := null;
      nodes := [];
      Contents := [];
      Repr := {this};
    }

    /** The ghost bookkeeping that closes an insertion: node `n`, whose
      links are already in place, becomes element `k`. */
    ghost method CommitInsert(ns: seq<Node<T>>, k: nat, n: Node<T>)
      requires this in Repr && nodes == ns && k <= |ns| == |Contents|
      requires forall i :: 0 <= i < |ns| ==> ns[i] in Repr
      requires n !in ns && Distinct(ns) && Linked(InsertAt(ns, k, n))
      requires forall i :: 0 <= i < |ns| ==> ns[i].data == Contents[i]
      requires head == (if k == 0 then n else ns[0])
      requires tail == (if k == |ns| then n else ns[|ns| - 1])
      modifies this
      ensures Valid() && Repr == old(Repr) + {n}
      ensures nodes == InsertAt(ns, k, n) && Contents == InsertAt(old(Contents), k, n.data)
    {
      nodes := InsertAt(ns, k, n);
      Contents := InsertAt(Contents, k, n.data);
      Repr := Repr + {n};
      InsertDistinct(ns, k, n);
    }

    /** The ghost bookkeeping that closes a removal: element `k`, already
      unlinked, leaves the list. */
    ghost method CommitRemove(ns: seq<Node<T>>, k: nat)
      requires this in Repr && nodes == ns && k < |ns| == |Contents|
      requires forall i :: 0 <= i < |ns| ==> ns[i] in Repr
      requires Distinct(ns) && Linked(RemoveAt(ns, k))
      requires forall i :: 0 <= i < |ns| ==> ns[i].data == Contents[i]
      requires head == (if |ns| == 1 then null else if k == 0 then ns[1] else ns[0])
      requires tail == (if |ns| == 1 then null else if k == |ns| - 1 then ns[k - 1] else ns[|ns| - 1])
      modifies this
      ensures Valid() && Repr == old(Repr)
      ensures nodes == RemoveAt(ns, k) && Contents == RemoveAt(old(Contents), k)
    {
      nodes := RemoveAt(ns, k);
      Contents := RemoveAt(Contents, k);
      RemoveDistinct(ns, k);
    }

    /** list_push: `data` becomes the last element. */
    method Push(data: T)
      requires Valid()
      modifies Repr
      ensures Valid() && fresh(Repr - old(Repr))
      ensures Contents == old(Contents) + [data]
    {
      var n := new Node(data);
      LinkBack(n);
    }

    /** Links the node `n` behind the last element: the body shared by
      list_push and the second half of list_requeue. */
    method LinkBack(n: Node<T>)
      requires Valid() && n !in nodes
      modifies Repr, n
      ensures Valid() && Repr == old(Repr) + {n} && n.data == old(n.data)
      ensures Contents == old(Contents) + [old(n.data)]
    {
      ghost var ns := nodes;
      SpliceIn(ns, |ns|, tail, n, null);
      tail := n;
      if head == null {
        head := n;
      }
      CommitInsert(ns, |ns|, n);
      AppendIsInsert(old(Contents), n.data);
    }

    /** list_pop: `None` on an empty list, which stays as it is; otherwise
      the last element, which is removed. */
    method Pop() returns (r: Option<T>)
      requires Valid()
      modifies Repr
      ensures Valid() && Repr == old(Repr)
      ensures old(Contents) == [] ==> r == None && Contents == []
      ensures old(Contents) != [] ==>
        r == Some(old(Contents)[|old(Contents)| - 1]) && Contents == old(Contents)[..|old(Contents)| - 1]
    {
      if tail == null {
        return None;
      }
      ghost var ns := nodes;
      ghost var k := |ns| - 1;
      var n := tail;
      tail := n.prev;
      assert Opt(tail) <= Repr by {
        if k > 0 {
          assert ns[k - 1] in Repr;
        }
      }
      SpliceOut(ns, k, tail, null);
      if head == n {
        head := null;
      }
      r := Some(n.data);
      CommitRemove(ns, k);
    }

    /** list_unshift: `data` becomes the first element. */
    method Unshift(data: T)
      requires Valid()
      modifies Repr
      ensures Valid() && fresh(Repr - old(Repr))
      ensures Contents == [data] + old(Contents)
    {
      var n := new Node(data);
      LinkFront(n);
    }

    /** list_shift: `None` on an empty list, which stays as it is;
      otherwise the first element, which is removed. */
    method Shift() returns (r: Option<T>)
      requires Valid()
      modifies Repr
      ensures Valid() && Repr == old(Repr)
      ensures old(Contents) == [] ==> r == None && Contents == []
      ensures old(Contents) != [] ==> r == Some(old(Contents)[0]) && Contents == old(Contents)[1..]
    {
      if head == null {
        return None;
      }
      var n := UnlinkHead();
      r := Some(n.data);
    }

    /** Unlinks the first node and returns it: the part shared by
      list_shift and the first half of list_requeue. */
    method UnlinkHead() returns (n: Node<T>)
      requires Valid() && head != null
      modifies Repr
      ensures Valid() && Repr == old(Repr)
      ensures n in Repr && n !in nodes && n.data == old(Contents)[0]
      ensures Contents == old(Contents)[1..]
    {
      ghost var ns := nodes;
      n := head;
      head := n.next;
      assert Opt(head) <= Repr by {
        if |ns| > 1 {
          assert ns[1] in Repr;
        }
      }
      SpliceOut(ns, 0, null, head);
      if tail == n {
        tail := null;
      }
      CommitRemove(ns, 0);
      assert n !in nodes by {
        forall i | 0 <= i < |nodes|
          ensures nodes[i] != n
        {
          assert nodes[i] == ns[i + 1];
        }
      }
    }

    /** Links the fresh node `n` in front of the list: the body shared by
      list_unshift and the index-0 case of list_insert. */
    method LinkFront(n: Node<T>)
      requires Valid() && n !in Repr
      modifies Repr, n
      ensures Valid() && Repr == old(Repr) + {n}
      ensures Contents == [old(n.data)] + old(Contents)
    {
      ghost var ns := nodes;
      SpliceIn(ns, 0, null, n, head);
      head := n;
      if tail == null {
        tail := n;
      }
      CommitInsert(ns, 0, n);
    }

    /** Links the fresh node `n` right after node `p`, which is at position
      `j`: the body of list_insert once its walk has found `p`. */
    method LinkAfter(p: Node<T>, ghost j: nat, n: Node<T>)
      requires Valid() && n !in Repr && j < |nodes| && nodes[j] == p
      modifies Repr, n
      ensures Valid() && Repr == old(Repr) + {n}
      ensures Contents == InsertAt(old(Contents), j + 1, old(n.data))
    {
      ghost var ns := nodes;
      assert Opt(p.next) <= Repr by {
        if j + 1 < |ns| {
          assert ns[j + 1] in Repr;
        }
      }
      SpliceIn(ns, j + 1, p, n, p.next);
      if tail == p {
        tail := n;
      }
      CommitInsert(ns, j + 1, n);
    }

    /** Walks `index` steps from the head, as the loops of list_get and
      list_set do (list_insert and list_remove walk one step less): the
      node at position `index`, or `null` when there is none. */
    method Walk(index: nat) returns (p: Node?<T>)
      requires Valid()
      ensures index < |nodes| ==> p == nodes[index]
      ensures index >= |nodes| ==> p == null
    {
      p := head;
      var left := index;
      ghost var j := 0;
      while left > 0 && p != null
        invariant j <= |nodes| && j + left == index
        invariant j < |nodes| ==> p == nodes[j]
        invariant j == |nodes| ==> p == null
      {
        p := p.next;
        left := left - 1;
        j := j + 1;
      }
    }

    /** list_insert: with `index` at most the length, `data` is put at
      position `index`; beyond it the list is unchanged (the node already
      allocated is dropped). */
    method Insert(data: T, index: nat)
      requires Valid()
      modifies Repr
      ensures Valid() && fresh(Repr - old(Repr))
      ensures index <= |old(Contents)| ==> Contents == InsertAt(old(Contents), index, data)
      ensures index > |old(Contents)| ==> Contents == old(Contents)
    {
      var n := new Node(data);
      if index == 0 {
        LinkFront(n);
        return;
      }
      var p := Walk(index - 1);
      if p == null {
        return;
      }
      LinkAfter(p, index - 1, n);
    }

    /** list_remove: with `index` below the length, the element there is
      removed and returned; otherwise `None`, with the list unchanged. */
    method Remove(index: nat) returns (r: Option<T>)
      requires Valid()
      modifies Repr
      ensures Valid() && Repr == old(Repr)
      ensures index < |old(Contents)| ==> r == Some(old(Contents)[index]) && Contents == RemoveAt(old(Contents), index)
      ensures index >= |old(Contents)| ==> r == None && Contents == old(Contents)
    {
      if index == 0 {
        r := Shift();
        return;
      }
      var p := Walk(index - 1);
      if p == null {
        return None;
      }
      var n := p.next;
      if n == null {
        return None;
      }
      ghost var ns := nodes;
      assert n == ns[index];
      assert Opt(n.next) <= Repr && n.next == (if index + 1 < |ns| then ns[index + 1] else null) by {
        if index + 1 < |ns| {
          assert ns[index + 1] in Repr;
        }
      }
      SpliceOut(ns, index, p, n.next);
      if tail == n {
        tail := p;
      }
      r := Some(n.data);
      CommitRemove(ns, index);
    }

    /** list_get: the element at `index`, or `None` past the end. */
    method Get(index: nat) returns (r: Option<T>)
      requires Valid()
      ensures r == if index < |Contents| then Some(Contents[index]) else None
    {
      var n := Walk(index);
      if n == null {
        return None;
      }
      return Some(n.data);
    }

    /** list_set: the element at `index` is replaced and the old one
      returned; past the end, `None` with the list unchanged. */
    method Set(index: nat, data: T) returns (r: Option<T>)
      requires Valid()
      modifies Repr
      ensures Valid() && Repr == old(Repr)
      ensures index < |old(Contents)| ==> r == Some(old(Contents)[index]) && Contents == old(Contents)[index := data]
      ensures index >= |old(Contents)| ==> r == None && Contents == old(Contents)
    {
      var n := Walk(index);
      if n == null {
        return None;
      }
      r := Some(n.data);
      n.data := data;
      Contents := Contents[index := data];
    }

    /** list_len: count the nodes from the head. */
    method Len() returns (len: nat)
      requires Valid()
      ensures len == |Contents|
    {
      len := 0;
      var n := head;
      while n != null
        invariant len <= |nodes|
        invariant len < |nodes| ==> n == nodes[len]
        invariant len == |nodes| ==> n == null
        decreases |nodes| - len
      {
        len := len + 1;
        n := n.next;
      }
    }

    /** list_clear: shift until the list is empty. */
    method Clear()
      requires Valid()
      modifies Repr
      ensures Valid() && Repr == old(Repr) && Contents == []
    {
      while head != null
        invariant Valid() && Repr == old(Repr)
        decreases |Contents|
      {
        var _ := Shift();
      }
    }

    /** list_enqueue: list_push. */
    method Enqueue(data: T)
      requires Valid()
      modifies Repr
      ensures Valid() && fresh(Repr - old(Repr))
      ensures Contents == old(Contents) + [data]
    {
      Push(data);
    }

    /** list_dequeue: list_shift. */
    method Dequeue() returns (r: Option<T>)
      requires Valid()
      modifies Repr
      ensures Valid() && Repr == old(Repr)
      ensures old(Contents) == [] ==> r == None && Contents == []
      ensures old(Contents) != [] ==> r == Some(old(Contents)[0]) && Contents == old(Contents)[1..]
    {
      r := Shift();
    }

    /** list_requeue: the first element, moved to the end; `None` on an
      empty list. */
    method Requeue() returns (r: Option<T>)
      requires Valid()
      modifies Repr
      ensures Valid() && Repr == old(Repr)
      ensures Contents == Rotate(old(Contents))
      ensures r == if old(Contents) == [] then None else Some(old(Contents)[0])
    {
      if head == null {
        return None;
      }
      var n := UnlinkHead();
      LinkBack(n);
      return Some(n.data);
    }

    /** list_apply: the callback receives the elements one by one from the
      head; the model returns what it received, in order. */
    method Apply() returns (visited: seq<T>)
      requires Valid()
      ensures visited == Contents
    {
      visited := [];
      var n := head;
      while n != null
        invariant |visited| <= |nodes|
        invariant visited == Contents[..|visited|]
        invariant |visited| < |nodes| ==> n == nodes[|visited|]
        invariant |visited| == |nodes| ==> n == null
        decreases |nodes| - |visited|
      {
        visited := visited + [n.data];
        n := n.next;
      }
    }
  }
}
