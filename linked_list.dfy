/**
 * The crossover list of src/utils/linked_list.rs: a hand-rolled singly linked
 * list of heap nodes, and a cursor that cycles through it and can rewire the
 * `next` pointers of two lists so that they exchange a segment each.
 *
 * A list's chain (the nodes reachable from `head`) is kept as the ghost
 * sequence `nodes`, with their elements in `contents`. The `length` and `tail`
 * fields are real fields that the source does not always keep up to date, so
 * `Valid()` does not tie them to the chain: `Counted()` and `TailOk()` say
 * when they agree with it, and each method says what it does to them.
 */
module LinkedLists {
  import opened Wrappers

  class Node<T> {
    const data: T
    var next: Node?<T>

    constructor (data: T)
      ensures this.data == data && next == null
    {
      this.data := data;
      next := null;
    }

    /** Redirects `next` and hands back the successor it replaced. */
    method PointTo(node: Node?<T>) returns (previous: Node?<T>)
      modifies this
      ensures next == node && previous == old(next)
    {
      previous := next;
      next := node;
    }
  }

  /** Each node of `ns` points at the one after it; the last points nowhere. */
  ghost predicate Linked<T>(ns: seq<Node<T>>)
    reads ns
  {
    && (forall i :: 0 <= i < |ns| - 1 ==> ns[i].next == ns[i + 1])
    && (|ns| > 0 ==> ns[|ns| - 1].next == null)
  }

  /** No node of `ps` occurs in `qs`. */
  ghost predicate Disjoint<T>(ps: seq<Node<T>>, qs: seq<Node<T>>) {
    forall i :: 0 <= i < |ps| ==> ps[i] !in qs
  }

  /** A null-terminated chain never visits a node twice. */
  lemma {:induction false} LinkedNoRevisit<T>(ns: seq<Node<T>>, i: nat, j: nat)
    requires Linked(ns) && i < j < |ns|
    ensures ns[i] != ns[j]
    decreases |ns| - j
  {
    if j < |ns| - 1 {
      LinkedNoRevisit(ns, i + 1, j + 1);
    } else {
      assert ns[i].next == ns[i + 1];
    }
  }

  /** The node at position `k` of a chain occurs nowhere else in it. */
  lemma LinkedUnique<T>(ns: seq<Node<T>>, k: nat)
    requires Linked(ns) && k < |ns|
    ensures forall i :: 0 <= i < |ns| && i != k ==> ns[i] != ns[k]
  {
    forall i | 0 <= i < |ns| && i != k
      ensures ns[i] != ns[k]
    {
      if i < k {
        LinkedNoRevisit(ns, i, k);
      } else {
        LinkedNoRevisit(ns, k, i);
      }
    }
  }

  /**
   * Every node of `ns` except the one at position `skip` points at the next
   * one, or nowhere if it is the last: what remains of a chain after one
   * `next` field has been rewritten.
   */
  ghost predicate LinkedExcept<T>(ns: seq<Node<T>>, skip: int)
    reads ns
  {
    && (forall i :: 0 <= i < |ns| - 1 && i != skip ==> ns[i].next == ns[i + 1])
    && (|ns| > 0 && skip != |ns| - 1 ==> ns[|ns| - 1].next == null)
  }

  /** Linking `node` after position `k` of a chain cuts the chain there and ends it with that node. */
  lemma LinkedAfter<T>(ns: seq<Node<T>>, cs: seq<T>, k: nat, node: Node<T>)
    requires Holds(ns, cs) && k < |ns| && LinkedExcept(ns, k)
    requires ns[k].next == node && node.next == null
    ensures Chain(ns[..k + 1] + [node], cs[..k + 1] + [node.data])
  {
    var w := ns[..k + 1] + [node];
    forall i | 0 <= i < |w| - 1
      ensures w[i].next == w[i + 1]
    {
      if i < k {
        assert w[i] == ns[i] && w[i + 1] == ns[i + 1];
      }
    }
  }

  /**
   * The chain after `append` has written `node` into the `next` field of
   * `anchor`: cut after the link point and ended with `node`, or, when the
   * anchor lies outside it, unchanged.
   */
  lemma LinkedAt<T>(ns: seq<Node<T>>, cs: seq<T>, lp: Option<nat>, anchor: Node?<T>, node: Node<T>)
    requires Holds(ns, cs) && node.next == null
    requires match lp
             case Some(k) => k <= |ns| && (k == 0 <==> anchor == null) && (k > 0 ==> anchor == ns[k - 1])
             case None => anchor != null && anchor !in ns
    requires anchor != null ==> anchor.next == node
    requires LinkedExcept(ns, if lp.Some? then lp.value - 1 else -1)
    ensures match lp
            case Some(k) => Chain(ns[..k] + [node], cs[..k] + [node.data])
            case None => Chain(ns, cs)
  {
    match lp
    case Some(k) =>
      if k > 0 {
        LinkedAfter(ns, cs, k - 1, node);
        assert ns[..k - 1 + 1] == ns[..k];
      }
    case None =>
  }

  /** The nodes of a chain from position `from` on, whose successors are all kept, still form a chain. */
  lemma KeptSuffix<T>(ns: seq<Node<T>>, from: nat, skip: int)
    requires LinkedExcept(ns, skip) && skip < from <= |ns|
    ensures Linked(ns[from..])
  {
    var v := ns[from..];
    forall i | 0 <= i < |v| - 1
      ensures v[i].next == v[i + 1]
    {
      assert v[i] == ns[from + i] && v[i + 1] == ns[from + i + 1];
    }
  }

  /**
   * Clearing the `next` field at position `k` of a chain splits it in two:
   * the nodes up to `k` and the nodes after it.
   */
  lemma LinkedCut<T>(ns: seq<Node<T>>, cs: seq<T>, k: nat)
    requires Holds(ns, cs) && k < |ns| && LinkedExcept(ns, k) && ns[k].next == null
    ensures Chain(ns[..k + 1], cs[..k + 1]) && Chain(ns[k + 1..], cs[k + 1..])
  {
    var u := ns[..k + 1];
    forall i | 0 <= i < |u| - 1
      ensures u[i].next == u[i + 1]
    {
      assert u[i] == ns[i];
    }
    KeptSuffix(ns, k + 1, k);
  }

  /** `ns` carries the elements `cs`, in order. */
  ghost predicate Holds<T>(ns: seq<Node<T>>, cs: seq<T>) {
    |cs| == |ns| && forall i :: 0 <= i < |ns| ==> ns[i].data == cs[i]
  }

  /** A null-terminated chain of nodes carrying `cs`. */
  ghost predicate Chain<T>(ns: seq<Node<T>>, cs: seq<T>)
    reads ns
  {
    Linked(ns) && Holds(ns, cs)
  }

  /** The position of the last occurrence of `v` in `s`. */
  ghost function LastIndexOf<T>(s: seq<T>, v: T): (k: nat)
    requires v in s
    ensures k < |s| && s[k] == v && v !in s[k + 1..]
  {
    if s[|s| - 1] == v then |s| - 1 else LastIndexOf(s[..|s| - 1], v)
  }

  /**
   * How many nodes of the chain `ns` stay in it when `append` links a new
   * node after the node `tail` designates (after the head when `tail` is
   * None); None when `tail` lies outside the chain, which then does not
   * change.
   */
  ghost function LinkPoint<T>(ns: seq<Node<T>>, tail: Node?<T>): Option<nat>
  {
    if |ns| == 0 then Some(0)
    else if tail == null then Some(1)
    else if tail in ns then Some(LastIndexOf(ns, tail) + 1)
    else None
  }

  class LinkedList<T> {
    var head: Node?<T>
    var tail: Node?<T>
    var length: nat
    /** The chain reachable from `head`, in order. */
    ghost var nodes: seq<Node<T>>
    /** The elements of that chain. */
    ghost var contents: seq<T>

    ghost predicate Valid()
      reads this, nodes
    {
      && Chain(nodes, contents)
      && head == (if |nodes| == 0 then null else nodes[0])
    }

    /** The `length` field counts the chain. */
    ghost predicate Counted()
      reads this
    {
      length == |nodes|
    }

    /**
     * The `tail` field is where `Append` must link a new node: the last node,
     * except that a list of one element built by `Append` has no tail.
     */
    ghost predicate TailOk()
      reads this
    {
      if |nodes| == 0 then tail == null
      else if |nodes| == 1 then tail == null || tail == nodes[0]
      else tail == nodes[|nodes| - 1]
    }

    constructor ()
      ensures Valid() && Counted() && TailOk()
      ensures head == null && tail == null && length == 0 && nodes == [] && contents == []
    {
      head, tail, length := null, null, 0;
      nodes, contents := [], [];
    }

    /** A list literal: the given fields, with `nodes` and `contents` as the chain they stand for. */
    constructor From(head: Node?<T>, tail: Node?<T>, length: nat, ghost nodes: seq<Node<T>>, ghost contents: seq<T>)
      ensures this.head == head && this.tail == tail && this.length == length
      ensures this.nodes == nodes && this.contents == contents
    {
      this.head, this.tail, this.length := head, tail, length;
      this.nodes, this.contents := nodes, contents;
    }

    function Len(): (r: nat)
      reads this
      ensures Counted() ==> r == |nodes|
    {
      length
    }

    function IsEmpty(): (b: bool)
      reads this
      ensures Counted() ==> (b <==> nodes == [])
    {
      Len() == 0
    }

    function Head(): (h: Node?<T>)
      reads this, nodes
      requires Valid()
      ensures h == null <==> contents == []
      ensures h != null ==> h.data == contents[0]
    {
      head
    }

    /** `tail`: the field as it stands, which is the last node whenever it is up to date. */
    function Tail(): (t: Node?<T>)
      reads this, nodes
      requires Valid()
      ensures TailOk() && contents == [] ==> t == null
      ensures TailOk() && |contents| >= 2 ==> t != null
      ensures TailOk() && t != null ==> t.data == contents[|contents| - 1]
    {
      tail
    }

    /**
     * Links a fresh node after the node `tail` designates. On a list whose
     * `tail` is stale the new node lands wherever `tail` points: after the
     * head when `tail` is None, inside the chain (cutting it) or in a chain
     * this list does not own.
     */
    method Append(x: T)
      requires Valid()
      modifies this, if tail == null then head else tail
      ensures Valid() && length == old(length) + 1
      ensures match LinkPoint(old(nodes), old(tail))
              case Some(k) =>
                && k <= |old(nodes)| && |nodes| == k + 1 && nodes[..k] == old(nodes)[..k]
                && fresh(nodes[k]) && contents == old(contents)[..k] + [x]
              case None => nodes == old(nodes) && contents == old(contents) && old(tail).next == tail
      ensures old(head) == null ==> tail == old(tail) && head != null && fresh(head)
      ensures old(head) != null ==> head == old(head)
      ensures old(head) != null ==> tail != null && fresh(tail) && tail.data == x
      ensures old(TailOk()) ==> TailOk()
      ensures old(TailOk()) ==> contents == old(contents) + [x]
    {
      if TailOk() {
        TailOkLinksAtEnd();
      }
      ghost var ns, cs, anchor := nodes, contents, if head == null then null else if tail == null then head else tail;
      ghost var lp := LinkPoint(nodes, tail);
      ghost var skip := if lp.Some? then lp.value - 1 else -1;
      var node := new Node(x);
      if head == null {
        head := node;
      } else {
        // With no tail the new node goes right after the head.
        Attach(ns, skip, if tail == null then head else tail, node);
        tail := node;
      }
      length := length + 1;
      nodes := if lp.Some? then ns[..lp.value] + [node] else ns;
      contents := if lp.Some? then cs[..lp.value] + [x] else cs;
      AppendedList(this, ns, cs, lp, anchor, node);
    }

    /** With an accurate `tail`, `Append` links at the end of the chain. */
    lemma TailOkLinksAtEnd()
      requires TailOk()
      ensures LinkPoint(nodes, tail) == Some(|nodes|)
    {
    }

    /** Unlinks the head node and returns it; `length` is left as it was. */
    method Dequeue() returns (removed: Node?<T>)
      requires Valid()
      modifies this
      ensures Valid()
      ensures removed == old(head) && length == old(length)
      ensures old(nodes) == [] ==> nodes == [] && contents == [] && tail == old(tail)
      ensures old(nodes) != [] ==>
                && removed != null && removed.data == old(contents)[0]
                && nodes == old(nodes)[1..] && contents == old(contents)[1..]
                && tail == (if nodes == [] then null else old(tail))
      ensures old(TailOk()) ==> TailOk()
    {
      removed := head;
      if head != null {
        assert head.next == if 1 < |nodes| then nodes[1] else null;
        head := head.next;
        nodes, contents := nodes[1..], contents[1..];
        if head == null {
          tail := null;
        }
      }
    }

    /** Dequeues until the chain is empty; `length` keeps its old value. */
    method Clear()
      requires Valid()
      modifies this
      ensures Valid() && nodes == [] && contents == [] && head == null
      ensures length == old(length)
      ensures tail == if old(nodes) == [] then old(tail) else null
    {
      while head != null
        invariant Valid() && length == old(length)
        invariant nodes != [] ==> tail == old(tail)
        invariant nodes == [] ==> tail == if old(nodes) == [] then old(tail) else null
        decreases |nodes|
      {
        var removed := Dequeue();
      }
    }

    /**
     * The cut of `CursorMut::split_after`: `at`, the node at position
     * `used - 1`, becomes the last node and tail of this list, and the nodes
     * after it go to a new list that inherits the old `tail` and the
     * remaining count.
     */
    method CutAfter(at: Node<T>, used: nat) returns (rest: LinkedList<T>)
      requires Valid() && 1 <= used <= |nodes| && at == nodes[used - 1] && used <= length
      modifies this`tail, this`length, this`nodes, this`contents, at
      ensures Valid() && rest.Valid() && fresh(rest)
      ensures nodes == old(nodes)[..used] && contents == old(contents)[..used]
      ensures tail == at && length == used && TailOk()
      ensures rest.nodes == old(nodes)[used..] && rest.contents == old(contents)[used..]
      ensures rest.tail == old(tail) && rest.length == old(length) - used
      ensures old(TailOk()) && used < |old(nodes)| ==> rest.TailOk()
    {
      ghost var ns, cs := nodes, contents;
      assert at.next == if used < |ns| then ns[used] else null;
      assert TailOk() && used < |ns| ==> tail == ns[|ns| - 1];
      rest := new LinkedList.From(at.next, tail, length - used, ns[used..], cs[used..]);
      Unlink(ns, used - 1, at);
      length, tail := used, at;
      nodes, contents := ns[..used], cs[..used];
      CutLists(this, rest, ns, cs, used);
    }

    /** `mem::replace` with a new list: every field moves to the result and this list starts over empty. */
    method Take() returns (taken: LinkedList<T>)
      requires Valid()
      modifies this
      ensures Valid() && taken.Valid() && fresh(taken)
      ensures nodes == [] && contents == [] && head == null && tail == null && length == 0
      ensures taken.nodes == old(nodes) && taken.contents == old(contents)
      ensures taken.head == old(head) && taken.tail == old(tail) && taken.length == old(length)
    {
      taken := new LinkedList();
      taken.head, taken.tail, taken.length := head, tail, length;
      taken.nodes, taken.contents := nodes, contents;
      head, tail, length := null, null, 0;
      nodes, contents := [], [];
    }

    /**
     * Appends every element of `xs`, in order. On a list whose `tail` is up
     * to date the elements end up after the old ones; on any other list each
     * one lands where `Append` puts it.
     */
    method Extend(xs: seq<T>)
      requires Valid()
      modifies this, if tail == null then head else tail
      ensures Valid() && length == old(length) + |xs|
      ensures old(TailOk()) ==> TailOk() && contents == old(contents) + xs
    {
      for i := 0 to |xs|
        invariant Valid() && length == old(length) + i
        invariant old(TailOk()) ==> TailOk() && contents == old(contents) + xs[..i]
        invariant var t := if tail == null then head else tail;
                  t == null || t == old(if tail == null then head else tail) || fresh(t)
      {
        Append(xs[i]);
        assert xs[..i + 1] == xs[..i] + [xs[i]];
      }
      assert xs[..|xs|] == xs;
    }
  }

  /** `self.iter().eq(other)`: walks both chains together, comparing elements. */
  method SameElements<T(==)>(a: LinkedList<T>, b: LinkedList<T>) returns (r: bool)
    requires a.Valid() && b.Valid()
    ensures r <==> a.contents == b.contents
  {
    var x, y, i := a.head, b.head, 0;
    while x != null && y != null
      invariant 0 <= i <= |a.nodes| && i <= |b.nodes|
      invariant x == (if i < |a.nodes| then a.nodes[i] else null)
      invariant y == (if i < |b.nodes| then b.nodes[i] else null)
      invariant a.contents[..i] == b.contents[..i]
      decreases |a.nodes| - i
    {
      if x.data != y.data {
        assert a.contents[i] != b.contents[i];
        return false;
      }
      x, y, i := x.next, y.next, i + 1;
    }
    r := x == null && y == null;
    if r {
      assert a.contents == a.contents[..i] && b.contents == b.contents[..i];
    } else {
      assert |a.contents| != |b.contents|;
    }
  }

  /** What `eq` compares: the `length` fields and the element sequences. */
  predicate SameList<T(==)>(n: nat, cs: seq<T>, m: nat, ds: seq<T>)
  {
    n == m && cs == ds
  }

  /** `PartialEq::eq`: equal `length` fields and equal element sequences. */
  method Equals<T(==)>(a: LinkedList<T>, b: LinkedList<T>) returns (r: bool)
    requires a.Valid() && b.Valid()
    ensures r <==> SameList(a.length, a.contents, b.length, b.contents)
  {
    r := a.Len() == b.Len();
    if r {
      r := SameElements(a, b);
    }
  }

  /** `ne` as written: true only when both the lengths and the elements differ. */
  predicate NotEqualAsWritten<T(==)>(n: nat, cs: seq<T>, m: nat, ds: seq<T>)
  {
    n != m && cs != ds
  }

  /** `PartialEq::ne` as written: `self.len() != other.len() && self.iter().ne(other)`. */
  method NotEqualsAsWritten<T(==)>(a: LinkedList<T>, b: LinkedList<T>) returns (r: bool)
    requires a.Valid() && b.Valid()
    ensures r == NotEqualAsWritten(a.length, a.contents, b.length, b.contents)
  {
    r := a.Len() != b.Len();
    if r {
      var same := SameElements(a, b);
      r := !same;
    }
  }

  /**
   * Two one-element lists holding different elements are neither equal nor,
   * as written, unequal.
   */
  lemma NotEqualMissesDifferentElements()
    ensures !SameList(1, [1], 1, [2])
    ensures !NotEqualAsWritten(1, [1], 1, [2])
  {
    assert [1][0] != [2][0];
  }

  /** `ne` as the negation of `eq`, which is what `PartialEq` requires of it. */
  method NotEquals<T(==)>(a: LinkedList<T>, b: LinkedList<T>) returns (r: bool)
    requires a.Valid() && b.Valid()
    ensures r <==> !SameList(a.length, a.contents, b.length, b.contents)
  {
    var equal := Equals(a, b);
    r := !equal;
  }

  /**
   * Where `CursorMut::next` moves the index: one node on from a node; from the
   * ghost front, or from the position past the tail whose index does not
   * exceed the `length` field, to the head; from a position past the tail
   * beyond `length`, back to the ghost front. Nothing moves on an empty chain.
   */
  function NextIndex(index: Option<nat>, n: nat, length: nat): Option<nat>
  {
    match index
    case Some(k) =>
      if k < n then Some(k + 1)
      else if k > length then None
      else if n > 0 then Some(0)
      else index
    case None => if n > 0 then Some(0) else None
  }

  /** The index after `steps` calls of `next`. */
  function Advance(index: Option<nat>, n: nat, length: nat, steps: nat): Option<nat>
  {
    if steps == 0 then index else NextIndex(Advance(index, n, length, steps - 1), n, length)
  }

  /** From the ghost front of a counted chain, the k-th `next` lands on element k - 1. */
  lemma {:induction false} NextVisitsInOrder(n: nat, steps: nat)
    requires 1 <= steps <= n
    ensures Advance(None, n, n, steps) == Some(steps - 1)
  {
    if steps > 1 {
      NextVisitsInOrder(n, steps - 1);
    }
  }

  /** After the last element comes the position past the tail, and then the head again. */
  lemma NextWrapsAround(n: nat)
    requires n >= 1
    ensures Advance(None, n, n, n + 1) == Some(n)
    ensures Advance(None, n, n, n + 2) == Some(0)
  {
    NextVisitsInOrder(n, n);
  }

  /** On an empty chain the cursor never leaves the ghost front. */
  lemma {:induction false} NextOnEmptyStays(length: nat, steps: nat)
    ensures Advance(None, 0, length, steps) == None
  {
    if steps > 0 {
      NextOnEmptyStays(length, steps - 1);
    }
  }

  /** How many `next` calls remain before the cursor reaches `target`. */
  function SeekDistance(index: Option<nat>, target: nat, n: nat): nat
  {
    match index
    case None => target + 1
    case Some(k) =>
      if k == target then 0
      else if k < n then (if k < target then target - k else n - k + target + 2)
      else target + 2
  }

  /**
   * The assertions of `CursorMut::swap` on two non-empty lists, which check
   * both lists' indices against this list's `length` field `n`, together
   * with the start indices `seek_before` needs to avoid underflow.
   */
  predicate SwapAsserts(n: nat, start: nat, otherStart: nat, end: Option<nat>, otherEnd: Option<nat>)
  {
    && start < end.GetOr(n) && otherStart < otherEnd.GetOr(n)
    && (end.Some? ==> end.value <= n) && (otherEnd.Some? ==> otherEnd.value <= n)
    && 1 <= start && 1 <= otherStart
  }

  /**
   * The position, counted from 1, of the node `seek_before(idx)` stops at: the
   * cursor cycles, so an index past `length` wraps round to the front.
   */
  function SeekPosition(idx: nat, length: nat): (x: nat)
    requires idx >= 1 && length > 0
    ensures 1 <= x <= length
    ensures idx <= length ==> x == idx
    decreases idx
  {
    if idx <= length then idx else SeekPosition(idx - length, length)
  }

  /** The wrapped position is the one `seek` computes with `(idx - 1) % length`. */
  lemma {:induction false} SeekPositionIsModulo(idx: nat, length: nat)
    requires idx >= 1 && length > 0
    ensures SeekPosition(idx, length) == (idx - 1) % length + 1
    decreases idx
  {
    if idx > length {
      SeekPositionIsModulo(idx - length, length);
      var q, r := (idx - 1 - length) / length, (idx - 1 - length) % length;
      assert idx - 1 == (q + 1) * length + r;
      ModuloUnique(idx - 1, length, q + 1, r);
    }
  }

  lemma ModuloUnique(a: nat, length: nat, q: int, r: int)
    requires length > 0 && 0 <= r < length && a == q * length + r
    ensures a % length == r
  {
    var q', r' := a / length, a % length;
    assert (q - q') * length == r' - r;
    ProductBelowFactor(q - q', length);
  }

  /** A multiple of `length` strictly between `-length` and `length` is zero. */
  lemma ProductBelowFactor(d: int, length: int)
    requires length > 0 && -length < d * length < length
    ensures d == 0
  {
  }

  /**
   * The four seeks of `swap` stop: the starts lie within the chains of
   * lengths `la` and `lb`, and the ends within the chains the first crossing
   * leaves. `n` and `m` are the `length` fields the seeks reduce by.
   */
  predicate SwapStops(n: nat, m: nat, la: nat, lb: nat, s: nat, os: nat, e: nat, oe: nat)
  {
    && n > 0 && m > 0 && s >= 1 && os >= 1 && e >= 1 && oe >= 1
    && var x, y := SeekPosition(s, n), SeekPosition(os, m);
       && x <= la && y <= lb
       && SeekPosition(e, n) <= x + (lb - y) && SeekPosition(oe, m) <= y + (la - x)
  }

  /** One pointer exchange: `a` continues with `b` after position `x`, `b` with `a` after position `y`. */
  function Cross<T>(a: seq<T>, b: seq<T>, x: nat, y: nat): (r: (seq<T>, seq<T>))
    requires x <= |a| && y <= |b|
    ensures |r.0| == x + (|b| - y) && |r.1| == y + (|a| - x)
  {
    (a[..x] + b[y..], b[..y] + a[x..])
  }

  /** The two exchanges of `swap`: at positions `x` and `y`, then at `x2` and `y2` of the crossed chains. */
  function CrossTwiceAt<T>(a: seq<T>, b: seq<T>, x: nat, y: nat, x2: nat, y2: nat): (r: (seq<T>, seq<T>))
    requires x <= |a| && y <= |b| && x2 <= x + (|b| - y) && y2 <= y + (|a| - x)
  {
    var c := Cross(a, b, x, y);
    Cross(c.0, c.1, x2, y2)
  }

  /**
   * What `swap` leaves in the two lists: this list takes `e - s` elements of
   * the other from `os` and resumes after `oe - os` of its own elements from
   * `s`; the other list takes those `oe - os` elements and resumes after the
   * `e - s` it gave away.
   */
  function SwapSegments<T>(a: seq<T>, b: seq<T>, s: nat, os: nat, e: nat, oe: nat): (r: (seq<T>, seq<T>))
    requires s <= e && os <= oe && os + (e - s) <= |b| && s + (oe - os) <= |a|
  {
    (a[..s] + b[os..os + (e - s)] + a[s + (oe - os)..],
     b[..os] + a[s..s + (oe - os)] + b[os + (e - s)..])
  }

  /** No element is lost or duplicated: the two lists keep all elements between them. */
  lemma SwapConservesElements<T>(a: seq<T>, b: seq<T>, s: nat, os: nat, e: nat, oe: nat)
    requires s <= e && os <= oe && os + (e - s) <= |b| && s + (oe - os) <= |a|
    ensures var r := SwapSegments(a, b, s, os, e, oe);
            multiset(r.0) + multiset(r.1) == multiset(a) + multiset(b)
  {
    var l, ol := e - s, oe - os;
    var a1, a2, a3 := a[..s], a[s..s + ol], a[s + ol..];
    var b1, b2, b3 := b[..os], b[os..os + l], b[os + l..];
    assert a == a1 + a2 + a3;
    assert b == b1 + b2 + b3;
    assert SwapSegments(a, b, s, os, e, oe) == (a1 + b2 + a3, b1 + a2 + b3);
  }

  /**
   * The `length` fields stay right exactly when the two segments have the
   * same length; otherwise this list grows by `(e - s) - (oe - os)` and the
   * other shrinks by as much.
   */
  lemma SwapLengths<T>(a: seq<T>, b: seq<T>, s: nat, os: nat, e: nat, oe: nat)
    requires s <= e && os <= oe && os + (e - s) <= |b| && s + (oe - os) <= |a|
    ensures var r := SwapSegments(a, b, s, os, e, oe);
            && |r.0| + (oe - os) == |a| + (e - s)
            && |r.1| + (e - s) == |b| + (oe - os)
            && (|r.0| == |a| <==> e - s == oe - os)
  {
  }

  /** With segments of equal length, `swap` is a true two-point exchange. */
  lemma SwapExchanges<T>(a: seq<T>, b: seq<T>, s: nat, os: nat, e: nat, oe: nat)
    requires s <= e <= |a| && os <= oe <= |b| && e - s == oe - os
    ensures SwapSegments(a, b, s, os, e, oe) == (a[..s] + b[os..oe] + a[e..], b[..os] + a[s..e] + b[oe..])
  {
  }

  /** The two pointer exchanges of `swap`, composed, give `SwapSegments`. */
  lemma CrossTwice<T>(a: seq<T>, b: seq<T>, s: nat, os: nat, e: nat, oe: nat)
    requires s <= |a| && os <= |b|
    requires s <= e <= s + (|b| - os) && os <= oe <= os + (|a| - s)
    ensures var s1, o1 := a[..s] + b[os..], b[..os] + a[s..];
            (s1[..e] + o1[oe..], o1[..oe] + s1[e..]) == SwapSegments(a, b, s, os, e, oe)
  {
    var s1, o1 := a[..s] + b[os..], b[..os] + a[s..];
    assert s1[..e] == a[..s] + b[os..os + (e - s)];
    assert o1[oe..] == a[s + (oe - os)..];
    assert o1[..oe] == b[..os] + a[s..s + (oe - os)];
    assert s1[e..] == b[os + (e - s)..];
  }

  /** No element is lost or duplicated by one exchange, or by the two of `swap`. */
  lemma CrossConservesElements<T>(a: seq<T>, b: seq<T>, x: nat, y: nat, x2: nat, y2: nat)
    requires x <= |a| && y <= |b| && x2 <= x + (|b| - y) && y2 <= y + (|a| - x)
    ensures var c := Cross(a, b, x, y);
            multiset(c.0) + multiset(c.1) == multiset(a) + multiset(b)
    ensures var r := CrossTwiceAt(a, b, x, y, x2, y2);
            multiset(r.0) + multiset(r.1) == multiset(a) + multiset(b)
  {
    var c := Cross(a, b, x, y);
    CrossOnce(a, b, x, y);
    CrossOnce(c.0, c.1, x2, y2);
  }

  /** Every node of the crossed chains comes from one of the two chains. */
  lemma CrossMembers<T>(a: seq<T>, b: seq<T>, x: nat, y: nat)
    requires x <= |a| && y <= |b|
    ensures forall t :: t in a[..x] + b[y..] ==> t in a || t in b
    ensures forall t :: t in b[..y] + a[x..] ==> t in a || t in b
  {
    forall t | t in a[..x] + b[y..]
      ensures t in a || t in b
    {
      var k :| 0 <= k < |a[..x] + b[y..]| && (a[..x] + b[y..])[k] == t;
      if k < x { assert a[k] == t; } else { assert b[y + (k - x)] == t; }
    }
    forall t | t in b[..y] + a[x..]
      ensures t in a || t in b
    {
      var k :| 0 <= k < |b[..y] + a[x..]| && (b[..y] + a[x..])[k] == t;
      if k < y { assert b[k] == t; } else { assert a[x + (k - y)] == t; }
    }
  }

  /** One exchange keeps the multiset union of the two lists. */
  lemma CrossOnce<T>(a: seq<T>, b: seq<T>, x: nat, y: nat)
    requires x <= |a| && y <= |b|
    ensures var c := Cross(a, b, x, y);
            multiset(c.0) + multiset(c.1) == multiset(a) + multiset(b)
  {
    assert a == a[..x] + a[x..] && b == b[..y] + b[y..];
  }

  /**
   * On lists whose `length` fields are up to date and whose other end does
   * not wrap, the two exchanges at the seek positions give `SwapSegments`.
   */
  lemma RewiredIsSegments<T>(a: seq<T>, b: seq<T>, s: nat, os: nat, e: nat, oe: nat)
    requires SwapStops(|a|, |b|, |a|, |b|, s, os, e, oe)
    requires s < e <= |a| && os < oe <= |b|
    ensures CrossTwiceAt(a, b, SeekPosition(s, |a|), SeekPosition(os, |b|), SeekPosition(e, |a|), SeekPosition(oe, |b|))
            == SwapSegments(a, b, s, os, e, oe)
  {
    CrossTwice(a, b, s, os, e, oe);
  }

  /** `RewiredIsSegments` in the terms of `swap`'s arguments, for lists whose `length` fields are up to date. */
  lemma UnwrappedSwapIsSegments<T>(a: seq<T>, b: seq<T>, start: nat, otherStart: nat, end: Option<nat>, otherEnd: Option<nat>)
    requires |a| > 0 && |b| > 0 && SwapAsserts(|a|, start, otherStart, end, otherEnd)
    requires SwapStops(|a|, |b|, |a|, |b|, start, otherStart, end.GetOr(|a|), otherEnd.GetOr(|b|))
    requires otherStart < otherEnd.GetOr(|b|) <= |b|
    ensures var e, oe := end.GetOr(|a|), otherEnd.GetOr(|b|);
            && SwapSegments(a, b, start, otherStart, e, oe).0
               == CrossTwiceAt(a, b, SeekPosition(start, |a|), SeekPosition(otherStart, |b|), SeekPosition(e, |a|), SeekPosition(oe, |b|)).0
            && SwapSegments(a, b, start, otherStart, e, oe).1
               == CrossTwiceAt(a, b, SeekPosition(start, |a|), SeekPosition(otherStart, |b|), SeekPosition(e, |a|), SeekPosition(oe, |b|)).1
  {
    RewiredIsSegments(a, b, start, otherStart, end.GetOr(|a|), otherEnd.GetOr(|b|));
  }

  /**
   * The assertions of `swap` bound the other end by this list's length, so an
   * other end past the other list's `length` gets through and wraps: on
   * lists of lengths 5 and 3 with starts 1 and 1 and ends 2 and 5, the other
   * end lands on position 2, as an end index of 2 would.
   */
  lemma OtherEndWraps<T>(a: seq<T>, b: seq<T>)
    requires |a| == 5 && |b| == 3
    ensures SwapAsserts(5, 1, 1, Some(2), Some(5))
    ensures SwapStops(5, 3, 5, 3, 1, 1, 2, 5)
    ensures CrossTwiceAt(a, b, SeekPosition(1, 5), SeekPosition(1, 3), SeekPosition(2, 5), SeekPosition(5, 3))
            == SwapSegments(a, b, 1, 1, 2, 2)
  {
    assert SeekPosition(1, 5) == 1 && SeekPosition(1, 3) == 1 && SeekPosition(2, 5) == 2 && SeekPosition(2, 3) == 2;
    assert SeekPosition(5, 3) == 2;
    RewiredIsSegments(a, b, 1, 1, 2, 2);
  }

  /** A chain whose last node points at the head of a null-terminated chain forms one with it. */
  lemma LinkedJoin<T>(us: seq<Node<T>>, vs: seq<Node<T>>)
    requires us != [] && (forall i :: 0 <= i < |us| - 1 ==> us[i].next == us[i + 1])
    requires us[|us| - 1].next == (if vs == [] then null else vs[0]) && Linked(vs)
    ensures Linked(us + vs)
  {
    var w := us + vs;
    forall k | 0 <= k < |w| - 1
      ensures w[k].next == w[k + 1]
    {
      if k < |us| - 1 {
        assert w[k] == us[k] && w[k + 1] == us[k + 1];
      } else if k == |us| - 1 {
        assert w[k + 1] == vs[0];
      } else {
        assert w[k] == vs[k - |us|] && w[k + 1] == vs[k - |us| + 1];
      }
    }
  }

  /** Exchanging the tails of two disjoint chains leaves them disjoint. */
  lemma CrossDisjoint<T>(ps: seq<Node<T>>, qs: seq<Node<T>>, x: nat, y: nat)
    requires Linked(ps) && Linked(qs) && Disjoint(ps, qs) && x <= |ps| && y <= |qs|
    ensures Disjoint(ps[..x] + qs[y..], qs[..y] + ps[x..])
  {
    var u, v := ps[..x] + qs[y..], qs[..y] + ps[x..];
    forall i | 0 <= i < |u|
      ensures u[i] !in v
    {
      if i < x {
        assert u[i] == ps[i];
        forall j | x <= j < |ps|
          ensures ps[i] != ps[j]
        {
          LinkedNoRevisit(ps, i, j);
        }
        assert u[i] !in qs[..y];
        assert u[i] !in ps[x..];
      } else {
        var k := i - x + y;
        assert u[i] == qs[k];
        forall j | 0 <= j < y
          ensures qs[j] != qs[k]
        {
          LinkedNoRevisit(qs, j, k);
        }
        assert qs[k] !in ps;
        assert u[i] !in qs[..y];
        assert u[i] !in ps[x..];
      }
    }
  }

  /**
   * One pointer exchange of `swap`: the node at position `x - 1` of `p` takes
   * over the successor of the node at position `y - 1` of `q`, and the other
   * way round, so the chains swap their tails after those positions.
   */
  method Rewire<T>(p: LinkedList<T>, q: LinkedList<T>, x: nat, y: nat, pAt: Node?<T>, qAt: Node?<T>)
    requires p.Valid() && q.Valid() && p != q && Disjoint(p.nodes, q.nodes)
    requires 1 <= x <= |p.nodes| && 1 <= y <= |q.nodes|
    requires pAt == p.nodes[x - 1] && qAt == q.nodes[y - 1]
    modifies p`nodes, p`contents, q`nodes, q`contents, pAt, qAt
    ensures p.Valid() && q.Valid() && Disjoint(p.nodes, q.nodes)
    ensures p.nodes == old(p.nodes[..x] + q.nodes[y..]) && p.contents == old(p.contents[..x] + q.contents[y..])
    ensures q.nodes == old(q.nodes[..y] + p.nodes[x..]) && q.contents == old(q.contents[..y] + p.contents[x..])
  {
    ghost var ps, qs, cs, ds := p.nodes, q.nodes, p.contents, q.contents;
    CrossDisjoint(ps, qs, x, y);
    CrossLinks(ps, qs, x, y, pAt, qAt);
    p.nodes, q.nodes := ps[..x] + qs[y..], qs[..y] + ps[x..];
    p.contents, q.contents := cs[..x] + ds[y..], ds[..y] + cs[x..];
    RewiredLists(p, q, ps, qs, cs, ds, x, y);
  }

  /** Once the chain `ns` is cut after its `used`-th node, `l` and `rest` hold the two pieces. */
  lemma CutLists<T>(l: LinkedList<T>, rest: LinkedList<T>, ns: seq<Node<T>>, cs: seq<T>, used: nat)
    requires Holds(ns, cs) && 1 <= used <= |ns|
    requires LinkedExcept(ns, used - 1) && ns[used - 1].next == null
    requires l.nodes == ns[..used] && l.contents == cs[..used] && l.head == ns[0]
    requires rest.nodes == ns[used..] && rest.contents == cs[used..]
    requires rest.head == if used < |ns| then ns[used] else null
    ensures l.Valid() && rest.Valid()
    ensures l.tail == ns[used - 1] ==> l.TailOk()
    ensures used < |ns| && rest.tail == ns[|ns| - 1] ==> rest.TailOk()
  {
    LinkedCut(ns, cs, used - 1);
  }

  /** After `Append` has linked `node` behind `anchor`, the list holds the chain `LinkPoint` predicts. */
  lemma AppendedList<T>(l: LinkedList<T>, ns: seq<Node<T>>, cs: seq<T>, lp: Option<nat>, anchor: Node?<T>, node: Node<T>)
    requires Holds(ns, cs) && node.next == null
    requires match lp
             case Some(k) => k <= |ns| && (k == 0 <==> anchor == null) && (k == 0 ==> ns == []) && (k > 0 ==> anchor == ns[k - 1])
             case None => anchor != null && anchor !in ns && |ns| > 0
    requires anchor != null ==> anchor.next == node
    requires LinkedExcept(ns, if lp.Some? then lp.value - 1 else -1)
    requires l.head == if |ns| == 0 then node else ns[0]
    requires match lp
             case Some(k) => l.nodes == ns[..k] + [node] && l.contents == cs[..k] + [node.data]
             case None => l.nodes == ns && l.contents == cs
    ensures l.Valid()
    ensures lp == Some(|ns|) ==> l.contents == cs + [node.data]
    ensures lp == Some(|ns|) && l.tail == (if ns == [] then null else node) ==> l.TailOk()
  {
    LinkedAt(ns, cs, lp, anchor, node);
    assert cs[..|ns|] == cs;
    if lp.Some? && lp.value > 0 {
      assert l.nodes[0] == ns[0];
    }
  }

  /**
   * `point_to` on `anchor`, the node at position `skip` of the chain `ns` or
   * (when `skip` is negative) a node outside it: every other link is kept.
   */
  method Attach<T>(ghost ns: seq<Node<T>>, ghost skip: int, anchor: Node<T>, node: Node<T>)
    requires Linked(ns) && -1 <= skip < |ns| && node !in ns && node != anchor
    requires if skip >= 0 then anchor == ns[skip] else anchor !in ns
    modifies anchor
    ensures LinkedExcept(ns, skip) && anchor.next == node
  {
    if skip >= 0 {
      LinkedUnique(ns, skip);
    }
    var previous := anchor.PointTo(node);
  }

  /** `remove_next` on the `k`-th node of a chain: every other link is kept. */
  method Unlink<T>(ghost ns: seq<Node<T>>, ghost k: nat, at: Node<T>)
    requires Linked(ns) && k < |ns| && at == ns[k]
    modifies at
    ensures LinkedExcept(ns, k) && at.next == null
  {
    LinkedUnique(ns, k);
    var previous := at.PointTo(null);
  }

  /**
   * The pointer writes of one exchange: the nodes at positions `x - 1` of
   * `ps` and `y - 1` of `qs` trade successors, and every other node of the
   * two chains keeps its link.
   */
  method CrossLinks<T>(ghost ps: seq<Node<T>>, ghost qs: seq<Node<T>>, x: nat, y: nat, pAt: Node<T>, qAt: Node<T>)
    requires Linked(ps) && Linked(qs) && Disjoint(ps, qs)
    requires 1 <= x <= |ps| && 1 <= y <= |qs| && pAt == ps[x - 1] && qAt == qs[y - 1]
    modifies pAt, qAt
    ensures LinkedExcept(ps, x - 1) && LinkedExcept(qs, y - 1)
    ensures pAt.next == (if y < |qs| then qs[y] else null)
    ensures qAt.next == (if x < |ps| then ps[x] else null)
  {
    LinkedUnique(ps, x - 1);
    LinkedUnique(qs, y - 1);
    var pNext := pAt.next;
    var qNext := qAt.next;
    var previous := pAt.PointTo(qNext);
    previous := qAt.PointTo(pNext);
  }

  /** The two lists of `Rewire` once their links and ghost fields have been updated. */
  lemma RewiredLists<T>(p: LinkedList<T>, q: LinkedList<T>, ps: seq<Node<T>>, qs: seq<Node<T>>,
                        cs: seq<T>, ds: seq<T>, x: nat, y: nat)
    requires Holds(ps, cs) && Holds(qs, ds) && 1 <= x <= |ps| && 1 <= y <= |qs|
    requires Disjoint(ps[..x] + qs[y..], qs[..y] + ps[x..])
    requires LinkedExcept(ps, x - 1) && LinkedExcept(qs, y - 1)
    requires ps[x - 1].next == (if y < |qs| then qs[y] else null)
    requires qs[y - 1].next == (if x < |ps| then ps[x] else null)
    requires p.head == ps[0] && q.head == qs[0]
    requires p.nodes == ps[..x] + qs[y..] && p.contents == cs[..x] + ds[y..]
    requires q.nodes == qs[..y] + ps[x..] && q.contents == ds[..y] + cs[x..]
    ensures p.Valid() && q.Valid() && Disjoint(p.nodes, q.nodes)
  {
    RewiredChains(ps, qs, cs, ds, x, y);
  }

  /** What the two pointer writes of `Rewire` make of two disjoint chains. */
  lemma RewiredChains<T>(ps: seq<Node<T>>, qs: seq<Node<T>>, cs: seq<T>, ds: seq<T>, x: nat, y: nat)
    requires Holds(ps, cs) && Holds(qs, ds)
    requires 1 <= x <= |ps| && 1 <= y <= |qs|
    requires LinkedExcept(ps, x - 1) && LinkedExcept(qs, y - 1)
    requires ps[x - 1].next == (if y < |qs| then qs[y] else null)
    requires qs[y - 1].next == (if x < |ps| then ps[x] else null)
    ensures Chain(ps[..x] + qs[y..], cs[..x] + ds[y..]) && Chain(qs[..y] + ps[x..], ds[..y] + cs[x..])
  {
    forall i | 0 <= i < x - 1
      ensures ps[..x][i].next == ps[..x][i + 1]
    {
      assert ps[..x][i] == ps[i] && ps[..x][i + 1] == ps[i + 1];
    }
    forall j | 0 <= j < y - 1
      ensures qs[..y][j].next == qs[..y][j + 1]
    {
      assert qs[..y][j] == qs[j] && qs[..y][j + 1] == qs[j + 1];
    }
    KeptSuffix(ps, x, x - 1);
    KeptSuffix(qs, y, y - 1);
    LinkedJoin(ps[..x], qs[y..]);
    LinkedJoin(qs[..y], ps[x..]);
    HoldsAppend(ps[..x], qs[y..], cs[..x], ds[y..]);
    HoldsAppend(qs[..y], ps[x..], ds[..y], cs[x..]);
  }

  lemma HoldsAppend<T>(us: seq<Node<T>>, vs: seq<Node<T>>, xs: seq<T>, bs: seq<T>)
    requires Holds(us, xs) && Holds(vs, bs)
    ensures Holds(us + vs, xs + bs)
  {
    assert forall i :: 0 <= i < |us + vs| ==> (us + vs)[i] == if i < |us| then us[i] else vs[i - |us|];
  }

  class Cursor<T> {
    const list: LinkedList<T>
    var current: Node?<T>
    var index: Option<nat>

    /**
     * The index names the current node; None is the ghost front before the
     * head, and an index at or beyond the chain's end has no node.
     */
    ghost predicate Valid()
      reads this, list, list.nodes
    {
      && list.Valid()
      && match index
         case None => current == null
         case Some(k) => if k < |list.nodes| then current == list.nodes[k] else current == null
    }

    /** `LinkedList::cursor_mut`: a cursor at the ghost front. */
    constructor (list: LinkedList<T>)
      requires list.Valid()
      ensures Valid() && this.list == list && current == null && index == None
    {
      this.list := list;
      current := null;
      index := None;
    }

    /** The element under the cursor. */
    function Current(): (r: Option<T>)
      reads this, list, list.nodes
      requires Valid()
      ensures r == if index.Some? && index.value < |list.contents| then Some(list.contents[index.value]) else None
    {
      if current == null then None else Some(current.data)
    }

    method Next()
      requires Valid()
      modifies this
      ensures Valid() && index == NextIndex(old(index), |list.nodes|, list.length)
    {
      if current != null {
        current := current.next;
        index := Some(index.value + 1);
      } else {
        if index.Some? && index.value > list.length {
          current, index := null, None;
        } else {
          current := list.head;
          if current != null {
            index := Some(0);
          } else {
            return;
          }
        }
      }
    }

    method Reset()
      requires Valid()
      modifies this
      ensures Valid() && current == null && index == None
    {
      current, index := null, None;
    }

    /**
     * Steps forward until the index is `idx` modulo the `length` field. The
     * source divides by zero on an empty list. The index reaches the nodes of
     * the chain and the position just past its tail (where there is no node);
     * a target beyond that, which a stale `length` allows, is never reached.
     */
    method Seek(idx: nat)
      requires Valid()
      requires list.length > 0 && 0 < |list.nodes| && idx % list.length <= |list.nodes|
      modifies this
      ensures Valid() && index == Some(idx % list.length)
      ensures current == if idx % list.length < |list.nodes| then list.nodes[idx % list.length] else null
    {
      var target := idx % list.length;
      while index != Some(target)
        invariant Valid()
        decreases SeekDistance(index, target, |list.nodes|)
      {
        Next();
      }
    }

    /**
     * Seeks to the position before `idx`. For `idx == 0` the source resets the
     * cursor and then underflows computing `idx - 1`, so `idx >= 1` is required.
     */
    method SeekBefore(idx: nat)
      requires Valid() && idx >= 1
      requires list.length > 0 && 0 < |list.nodes| && (idx - 1) % list.length <= |list.nodes|
      modifies this
      ensures Valid() && index == Some((idx - 1) % list.length)
      ensures current == if (idx - 1) % list.length < |list.nodes| then list.nodes[(idx - 1) % list.length] else null
    {
      Seek(idx - 1);
    }

    method SeekAfter(idx: nat)
      requires Valid()
      requires list.length > 0 && 0 < |list.nodes| && (idx + 1) % list.length <= |list.nodes|
      modifies this
      ensures Valid() && index == Some((idx + 1) % list.length)
      ensures current == if (idx + 1) % list.length < |list.nodes| then list.nodes[(idx + 1) % list.length] else null
    {
      Seek(idx + 1);
    }

    /**
     * Cuts the list after the current node and returns the rest as a new
     * list; from the ghost front (or past the tail) the whole list moves out
     * and an empty one is left behind. The returned list keeps the old `tail`
     * even when it is empty.
     */
    method SplitAfter() returns (rest: LinkedList<T>)
      requires Valid()
      requires current != null ==> index.Some? && index.value + 1 <= list.length
      modifies list, current
      ensures Valid() && rest.Valid() && fresh(rest)
      ensures current == old(current) && index == old(index)
      ensures old(current) != null ==>
                var used := old(index).value + 1;
                && list.nodes == old(list.nodes)[..used] && list.contents == old(list.contents)[..used]
                && list.head == old(list.head) && list.tail == old(current) && list.length == used
                && rest.nodes == old(list.nodes)[used..] && rest.contents == old(list.contents)[used..]
                && rest.tail == old(list.tail) && rest.length == old(list.length) - used
      ensures old(current) == null ==>
                && list.nodes == [] && list.contents == []
                && list.head == null && list.tail == null && list.length == 0
                && rest.nodes == old(list.nodes) && rest.contents == old(list.contents)
                && rest.head == old(list.head) && rest.tail == old(list.tail) && rest.length == old(list.length)
    {
      if current != null {
        rest := list.CutAfter(current, index.value + 1);
      } else {
        rest := list.Take();
      }
    }

    /**
     * One pointer exchange of `swap`: seeks both cursors to the nodes before
     * indices `idx` and `otherIdx` (modulo the `length` fields) and crosses
     * their `next` links, so that each list continues with the other's tail
     * from there.
     */
    method CrossAt(other: Cursor<T>, idx: nat, otherIdx: nat)
      requires Valid() && other.Valid() && this != other && list != other.list
      requires Disjoint(list.nodes, other.list.nodes)
      requires idx >= 1 && list.length > 0 && SeekPosition(idx, list.length) <= |list.nodes|
      requires otherIdx >= 1 && other.list.length > 0 && SeekPosition(otherIdx, other.list.length) <= |other.list.nodes|
      modifies this, other, list`nodes, list`contents, other.list`nodes, other.list`contents
      modifies list.nodes[SeekPosition(idx, list.length) - 1], other.list.nodes[SeekPosition(otherIdx, other.list.length) - 1]
      ensures Valid() && other.Valid() && Disjoint(list.nodes, other.list.nodes)
      ensures var x, y := SeekPosition(idx, list.length), SeekPosition(otherIdx, other.list.length);
              && list.nodes == old(list.nodes[..x] + other.list.nodes[y..])
              && list.contents == old(list.contents[..x] + other.list.contents[y..])
              && other.list.nodes == old(other.list.nodes[..y] + list.nodes[x..])
              && other.list.contents == old(other.list.contents[..y] + list.contents[x..])
    {
      var x, y := SeekPosition(idx, list.length), SeekPosition(otherIdx, other.list.length);
      SeekPositionIsModulo(idx, list.length);
      SeekPositionIsModulo(otherIdx, other.list.length);
      SeekBefore(idx);
      other.SeekBefore(otherIdx);
      Rewire(list, other.list, x, y, current, other.current);
    }

    /**
     * Two-point crossover by pointer rewiring: the cursors are reset, the
     * lists are crossed after the seek positions of `start` and `otherStart`,
     * and then after those of `end` and `otherEnd` (an absent end stands for
     * the list's `length` field). Nothing happens when either `length` field
     * is 0. `length`, `head` and `tail` are left untouched. On up-to-date
     * lists whose other end does not wrap, the result is `SwapSegments`
     * (`UnwrappedSwapIsSegments`).
     */
    method Swap(other: Cursor<T>, start: nat, otherStart: nat, end: Option<nat>, otherEnd: Option<nat>)
      requires Valid() && other.Valid() && this != other && list != other.list
      requires Disjoint(list.nodes, other.list.nodes)
      requires list.length > 0 && other.list.length > 0 ==>
                 && SwapAsserts(list.length, start, otherStart, end, otherEnd)
                 && SwapStops(list.length, other.list.length, |list.nodes|, |other.list.nodes|,
                              start, otherStart, end.GetOr(list.length), otherEnd.GetOr(other.list.length))
      modifies this, other, list`nodes, list`contents, other.list`nodes, other.list`contents
      modifies list.nodes, other.list.nodes
      ensures Valid() && other.Valid() && Disjoint(list.nodes, other.list.nodes)
      ensures old(list.length) == 0 || old(other.list.length) == 0 ==>
                && list.nodes == old(list.nodes) && list.contents == old(list.contents)
                && other.list.nodes == old(other.list.nodes) && other.list.contents == old(other.list.contents)
      ensures old(list.length) > 0 && old(other.list.length) > 0 ==>
                var n, m := old(list.length), old(other.list.length);
                var e, oe := end.GetOr(n), otherEnd.GetOr(m);
                var x, y, x2, y2 := SeekPosition(start, n), SeekPosition(otherStart, m), SeekPosition(e, n), SeekPosition(oe, m);
                && list.nodes == CrossTwiceAt(old(list.nodes), old(other.list.nodes), x, y, x2, y2).0
                && other.list.nodes == CrossTwiceAt(old(list.nodes), old(other.list.nodes), x, y, x2, y2).1
                && list.contents == CrossTwiceAt(old(list.contents), old(other.list.contents), x, y, x2, y2).0
                && other.list.contents == CrossTwiceAt(old(list.contents), old(other.list.contents), x, y, x2, y2).1
    {
      if list.Len() == 0 || other.list.Len() == 0 {
        return;
      }
      var e := end.GetOr(list.Len());
      var oe := otherEnd.GetOr(other.list.Len());
      Reset();
      other.Reset();
      CrossBoth(other, start, otherStart, e, oe);
    }

    /** The two pointer exchanges of `swap`, at `s`/`os` and then at `e`/`oe`. */
    method CrossBoth(other: Cursor<T>, s: nat, os: nat, e: nat, oe: nat)
      requires Valid() && other.Valid() && this != other && list != other.list
      requires Disjoint(list.nodes, other.list.nodes)
      requires SwapStops(list.length, other.list.length, |list.nodes|, |other.list.nodes|, s, os, e, oe)
      modifies this, other, list`nodes, list`contents, other.list`nodes, other.list`contents
      modifies list.nodes, other.list.nodes
      ensures Valid() && other.Valid() && Disjoint(list.nodes, other.list.nodes)
      ensures var n, m := list.length, other.list.length;
              var x, y, x2, y2 := SeekPosition(s, n), SeekPosition(os, m), SeekPosition(e, n), SeekPosition(oe, m);
              && list.nodes == CrossTwiceAt(old(list.nodes), old(other.list.nodes), x, y, x2, y2).0
              && other.list.nodes == CrossTwiceAt(old(list.nodes), old(other.list.nodes), x, y, x2, y2).1
              && list.contents == CrossTwiceAt(old(list.contents), old(other.list.contents), x, y, x2, y2).0
              && other.list.contents == CrossTwiceAt(old(list.contents), old(other.list.contents), x, y, x2, y2).1
    {
      ghost var a, b, ca, cb := list.nodes, other.list.nodes, list.contents, other.list.contents;
      ghost var n, m := list.length, other.list.length;
      ghost var x, y, x2, y2 := SeekPosition(s, n), SeekPosition(os, m), SeekPosition(e, n), SeekPosition(oe, m);
      CrossAt(other, s, os);
      CrossMembers(a, b, x, y);
      ghost var a1, b1, ca1, cb1 := list.nodes, other.list.nodes, list.contents, other.list.contents;
      CrossAt(other, e, oe);
      assert (a1, b1) == Cross(a, b, x, y) && (ca1, cb1) == Cross(ca, cb, x, y);
      assert (list.nodes, other.list.nodes) == Cross(a1, b1, x2, y2);
      assert (list.contents, other.list.contents) == Cross(ca1, cb1, x2, y2);
    }
  }
}
