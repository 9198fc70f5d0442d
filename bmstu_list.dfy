/**
 * bmstu::list<T>: a doubly-linked list bounded by two valueless sentinel
 * nodes, `head` and `tail`, with a `size` counter (bmstu_list.h).
 *
 * The model keeps two ghost views of a list: `nodes`, the node sequence from
 * `head` to `tail`, and `Contents`, the values of the interior nodes.  Valid()
 * ties them to the real links.  An iterator is the node it refers to; a
 * method that takes an iterator also takes its position in `nodes` as a ghost
 * argument.
 */
module BmstuList {
  import opened ListSpec

  /** The three exceptions the list throws, named after their cause. */
  datatype Error = OutOfRange | InvalidPosition | EmptyContainer

  datatype Result<R> = Ok(value: R) | Err(error: Error)

  /** One node: a value and two non-owning links (bmstu_list.h:7-17). */
  class Node<T(0)> {
    var value: T
    var prev: Node?<T>
    var next: Node?<T>

    /** A sentinel: value-initialised payload, no links yet. */
    constructor Sentinel()
      ensures prev == null && next == null
    {
      prev := null;
      next := null;
    }

    constructor (prev: Node?<T>, value: T, next: Node?<T>)
      ensures this.prev == prev && this.value == value && this.next == next
    {
      this.prev := prev;
      this.value := value;
      this.next := next;
    }
  }

  /** `ns` runs from a node without predecessor to a node without successor, each link mirrored. */
  ghost predicate Linked<T(0)>(ns: seq<Node<T>>)
    reads ns
  {
    && |ns| >= 2
    && ns[0].prev == null
    && ns[|ns| - 1].next == null
    && (forall i {:trigger ns[i].next} :: 0 <= i < |ns| - 1 ==> ns[i].next == ns[i + 1])
    && (forall i {:trigger ns[i].prev} :: 0 < i < |ns| ==> ns[i].prev == ns[i - 1])
  }

  /**
   * A linked chain never repeats a node: walking back from two equal nodes
   * would reach `ns[0]`, which has no predecessor, at two different depths.
   */
  lemma {:induction false} LinkedApart<T(0)>(ns: seq<Node<T>>, i: nat, j: nat)
    requires Linked(ns) && i < j < |ns|
    ensures ns[i] != ns[j]
  {
    assert ns[j].prev == ns[j - 1];
    if i > 0 {
      assert ns[i].prev == ns[i - 1];
      LinkedApart(ns, i - 1, j - 1);
    }
  }

  /** The node at position i of a linked chain occurs nowhere else in it. */
  lemma LinkedOnlyAt<T(0)>(ns: seq<Node<T>>, i: nat)
    requires Linked(ns) && i < |ns|
    ensures forall k {:trigger ns[k]} :: 0 <= k < |ns| && k != i ==> ns[k] != ns[i]
  {
    forall k | 0 <= k < |ns| && k != i
      ensures ns[k] != ns[i]
    {
      if k < i {
        LinkedApart(ns, k, i);
      } else {
        LinkedApart(ns, i, k);
      }
    }
  }

  /** Hence every node of a linked chain occurs at exactly one position. */
  lemma LinkedDistinct<T(0)>(ns: seq<Node<T>>)
    requires Linked(ns)
    ensures forall i, j :: 0 <= i < |ns| && 0 <= j < |ns| && ns[i] == ns[j] ==> i == j
  {
    forall i, j | 0 <= i < j < |ns|
      ensures ns[i] != ns[j]
    {
      LinkedApart(ns, i, j);
    }
  }

  /**
   * Where revers_n stands after exchanging the outer pairs of b..t-1 down to
   * lo..hi: positions inside b..lo-1 and hi+1..t-1 hold their mirror nodes,
   * all others their original node.
   */
  ghost predicate MirroredOutside<T(0)>(ns: seq<Node<T>>, on: seq<Node<T>>, b: nat, t: nat, lo: nat, hi: nat)
    requires |ns| == |on| && b <= lo <= hi + 1 && hi < t <= |on| && lo - b == t - 1 - hi
  {
    forall k {:trigger ns[k]} :: 0 <= k < |ns| ==>
      ns[k] == if b <= k < lo || hi < k < t then on[b + t - 1 - k] else on[k]
  }

  /** Exchanging the nodes at lo and hi moves the mirrored border one step inward. */
  lemma MirroredStep<T(0)>(ns: seq<Node<T>>, on: seq<Node<T>>, b: nat, t: nat, lo: nat, hi: nat)
    requires |ns| == |on| && b <= lo < hi < t <= |on| && lo - b == t - 1 - hi
    requires MirroredOutside(ns, on, b, t, lo, hi)
    ensures MirroredOutside(ns[lo := ns[hi]][hi := ns[lo]], on, b, t, lo + 1, hi - 1)
  {
    var ns' := ns[lo := ns[hi]][hi := ns[lo]];
    forall k | 0 <= k < |ns|
      ensures ns'[k] == if b <= k < lo + 1 || hi - 1 < k < t then on[b + t - 1 - k] else on[k]
    {
      if k == lo {
        assert ns'[k] == ns[hi] == on[hi];
      } else if k == hi {
        assert ns'[k] == ns[lo] == on[lo];
      } else {
        assert ns'[k] == ns[k];
      }
    }
  }

  /** Once the cursors have met, the whole range b..t-1 is mirrored. */
  lemma MirroredAll<T(0)>(ns: seq<Node<T>>, on: seq<Node<T>>, b: nat, t: nat, lo: nat, hi: nat)
    requires |ns| == |on| && b <= lo <= hi + 1 && hi < t <= |on| && lo - b == t - 1 - hi && lo >= hi
    requires MirroredOutside(ns, on, b, t, lo, hi)
    ensures ns == ReverseRange(on, b, t)
  {
    ReverseRangeFromPointwise(on, ns, b, t);
  }

  /** `cs` are the values of the interior nodes of `ns`, in order. */
  ghost predicate Holds<T(0)>(ns: seq<Node<T>>, cs: seq<T>)
    reads ns
  {
    |ns| == |cs| + 2 && forall i :: 0 <= i < |cs| ==> cs[i] == ns[i + 1].value
  }

  /** Inserting a node with value `v` at position k + 1 inserts `v` at position k of the values. */
  lemma HoldsInsert<T(0)>(ns: seq<Node<T>>, cs: seq<T>, k: nat, x: Node<T>)
    requires Holds(ns, cs) && k <= |cs|
    ensures Holds(ns[..k + 1] + [x] + ns[k + 1..], cs[..k] + [x.value] + cs[k..])
  {
    var ns', cs' := ns[..k + 1] + [x] + ns[k + 1..], cs[..k] + [x.value] + cs[k..];
    forall j | 0 <= j < |cs'|
      ensures cs'[j] == ns'[j + 1].value
    {
      if j < k {
        assert cs'[j] == cs[j] && ns'[j + 1] == ns[j + 1];
      } else if j > k {
        assert cs'[j] == cs[j - 1] && ns'[j + 1] == ns[j];
      }
    }
  }

  /** Cutting the nodes at positions lo..hi-1 cuts the values at lo-1..hi-2. */
  lemma HoldsCut<T(0)>(ns: seq<Node<T>>, cs: seq<T>, lo: nat, hi: nat)
    requires Holds(ns, cs) && 1 <= lo <= hi < |ns|
    ensures Holds(ns[..lo] + ns[hi..], cs[..lo - 1] + cs[hi - 1..])
  {
    var ns', cs' := ns[..lo] + ns[hi..], cs[..lo - 1] + cs[hi - 1..];
    forall j | 0 <= j < |cs'|
      ensures cs'[j] == ns'[j + 1].value
    {
      if j < lo - 1 {
        assert cs'[j] == cs[j] && ns'[j + 1] == ns[j + 1];
      } else {
        assert cs'[j] == cs[j - lo + hi] && ns'[j + 1] == ns[j + 1 - lo + hi];
      }
    }
  }

  /**
   * Relinking a window keeps a chain linked: if every link of `on` outside
   * the window still holds, and the nodes `mid` now sit between on[lo-1] and
   * on[hi] with mirrored links, then `on[..lo] + mid + on[hi..]` is linked.
   */
  lemma {:induction false} LinkedSplice<T(0)>(on: seq<Node<T>>, lo: nat, hi: nat, mid: seq<Node<T>>)
    requires 1 <= lo <= hi < |on| && on[0].prev == null && on[|on| - 1].next == null
    requires forall k {:trigger on[k].next} :: 0 <= k < |on| - 1 && (k < lo - 1 || hi <= k) ==> on[k].next == on[k + 1]
    requires forall k {:trigger on[k].prev} :: 0 < k < |on| && (k < lo || hi < k) ==> on[k].prev == on[k - 1]
    requires mid == [] ==> on[lo - 1].next == on[hi] && on[hi].prev == on[lo - 1]
    requires mid != [] ==>
      && on[lo - 1].next == mid[0] && mid[0].prev == on[lo - 1]
      && mid[|mid| - 1].next == on[hi] && on[hi].prev == mid[|mid| - 1]
    requires forall k {:trigger mid[k].next} :: 0 <= k < |mid| - 1 ==> mid[k].next == mid[k + 1]
    requires forall k {:trigger mid[k].prev} :: 0 < k < |mid| ==> mid[k].prev == mid[k - 1]
    ensures Linked(on[..lo] + mid + on[hi..])
  {
    var ns := on[..lo] + mid + on[hi..];
    var m := |mid|;
    assert ns[0] == on[0] && ns[|ns| - 1] == on[|on| - 1];
    forall j | 0 <= j < |ns| - 1
      ensures ns[j].next == ns[j + 1]
    {
      if j < lo - 1 {
        assert ns[j] == on[j] && ns[j + 1] == on[j + 1];
      } else if j == lo - 1 {
        assert ns[j] == on[lo - 1];
      } else if j < lo + m - 1 {
        assert ns[j] == mid[j - lo] && ns[j + 1] == mid[j + 1 - lo];
      } else if j == lo + m - 1 {
        assert ns[j] == mid[m - 1] && ns[j + 1] == on[hi];
      } else {
        var o := j - lo - m + hi;
        assert ns[j] == on[o] && ns[j + 1] == on[o + 1];
      }
    }
    forall j | 0 < j < |ns|
      ensures ns[j].prev == ns[j - 1]
    {
      if j < lo {
        assert ns[j] == on[j] && ns[j - 1] == on[j - 1];
      } else if j == lo && m > 0 {
        assert ns[j] == mid[0] && ns[j - 1] == on[lo - 1];
      } else if lo < j < lo + m {
        assert ns[j] == mid[j - lo] && ns[j - 1] == mid[j - 1 - lo];
      } else if j == lo + m {
        assert ns[j] == on[hi];
        assert m > 0 ==> ns[j - 1] == mid[m - 1];
        assert m == 0 ==> ns[j - 1] == on[lo - 1];
      } else {
        var o := j - lo - m + hi;
        assert ns[j] == on[o] && ns[j - 1] == on[o - 1];
      }
    }
  }

  /**
   * Exchanging the nodes at positions lo < hi keeps a chain linked: every
   * link of `on` that the exchange does not touch still holds, and the eight
   * links around the two positions now follow the exchanged order `w`.
   * When hi == lo + 1 the touched links overlap and only six remain.
   */
  lemma LinkedSwap<T(0)>(on: seq<Node<T>>, lo: nat, hi: nat)
    requires 1 <= lo < hi < |on| - 1 && on[0].prev == null && on[|on| - 1].next == null
    requires forall k {:trigger on[k].next} :: 0 <= k < |on| - 1 && k != lo - 1 && k != lo && k != hi - 1 && k != hi ==>
      on[k].next == on[k + 1]
    requires forall k {:trigger on[k].prev} :: 0 < k < |on| && k != lo && k != lo + 1 && k != hi && k != hi + 1 ==>
      on[k].prev == on[k - 1]
    requires var w := on[lo := on[hi]][hi := on[lo]];
      && w[lo - 1].next == w[lo] && w[lo].next == w[lo + 1] && w[hi - 1].next == w[hi] && w[hi].next == w[hi + 1]
      && w[lo].prev == w[lo - 1] && w[lo + 1].prev == w[lo] && w[hi].prev == w[hi - 1] && w[hi + 1].prev == w[hi]
    ensures Linked(on[lo := on[hi]][hi := on[lo]])
  {
    var w := on[lo := on[hi]][hi := on[lo]];
    forall j | 0 <= j < |w| - 1
      ensures w[j].next == w[j + 1]
    {
      if j != lo - 1 && j != lo && j != hi - 1 && j != hi {
        assert w[j] == on[j] && w[j + 1] == on[j + 1];
      }
    }
    forall j | 0 < j < |w|
      ensures w[j].prev == w[j - 1]
    {
      if j != lo && j != lo + 1 && j != hi && j != hi + 1 {
        assert w[j] == on[j] && w[j - 1] == on[j - 1];
      }
    }
  }

  class List<T(0)> {
    var head: Node<T>
    var tail: Node<T>
    var size: nat
    ghost var nodes: seq<Node<T>>
    ghost var Contents: seq<T>

    /** The ring invariant: head..tail linked both ways, no node twice, size = interior count. */
    ghost predicate Valid()
      reads this, nodes
    {
      && Linked(nodes)
      && nodes[0] == head
      && nodes[|nodes| - 1] == tail
      && size == |nodes| - 2
      && Holds(nodes, Contents)
    }

    /**
     * The ring invariant after a relink: `nodes` is `on` with the window
     * on[lo..hi-1] replaced by `mid`, the window's borders and every link
     * outside it hold, and `Contents` matches the new interior nodes.
     */
    lemma SpliceValid(on: seq<Node<T>>, lo: nat, hi: nat, mid: seq<Node<T>>)
      requires 1 <= lo <= hi < |on| && on[0].prev == null && on[|on| - 1].next == null
      requires forall k {:trigger on[k].next} :: 0 <= k < |on| - 1 && (k < lo - 1 || hi <= k) ==> on[k].next == on[k + 1]
      requires forall k {:trigger on[k].prev} :: 0 < k < |on| && (k < lo || hi < k) ==> on[k].prev == on[k - 1]
      requires mid == [] ==> on[lo - 1].next == on[hi] && on[hi].prev == on[lo - 1]
      requires mid != [] ==>
        && on[lo - 1].next == mid[0] && mid[0].prev == on[lo - 1]
        && mid[|mid| - 1].next == on[hi] && on[hi].prev == mid[|mid| - 1]
      requires forall k {:trigger mid[k].next} :: 0 <= k < |mid| - 1 ==> mid[k].next == mid[k + 1]
      requires forall k {:trigger mid[k].prev} :: 0 < k < |mid| ==> mid[k].prev == mid[k - 1]
      requires nodes == on[..lo] + mid + on[hi..] && head == on[0] && tail == on[|on| - 1]
      requires size == |nodes| - 2 && Holds(nodes, Contents)
      ensures Valid()
    {
      LinkedSplice(on, lo, hi, mid);
    }

    /**
     * The ring invariant after revers_n: `nodes` is `on` with the positions
     * b..t-1 reversed, and `Contents` the matching reversal of `oc`.
     */
    lemma ReversedValid(on: seq<Node<T>>, oc: seq<T>, b: nat, t: nat)
      requires 1 <= b < t < |on| && Linked(nodes) && Holds(on, oc)
      requires nodes == ReverseRange(on, b, t) && Contents == ReverseRange(oc, b - 1, t - 1)
      requires head == on[0] && tail == on[|on| - 1] && size == |on| - 2
      ensures Valid()
    {
      forall k | 0 <= k < |Contents|
        ensures Contents[k] == nodes[k + 1].value
      {
        ReverseRangeAt(oc, b - 1, t - 1, k);
        ReverseRangeAt(on, b, t, k + 1);
      }
    }

    /** `list()` (bmstu_list.h:138-141): two fresh sentinels linked to each other. */
    constructor ()
      ensures Valid() && Contents == []
      ensures nodes == [head, tail] && fresh(head) && fresh(tail)
      ensures head.next == tail && tail.prev == head
      ensures Begin() == End()
      ensures Pred(Begin(), 1) == Ok(head) && Pred(End(), 1) == Ok(head)
    {
      var t := new Node<T>.Sentinel();
      var h := new Node<T>.Sentinel();
      size, tail, head := 0, t, h;
      nodes, Contents := [h, t], [];
      new;
      head.next := tail;
      tail.prev := head;
    }

    /** `empty()` (bmstu_list.h:194-196). */
    function Empty(): (b: bool)
      reads this, nodes
      requires Valid()
      ensures b <==> Contents == []
      ensures b <==> Begin() == End()
    {
      size == 0
    }

    /** `size()` (bmstu_list.h:260-262): the number of interior nodes. */
    function Size(): (n: nat)
      reads this, nodes
      requires Valid()
      ensures n == |Contents| && n == |nodes| - 2
    {
      size
    }

    /** `begin()` (bmstu_list.h:228-230): the first interior node, or `tail` when empty. */
    function Begin(): (it: Node<T>)
      reads this, nodes
      requires Valid()
      ensures it == nodes[1]
    {
      head.next
    }

    /** `end()` (bmstu_list.h:232-234). */
    function End(): (it: Node<T>)
      reads this, nodes
      requires Valid()
      ensures it == nodes[|nodes| - 1]
    {
      tail
    }

    /** `++it` (bmstu_list.h:46-53): one step forward; stepping past `tail` throws. */
    function Succ(it: Node<T>, ghost i: nat): (r: Result<Node<T>>)
      reads this, nodes
      requires Valid() && i < |nodes| && nodes[i] == it
      ensures r == if i == |nodes| - 1 then Err(OutOfRange) else Ok(nodes[i + 1])
    {
      if it.next == null then Err(OutOfRange) else var nx: Node<T> := it.next; Ok(nx)
    }

    /** `--it` (bmstu_list.h:55-62): one step back; stepping before `head` throws. */
    function Pred(it: Node<T>, ghost i: nat): (r: Result<Node<T>>)
      reads this, nodes
      requires Valid() && i < |nodes| && nodes[i] == it
      ensures r == if i == 0 then Err(OutOfRange) else Ok(nodes[i - 1])
    {
      if it.prev == null then Err(OutOfRange) else var pv: Node<T> := it.prev; Ok(pv)
    }

    /**
     * `it + n` (bmstu_list.h:90-105): n single forward steps on a copy; a
     * non-positive n leaves the copy where it is.  The operator is noexcept,
     * so a step past `tail` would terminate the program: it is excluded here.
     */
    method Advance(it: Node<T>, ghost i: nat, n: int) returns (r: Node<T>)
      requires Valid() && i < |nodes| && nodes[i] == it
      requires i + n < |nodes|
      ensures r == nodes[if n <= 0 then i else i + n]
    {
      r := it;
      var k := 1;
      while k <= n
        invariant 1 <= k <= if n >= 1 then n + 1 else 1
        invariant r == nodes[i + k - 1]
      {
        r := Succ(r, i + k - 1).value;
        k := k + 1;
      }
    }

    /** `it - n` (bmstu_list.h:107-113): n single backward steps; a step before `head` is excluded. */
    method Retreat(it: Node<T>, ghost i: nat, n: int) returns (r: Node<T>)
      requires Valid() && i < |nodes| && nodes[i] == it
      requires n <= i
      ensures r == nodes[if n <= 0 then i else i - n]
    {
      r := it;
      var k := 1;
      while k <= n
        invariant 1 <= k <= if n >= 1 then n + 1 else 1
        invariant r == nodes[i - k + 1]
      {
        r := Pred(r, i - k + 1).value;
        k := k + 1;
      }
    }

    /** `(it + n) - n` is `it` again, for every n the forward walk allows. */
    method StepRoundTrip(it: Node<T>, ghost i: nat, n: nat) returns (back: Node<T>)
      requires Valid() && i < |nodes| && nodes[i] == it
      requires i + n < |nodes|
      ensures back == it
    {
      var there := Advance(it, i, n);
      back := Retreat(there, i + n, n);
    }

    /** `(it - n) + n` is `it` again, for every n the backward walk allows. */
    method RetreatRoundTrip(it: Node<T>, ghost i: nat, n: nat) returns (back: Node<T>)
      requires Valid() && i < |nodes| && nodes[i] == it
      requires n <= i
      ensures back == it
    {
      var there := Retreat(it, i, n);
      back := Advance(there, i - n, n);
    }

    /**
     * `operator[](pos)` (bmstu_list.h:252-258): `*(begin() + pos)`.  At
     * pos == size() that is `tail`, whose default payload is returned (the
     * dereference only rejects a null node); further steps are excluded as
     * for `it + n`.
     */
    method At(pos: nat) returns (v: T)
      requires Valid() && pos <= |Contents|
      ensures v == if pos < |Contents| then Contents[pos] else tail.value
    {
      var it := Advance(Begin(), 1, pos);
      v := it.value;
    }

    /** `push_back(v)` (bmstu_list.h:176-183): a new node between the last node and `tail`. */
    method PushBack(v: T)
      requires Valid()
      modifies this, nodes
      ensures head.value == old(head.value) && tail.value == old(tail.value)
      ensures Valid() && head == old(head) && tail == old(tail)
      ensures Contents == old(Contents) + [v]
      ensures |nodes| == |old(nodes)| + 1 && fresh(nodes[|nodes| - 2])
      ensures nodes == old(nodes)[..|old(nodes)| - 1] + [nodes[|nodes| - 2], tail]
    {
      ghost var on, n := nodes, |nodes|;
      LinkedOnlyAt(on, n - 2);
      LinkedOnlyAt(on, n - 1);
      var last := tail.prev;
      var newLast := new Node(tail.prev, v, tail);
      tail.prev := newLast;
      last.next := newLast;
      size := size + 1;
      nodes := on[..n - 1] + [newLast] + on[n - 1..];
      Contents := Contents + [v];
      forall k {:trigger on[k].next} | 0 <= k < |on| - 1 && k != n - 2
        ensures on[k].next == on[k + 1]
      {
        assert on[k] != last;
      }
      forall k {:trigger on[k].prev} | 0 < k < |on| && k != n - 1
        ensures on[k].prev == on[k - 1]
      {
        assert on[k] != tail;
      }
      HoldsInsert(on, old(Contents), n - 2, newLast);
      assert old(Contents)[..n - 2] + [v] + old(Contents)[n - 2..] == Contents;
      assert on[n - 1..] == [tail];
      SpliceValid(on, n - 1, n - 1, [newLast]);
    }

    /** `push_front(v)` (bmstu_list.h:185-192): a new node between `head` and the first node. */
    method PushFront(v: T)
      requires Valid()
      modifies this, nodes
      ensures head.value == old(head.value) && tail.value == old(tail.value)
      ensures Valid() && head == old(head) && tail == old(tail)
      ensures Contents == [v] + old(Contents)
      ensures |nodes| == |old(nodes)| + 1 && fresh(nodes[1])
      ensures nodes == [head, nodes[1]] + old(nodes)[1..]
    {
      ghost var on := nodes;
      LinkedOnlyAt(on, 0);
      LinkedOnlyAt(on, 1);
      var first := head.next;
      var newFirst := new Node(head, v, first);
      head.next := newFirst;
      first.prev := newFirst;
      size := size + 1;
      nodes := on[..1] + [newFirst] + on[1..];
      Contents := [v] + Contents;
      forall k {:trigger on[k].next} | 0 <= k < |on| - 1 && k != 0
        ensures on[k].next == on[k + 1]
      {
        assert on[k] != head;
      }
      forall k {:trigger on[k].prev} | 0 < k < |on| && k != 1
        ensures on[k].prev == on[k - 1]
      {
        assert on[k] != first;
      }
      HoldsInsert(on, old(Contents), 0, newFirst);
      assert old(Contents)[..0] + [v] + old(Contents)[0..] == Contents;
      SpliceValid(on, 1, 1, [newFirst]);
    }

    /**
     * `insert(pos, v)` (bmstu_list.h:313-325): a new node right after `pos`.
     * There is no node after `tail`, so inserting there throws and changes nothing.
     */
    method Insert(pos: Node<T>, ghost i: nat, v: T) returns (r: Result<Node<T>>)
      requires Valid() && i < |nodes| && nodes[i] == pos
      modifies this, nodes
      ensures head.value == old(head.value) && tail.value == old(tail.value)
      ensures Valid() && head == old(head) && tail == old(tail)
      ensures i == |old(nodes)| - 1 ==>
        r == Err(InvalidPosition) && nodes == old(nodes) && Contents == old(Contents)
      ensures i < |old(nodes)| - 1 ==>
        && r.Ok? && fresh(r.value) && r.value.value == v
        && nodes == old(nodes)[..i + 1] + [r.value] + old(nodes)[i + 1..]
        && Contents == old(Contents)[..i] + [v] + old(Contents)[i..]
    {
      if pos.next == null {
        return Err(InvalidPosition);
      }
      ghost var on := nodes;
      LinkedOnlyAt(on, i);
      LinkedOnlyAt(on, i + 1);
      var after := pos.next;
      var newNode := new Node(pos, v, after);
      after.prev := newNode;
      pos.next := newNode;
      size := size + 1;
      nodes := on[..i + 1] + [newNode] + on[i + 1..];
      Contents := Contents[..i] + [v] + Contents[i..];
      r := Ok(newNode);
      forall k {:trigger on[k].next} | 0 <= k < |on| - 1 && k != i
        ensures on[k].next == on[k + 1]
      {
        assert on[k] != pos;
      }
      forall k {:trigger on[k].prev} | 0 < k < |on| && k != i + 1
        ensures on[k].prev == on[k - 1]
      {
        assert on[k] != after;
      }
      HoldsInsert(on, old(Contents), i, newNode);
      SpliceValid(on, i + 1, i + 1, [newNode]);
    }

    /** `insert(begin() - 1, v)`, that is insertion after `head`, does what `push_front(v)` does. */
    method InsertAfterHead(v: T) returns (r: Result<Node<T>>)
      requires Valid()
      modifies this, nodes
      ensures head.value == old(head.value) && tail.value == old(tail.value)
      ensures Valid() && r.Ok? && Contents == [v] + old(Contents)
      ensures nodes == [head, r.value] + old(nodes)[1..]
    {
      r := Insert(head, 0, v);
    }

    /** `pop()` (bmstu_list.h:384-395): unlinks the last node and returns its value. */
    method Pop() returns (r: Result<T>)
      requires Valid()
      modifies this, nodes
      ensures head.value == old(head.value) && tail.value == old(tail.value)
      ensures Valid() && head == old(head) && tail == old(tail)
      ensures old(Contents) == [] ==>
        r == Err(EmptyContainer) && nodes == old(nodes) && Contents == old(Contents)
      ensures old(Contents) != [] ==>
        && r == Ok(old(Contents)[|old(Contents)| - 1])
        && Contents == old(Contents)[..|old(Contents)| - 1]
        && nodes == old(nodes)[..|old(nodes)| - 2] + [tail]
    {
      if Empty() {
        return Err(EmptyContainer);
      }
      ghost var on, n := nodes, |nodes|;
      LinkedOnlyAt(on, n - 3);
      LinkedOnlyAt(on, n - 1);
      var toPop := tail.prev;
      var value := toPop.value;
      toPop.prev.next := tail;
      tail.prev := toPop.prev;
      size := size - 1;
      nodes := on[..n - 2] + on[n - 1..];
      Contents := Contents[..|Contents| - 1];
      r := Ok(value);
      forall k {:trigger on[k].next} | 0 <= k < |on| - 1 && k != n - 3
        ensures on[k].next == on[k + 1]
      {
        assert on[k] != on[n - 3];
      }
      forall k {:trigger on[k].prev} | 0 < k < |on| && k != n - 1
        ensures on[k].prev == on[k - 1]
      {
        assert on[k] != tail;
      }
      HoldsCut(on, old(Contents), n - 2, n - 1);
      assert old(Contents)[..n - 3] + old(Contents)[n - 2..] == Contents;
      assert on[n - 1..] == [tail];
      SpliceValid(on, n - 2, n - 1, []);
    }

    /** `push_back(v)` followed by `pop()` gives back v and leaves the old values. */
    method PushPopRoundTrip(v: T) returns (r: Result<T>)
      requires Valid()
      modifies this, nodes
      ensures head.value == old(head.value) && tail.value == old(tail.value)
      ensures Valid() && r == Ok(v) && Contents == old(Contents) && nodes == old(nodes)
    {
      PushBack(v);
      r := Pop();
    }

    /**
     * `remove(it_b, it_e)` (bmstu_list.h:398-408): drops the nodes of the
     * half-open range [it_b, it_e) and links it_b's predecessor to it_e.
     * it_b must not be `head` and it_e must lie at or after it_b.
     */
    method Remove(first: Node<T>, ghost b: nat, last: Node<T>, ghost e: nat)
      requires Valid()
      requires 1 <= b <= e < |nodes| && nodes[b] == first && nodes[e] == last
      modifies this, nodes
      ensures head.value == old(head.value) && tail.value == old(tail.value)
      ensures Valid() && head == old(head) && tail == old(tail)
      ensures nodes == old(nodes)[..b] + old(nodes)[e..]
      ensures Contents == old(Contents)[..b - 1] + old(Contents)[e - 1..]
      ensures size == old(size) - (e - b)
      ensures b == e ==> nodes == old(nodes) && Contents == old(Contents)
    {
      ghost var on := nodes;
      LinkedOnlyAt(on, b - 1);
      LinkedOnlyAt(on, e);
      var prev := first.prev;
      var it := first;
      ghost var k := b;
      while it != last
        modifies this`size
        invariant b <= k <= e && it == nodes[k]
        invariant size == old(size) - (k - b)
        decreases e - k
      {
        it := it.next;
        size := size - 1;
        k := k + 1;
      }
      it.prev := prev;
      prev.next := it;
      nodes := on[..b] + on[e..];
      Contents := Contents[..b - 1] + Contents[e - 1..];
      forall k {:trigger on[k].next} | 0 <= k < |on| - 1 && (k < b - 1 || e <= k)
        ensures on[k].next == on[k + 1]
      {
        assert on[k] != prev;
      }
      forall k {:trigger on[k].prev} | 0 < k < |on| && (k < b || e < k)
        ensures on[k].prev == on[k - 1]
      {
        assert on[k] != it;
      }
      HoldsCut(on, old(Contents), b, e);
      SpliceValid(on, b, e, []);
    }

    /** `clear()` (bmstu_list.h:204-216): unlinks every interior node, restoring the empty ring. */
    method Clear()
      requires Valid()
      modifies this, nodes
      ensures head.value == old(head.value) && tail.value == old(tail.value)
      ensures Valid() && head == old(head) && tail == old(tail)
      ensures Contents == [] && nodes == [head, tail]
      ensures head.next == tail && tail.prev == head
      ensures Begin() == End()
      ensures Pred(Begin(), 1) == Ok(head) && Pred(End(), 1) == Ok(head)
    {
      if Empty() {
        return;
      }
      ghost var ns := nodes;
      ghost var k := 1;
      LinkedApart(ns, 0, |ns| - 1);
      while head.next != tail
        modifies head`next
        invariant 1 <= k < |ns| && head.next == ns[k]
        invariant head.prev == null
        decreases |ns| - k
      {
        var next := head.next;
        head.next := next.next;
        k := k + 1;
      }
      tail.prev := head;
      size := 0;
      nodes, Contents := [head, tail], [];
    }

    /** `swap(other)` (bmstu_list.h:218-222): exchanges the sentinels and the sizes. */
    method Swap(other: List<T>)
      requires Valid() && other.Valid()
      modifies this, other
      ensures Valid() && other.Valid()
      ensures Contents == old(other.Contents) && other.Contents == old(Contents)
      ensures nodes == old(other.nodes) && other.nodes == old(nodes)
      ensures head == old(other.head) && other.head == old(head)
      ensures tail == old(other.tail) && other.tail == old(tail)
    {
      // the three std::swap calls, together with the ghost state they carry along
      head, tail, size, nodes, Contents, other.head, other.tail, other.size, other.nodes, other.Contents :=
        other.head, other.tail, other.size, other.nodes, other.Contents, head, tail, size, nodes, Contents;
    }

    /**
     * The shared loop of the range, copy and assignment operations
     * (bmstu_list.h:143-152, 162-170, 411-420): a fresh list receiving
     * `push_back` of every value from `first` up to, not including, `last`.
     */
    static method CopyRange(ghost src: List<T>, first: Node<T>, ghost i: nat, last: Node<T>, ghost j: nat)
      returns (tmp: List<T>)
      requires src.Valid()
      requires 1 <= i <= j < |src.nodes| && src.nodes[i] == first && src.nodes[j] == last
      ensures fresh(tmp) && tmp.Valid() && src.Valid()
      ensures tmp.Contents == src.Contents[i - 1..j - 1]
      ensures forall m :: 0 <= m < |tmp.nodes| ==> fresh(tmp.nodes[m])
    {
      LinkedOnlyAt(src.nodes, j);
      tmp := new List<T>();
      var copy := first;
      ghost var k := i;
      while copy != last
        invariant i <= k <= j && copy == src.nodes[k]
        invariant src.Valid()
        invariant fresh(tmp) && tmp.Valid() && tmp.Contents == src.Contents[i - 1..k - 1]
        invariant forall m :: 0 <= m < |tmp.nodes| ==> fresh(tmp.nodes[m])
        decreases j - k
      {
        tmp.PushBack(copy.value);
        copy := copy.next;
        k := k + 1;
      }
    }

    /** `list(begin, end)` (bmstu_list.h:143-152): a fresh list of the values in [first, last). */
    constructor FromRange(ghost src: List<T>, first: Node<T>, ghost i: nat, last: Node<T>, ghost j: nat)
      requires src.Valid()
      requires 1 <= i <= j < |src.nodes| && src.nodes[i] == first && src.nodes[j] == last
      ensures Valid() && Contents == src.Contents[i - 1..j - 1]
      ensures forall m :: 0 <= m < |nodes| ==> fresh(nodes[m])
    {
      var tmp := CopyRange(src, first, i, last, j);
      head, tail, size := tmp.head, tmp.tail, tmp.size;
      nodes, Contents := tmp.nodes, tmp.Contents;
    }

    /** `list(const list &other)` (bmstu_list.h:162-170): an independent copy of `other`. */
    constructor Copy(other: List<T>)
      requires other.Valid()
      ensures Valid() && Contents == other.Contents
      ensures forall m :: 0 <= m < |nodes| ==> fresh(nodes[m])
    {
      var tmp := CopyRange(other, other.Begin(), 1, other.End(), |other.nodes| - 1);
      head, tail, size := tmp.head, tmp.tail, tmp.size;
      nodes, Contents := tmp.nodes, tmp.Contents;
    }

    /** `list(std::initializer_list<T>)` (bmstu_list.h:154-160). */
    constructor FromValues(values: seq<T>)
      ensures Valid() && Contents == values
      ensures forall m :: 0 <= m < |nodes| ==> fresh(nodes[m])
    {
      var tmp := new List<T>();
      for k := 0 to |values|
        invariant fresh(tmp) && tmp.Valid() && tmp.Contents == values[..k]
        invariant forall m :: 0 <= m < |tmp.nodes| ==> fresh(tmp.nodes[m])
      {
        tmp.PushBack(values[k]);
      }
      head, tail, size := tmp.head, tmp.tail, tmp.size;
      nodes, Contents := tmp.nodes, tmp.Contents;
    }

    /** `operator=(const list &other)` (bmstu_list.h:411-420): copy into a temporary, then swap. */
    method Assign(other: List<T>)
      requires Valid() && other.Valid()
      modifies this
      ensures Valid() && Contents == old(other.Contents)
      ensures this != other ==> forall m :: 0 <= m < |nodes| ==> fresh(nodes[m])
      ensures this == other ==> nodes == old(nodes)
    {
      if this != other {
        var tmp := CopyRange(other, other.Begin(), 1, other.End(), |other.nodes| - 1);
        Swap(tmp);
      }
    }

    /** `std::swap(*a, *b)` on two iterators: the two payloads change places. */
    static method SwapValues(a: Node<T>, b: Node<T>)
      modifies a`value, b`value
      ensures a.value == old(b.value) && b.value == old(a.value)
    {
      a.value, b.value := b.value, a.value;
    }

    /**
     * The walk of revers_v (bmstu_list.h:333-339) over the chain `ns` holding
     * `cs`: it_b starts at the first interior node and it_e at the last; while
     * they are neither equal nor adjacent their values are swapped and both
     * step inward.  No link changes.
     */
    static method SwapValuesInward(ghost ns: seq<Node<T>>, ghost cs: seq<T>, first: Node<T>, last: Node<T>)
      requires Linked(ns) && Holds(ns, cs) && |cs| >= 1
      requires first == ns[1] && last == ns[|ns| - 2]
      modifies ns`value
      ensures Linked(ns) && Holds(ns, SwapOuter(cs))
      ensures ns[0].value == old(ns[0].value) && ns[|ns| - 1].value == old(ns[|ns| - 1].value)
    {
      ghost var n := |cs|;
      var itB, itE := first, last;
      ghost var i, j := 1, n;
      ghost var cur := cs;
      while itB != itE && itB != itE.prev
        modifies ns`value
        invariant 1 <= i <= j <= n && i + j == n + 1
        invariant Linked(ns)
        invariant itB == ns[i] && itE == ns[j]
        invariant Holds(ns, cur)
        invariant ns[0].value == old(ns[0].value) && ns[|ns| - 1].value == old(ns[|ns| - 1].value)
        invariant forall k {:trigger cur[k]} :: 0 <= k < n ==>
          cur[k] == if k < i - 1 || k > n - i then cs[n - 1 - k] else cs[k]
        decreases j - i
      {
        LinkedOnlyAt(ns, i);
        LinkedOnlyAt(ns, j);
        label before:
        SwapValues(itB, itE);
        ghost var cur0 := cur;
        cur := cur[i - 1 := cur[j - 1]][j - 1 := cur[i - 1]];
        forall k | 0 <= k < n
          ensures cur[k] == ns[k + 1].value
          ensures cur[k] == if k < i || k > n - 1 - i then cs[n - 1 - k] else cs[k]
        {
          if k != i - 1 && k != j - 1 {
            assert ns[k + 1] != itB && ns[k + 1] != itE;
            assert ns[k + 1].value == old@before(ns[k + 1].value);
            assert cur[k] == cur0[k];
          } else if k == i - 1 {
            assert cur[k] == cur0[j - 1] == cs[j - 1];
          } else {
            assert cur[k] == cur0[i - 1] == cs[i - 1];
          }
        }
        assert itB.next == ns[i + 1] && itE.prev == ns[j - 1];
        itB, itE := itB.next, itE.prev;
        i, j := i + 1, j - 1;
      }
      LinkedOnlyAt(ns, i);
      assert i - 1 == SwappedPairs(n);
      SwapOuterFromPointwise(cs, cur);
    }

    /**
     * `revers_v()` (bmstu_list.h:330-340): swaps values from both ends
     * inward while the cursors are neither equal nor adjacent.  No link changes.
     */
    method ReverseValues()
      requires Valid()
      modifies this, nodes`value
      ensures head.value == old(head.value) && tail.value == old(tail.value)
      ensures Valid() && head == old(head) && tail == old(tail) && nodes == old(nodes)
      ensures Contents == SwapOuter(old(Contents))
      ensures forall x :: x in nodes ==> x.prev == old(x.prev) && x.next == old(x.next)
    {
      if Empty() {
        return;
      }
      var itB := Begin();
      var itE := Retreat(End(), |nodes| - 1, 1);
      SwapValuesInward(nodes, Contents, itB, itE);
      Contents := SwapOuter(Contents);
    }

    /**
     * The body of revers_n's loop (bmstu_list.h:352-367): the nodes at
     * positions lo and hi of the chain `on`, at least two apart, exchange
     * places by relinking them and their four neighbours.  Returns the
     * cursors it_b and it_e as the body leaves them: exchanged.
     */
    static method ExchangeApart(ghost on: seq<Node<T>>, ghost lo: nat, ghost hi: nat,
                                itH: Node<T>, itB: Node<T>, itE: Node<T>, itT: Node<T>)
      returns (newB: Node<T>, newE: Node<T>)
      requires Linked(on) && 1 <= lo && lo + 1 < hi < |on| - 1
      requires itH == on[lo - 1] && itB == on[lo] && itE == on[hi] && itT == on[hi + 1]
      modifies itH`next, itB`next, itB`prev, itB.next`prev, itE.prev`next, itE`next, itE`prev, itT`prev
      ensures Linked(on[lo := on[hi]][hi := on[lo]])
      ensures newB == on[hi] && newE == on[lo]
      ensures newB.next == on[lo + 1] && newE.prev == on[hi - 1] && itH.next == on[hi] && itT.prev == on[lo]
    {
      LinkedOnlyAt(on, lo - 1);
      LinkedOnlyAt(on, lo);
      LinkedOnlyAt(on, lo + 1);
      LinkedOnlyAt(on, hi - 1);
      LinkedOnlyAt(on, hi);
      LinkedOnlyAt(on, hi + 1);
      newB, newE := itB, itE;

      var tmpNext := newB.next;
      var tmpPrev := newE.prev;
      newE.prev := newB.prev;
      newB.next := newE.next;
      newE.next := tmpNext;
      newB.prev := tmpPrev;
      tmpNext.prev := newE;
      tmpPrev.next := newB;

      var itTmp := newE;
      newE := newB;
      newB := itTmp;

      itH.next := newB;
      itT.prev := newE;

      forall k {:trigger on[k].next} | 0 <= k < |on| - 1 && k != lo - 1 && k != lo && k != hi - 1 && k != hi
        ensures on[k].next == on[k + 1]
      {
        assert on[k] != on[lo - 1] && on[k] != on[lo] && on[k] != on[hi - 1] && on[k] != on[hi];
      }
      forall k {:trigger on[k].prev} | 0 < k < |on| && k != lo && k != lo + 1 && k != hi && k != hi + 1
        ensures on[k].prev == on[k - 1]
      {
        assert on[k] != on[lo] && on[k] != on[lo + 1] && on[k] != on[hi] && on[k] != on[hi + 1];
      }
      LinkedSwap(on, lo, hi);
    }

    /**
     * The tail of revers_n (bmstu_list.h:370-379): the adjacent nodes at
     * positions lo and lo + 1 of `on` exchange places.
     */
    static method ExchangeAdjacent(ghost on: seq<Node<T>>, ghost lo: nat,
                                   itH: Node<T>, itB: Node<T>, itE: Node<T>, itT: Node<T>)
      requires Linked(on) && 1 <= lo && lo + 1 < |on| - 1
      requires itH == on[lo - 1] && itB == on[lo] && itE == on[lo + 1] && itT == on[lo + 2]
      modifies itH`next, itB`next, itB`prev, itE`next, itE`prev, itT`prev
      ensures Linked(on[lo := on[lo + 1]][lo + 1 := on[lo]])
    {
      LinkedOnlyAt(on, lo - 1);
      LinkedOnlyAt(on, lo);
      LinkedOnlyAt(on, lo + 1);
      LinkedOnlyAt(on, lo + 2);

      var tmp := itH.next;
      itH.next := itT.prev;
      itT.prev := tmp;

      itB.next := itT;
      itB.prev := itE;
      itE.next := itB;
      itE.prev := itH;

      forall k {:trigger on[k].next} | 0 <= k < |on| - 1 && k != lo - 1 && k != lo && k != lo + 1
        ensures on[k].next == on[k + 1]
      {
        assert on[k] != on[lo - 1] && on[k] != on[lo] && on[k] != on[lo + 1];
      }
      forall k {:trigger on[k].prev} | 0 < k < |on| && k != lo && k != lo + 1 && k != lo + 2
        ensures on[k].prev == on[k - 1]
      {
        assert on[k] != on[lo] && on[k] != on[lo + 1] && on[k] != on[lo + 2];
      }
      LinkedSwap(on, lo, lo + 1);
    }

    /**
     * The walk of revers_n (bmstu_list.h:347-379) over the chain `on`: it_b
     * starts at position b, it_t at t, it_h and it_e one step before them.
     * The cursors move inward exchanging the outer pair of nodes until they
     * meet or are adjacent; an adjacent pair is exchanged last.  Afterwards
     * the chain runs through `on` with positions b..t-1 reversed.
     */
    static method RelinkReversed(ghost on: seq<Node<T>>, ghost b: nat, ghost t: nat,
                                 itH: Node<T>, itB: Node<T>, itE: Node<T>, itT: Node<T>)
      requires Linked(on) && 1 <= b < t < |on|
      requires itH == on[b - 1] && itB == on[b] && itE == on[t - 1] && itT == on[t]
      modifies on`prev, on`next
      ensures Linked(ReverseRange(on, b, t))
    {
      var itH, itB, itE, itT := itH, itB, itE, itT;
      ghost var ns := on;
      ghost var lo, hi := b, t - 1;
      while itB != itE && itB != itE.prev
        modifies on`prev, on`next
        invariant b <= lo <= hi < t && lo - b == t - 1 - hi
        invariant |ns| == |on| && Linked(ns)
        invariant itH == ns[lo - 1] && itB == ns[lo] && itE == ns[hi] && itT == ns[hi + 1]
        invariant MirroredOutside(ns, on, b, t, lo, hi)
        decreases hi - lo
      {
        LinkedOnlyAt(ns, lo);
        assert lo + 1 < hi;
        MirroredStep(ns, on, b, t, lo, hi);
        itB, itE := ExchangeApart(ns, lo, hi, itH, itB, itE, itT);
        itB, itE, itH, itT := itB.next, itE.prev, itH.next, itT.prev;
        ns := ns[lo := ns[hi]][hi := ns[lo]];
        lo, hi := lo + 1, hi - 1;
      }
      if itB == itE.prev {
        LinkedOnlyAt(ns, lo);
        assert hi == lo + 1;
        MirroredStep(ns, on, b, t, lo, hi);
        ExchangeAdjacent(ns, lo, itH, itB, itE, itT);
        ns := ns[lo := ns[hi]][hi := ns[lo]];
        lo, hi := lo + 1, hi - 1;
      } else {
        LinkedOnlyAt(ns, lo);
        assert lo == hi;
      }
      MirroredAll(ns, on, b, t, lo, hi);
    }

    /**
     * `revers_n(it_b, it_t)` (bmstu_list.h:343-381): reverses the nodes of
     * the half-open range [it_b, it_t) purely by relinking; with fewer than
     * two values in the whole list it returns at once.  At every size the
     * model takes a forward range [it_b, it_t) with it_b not `head`.  With
     * two or more values that is what the code needs: `it_b - 1` would step
     * before `head`, and the noexcept operator would terminate the program.
     * The range must then also be non-empty: on [it_b, it_b) the cursors
     * start crossed (it_e is it_h); then either the loop corrupts the links,
     * or, when it_b is `begin()`, the condition's `it_e - 1` steps before
     * `head` and the noexcept operator terminates the program.
     */
    method ReverseNodes(first: Node<T>, ghost b: nat, stop: Node<T>, ghost t: nat)
      requires Valid()
      requires 1 <= b <= t < |nodes| && nodes[b] == first && nodes[t] == stop
      requires b == t ==> size < 2
      modifies this, nodes`prev, nodes`next
      ensures Valid() && head == old(head) && tail == old(tail) && size == old(size)
      ensures nodes == ReverseRange(old(nodes), b, t)
      ensures Contents == ReverseRange(old(Contents), b - 1, t - 1)
      ensures Holds(old(nodes), old(Contents))  // every node still holds its own value
    {
      if size < 2 {
        ReverseRangeFromPointwise(nodes, nodes, b, t);
        ReverseRangeFromPointwise(Contents, Contents, b - 1, t - 1);
        return;
      }
      var itH := Retreat(first, b, 1);
      var itE := Retreat(stop, t, 1);
      ghost var on, oc := nodes, Contents;
      RelinkReversed(on, b, t, itH, first, itE, stop);
      nodes, Contents := ReverseRange(on, b, t), ReverseRange(oc, b - 1, t - 1);
      ReversedValid(on, oc, b, t);
    }
  }

  /** `l == r` (bmstu_list.h:264-279): equal sizes and pairwise equal values. */
  method Equal<T(0,==)>(l: List<T>, r: List<T>) returns (eq: bool)
    requires l.Valid() && r.Valid()
    ensures eq <==> l.Contents == r.Contents
  {
    if l.size != r.size {
      return false;
    }
    var lb, rb := l.Begin(), r.Begin();
    ghost var k := 1;
    while lb != l.End() && rb != r.End()
      invariant 1 <= k < |l.nodes| && k < |r.nodes| && lb == l.nodes[k] && rb == r.nodes[k]
      invariant l.Contents[..k - 1] == r.Contents[..k - 1]
      decreases |l.nodes| - k
    {
      if lb.value != rb.value {
        assert l.Contents[k - 1] != r.Contents[k - 1];
        return false;
      }
      assert l.Contents[..k] == l.Contents[..k - 1] + [lb.value];
      assert r.Contents[..k] == r.Contents[..k - 1] + [rb.value];
      lb, rb := lb.next, rb.next;
      k := k + 1;
    }
    return true;
  }

  /** `l != r` (bmstu_list.h:281-283). */
  method NotEqual<T(0,==)>(l: List<T>, r: List<T>) returns (ne: bool)
    requires l.Valid() && r.Valid()
    ensures ne <==> l.Contents != r.Contents
  {
    var eq := Equal(l, r);
    ne := !eq;
  }

  /**
   * `lexicographical_compare_(l, r)`, that is `l < r` (bmstu_list.h:285-287,
   * 441-452), with `lt` standing for the element type's `operator<`.
   */
  method Less<T(0)>(l: List<T>, r: List<T>, lt: (T, T) -> bool) returns (less: bool)
    requires l.Valid() && r.Valid()
    ensures less == LexLessAsWritten(l.Contents, r.Contents, lt)
  {
    var fl, fr := l.Begin(), r.Begin();
    ghost var k := 1;
    while fl != l.End() && fr != r.End()
      invariant 1 <= k < |l.nodes| && k < |r.nodes| && fl == l.nodes[k] && fr == r.nodes[k]
      invariant LexLessAsWritten(l.Contents, r.Contents, lt)
             == LexLessAsWritten(l.Contents[k - 1..], r.Contents[k - 1..], lt)
      decreases |l.nodes| - k
    {
      if lt(fl.value, fr.value) {
        return true;
      }
      if lt(fr.value, fl.value) {
        return false;
      }
      assert l.Contents[k - 1..][1..] == l.Contents[k..];
      assert r.Contents[k - 1..][1..] == r.Contents[k..];
      fl, fr := fl.next, fr.next;
      k := k + 1;
    }
    return fr == r.End() && fl == l.End();
  }

  /** `l > r` (bmstu_list.h:289-291): `r < l`. */
  method Greater<T(0)>(l: List<T>, r: List<T>, lt: (T, T) -> bool) returns (gt: bool)
    requires l.Valid() && r.Valid()
    ensures gt == LexLessAsWritten(r.Contents, l.Contents, lt)
  {
    gt := Less(r, l, lt);
  }

  /** `l <= r` (bmstu_list.h:293-295): not `r < l`. */
  method LessOrEqual<T(0)>(l: List<T>, r: List<T>, lt: (T, T) -> bool) returns (le: bool)
    requires l.Valid() && r.Valid()
    ensures le == !LexLessAsWritten(r.Contents, l.Contents, lt)
  {
    var gt := Less(r, l, lt);
    le := !gt;
  }

  /** `l >= r` (bmstu_list.h:297-299): not `l < r`. */
  method GreaterOrEqual<T(0)>(l: List<T>, r: List<T>, lt: (T, T) -> bool) returns (ge: bool)
    requires l.Valid() && r.Valid()
    ensures ge == !LexLessAsWritten(l.Contents, r.Contents, lt)
  {
    var less := Less(l, r, lt);
    ge := !less;
  }
}
