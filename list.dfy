/**
 * The singly linked list library (`_list_*` and its `dlist_*` integer
 * wrappers): a header with size, head and an optional tail pointer over a
 * chain of nodes. The element union is modelled as `int`, the `dlist_` case.
 */
module LinkedList {

  function Min(a: nat, b: nat): nat {
    if a <= b then a else b
  }

  /** `elem_t`: a value and the link to the next node. */
  class Node {
    var val: int
    var next: Node?

    constructor (val: int, next: Node?)
      ensures this.val == val && this.next == next
    {
      this.val := val;
      this.next := next;
    }
  }

  /** Each node links to the one after it, and the last one to null. */
  ghost predicate Chain(ns: seq<Node>)
    reads ns
  {
    forall i {:trigger ns[i].next} :: 0 <= i < |ns| ==>
      ns[i].next == (if i + 1 < |ns| then ns[i + 1] else null)
  }

  /** The nodes hold the values, position by position. */
  ghost predicate Holds(ns: seq<Node>, vs: seq<int>)
    reads ns
  {
    |ns| == |vs| && forall i :: 0 <= i < |ns| ==> ns[i].val == vs[i]
  }

  ghost predicate Distinct(ns: seq<Node>) {
    forall i, j :: 0 <= i < j < |ns| ==> ns[i] != ns[j]
  }

  /** Dropping the first node leaves a chain. */
  lemma ChainRest(ns: seq<Node>)
    requires Chain(ns) && |ns| > 0
    ensures Chain(ns[1..])
  {
    var t := ns[1..];
    forall i | 0 <= i < |t|
      ensures t[i].next == (if i + 1 < |t| then t[i + 1] else null)
    {
      ChainStep(ns, i + 1);
    }
    assert Chain(t);
  }

  /** A node linked to the front of a chain extends it. */
  lemma ChainCons(n: Node, ns: seq<Node>)
    requires Chain(ns) && n.next == (if |ns| > 0 then ns[0] else null)
    ensures Chain([n] + ns)
  {
    var t := [n] + ns;
    forall i | 0 <= i < |t|
      ensures t[i].next == (if i + 1 < |t| then t[i + 1] else null)
    {
      if i > 0 {
        assert t[i] == ns[i - 1];
        ChainStep(ns, i - 1);
      }
    }
    assert Chain(t);
  }

  /**
   * Linking `elem` in front of position `pos` of a chain (the node before it,
   * if any, now points at `elem`, every other link is kept) gives a chain.
   */
  lemma SpliceChain(ns: seq<Node>, pos: nat, elem: Node)
    requires pos <= |ns|
    requires forall k {:trigger ns[k].next} :: 0 <= k < |ns| && k + 1 != pos ==>
               ns[k].next == (if k + 1 < |ns| then ns[k + 1] else null)
    requires pos > 0 ==> ns[pos - 1].next == elem
    requires elem.next == (if pos < |ns| then ns[pos] else null)
    ensures Chain(ns[..pos] + [elem] + ns[pos..])
  {
    var t := ns[..pos] + [elem] + ns[pos..];
    forall j | 0 <= j < |t|
      ensures t[j].next == (if j + 1 < |t| then t[j + 1] else null)
    {
      if j + 1 < pos {
        assert t[j] == ns[j] && t[j + 1] == ns[j + 1];
        assert ns[j].next == ns[j + 1];
      } else if j + 1 == pos {
        assert t[j] == ns[j] && t[j + 1] == elem;
      } else if j == pos {
        assert t[j] == elem && (j + 1 < |t| ==> t[j + 1] == ns[j]);
      } else {
        assert t[j] == ns[j - 1] && (j + 1 < |t| ==> t[j + 1] == ns[j]);
        var q := j - 1;
        assert q + 1 != pos;
        assert ns[q].next == (if q + 1 < |ns| then ns[q + 1] else null);
      }
    }
    assert Chain(t);
  }

  /** The values of a spliced node sequence are the spliced values. */
  lemma SpliceHolds(ns: seq<Node>, vs: seq<int>, pos: nat, elem: Node, x: int)
    requires pos <= |ns| == |vs|
    requires forall k :: 0 <= k < |ns| ==> ns[k].val == vs[k]
    requires elem.val == x
    ensures Holds(ns[..pos] + [elem] + ns[pos..], vs[..pos] + [x] + vs[pos..])
  {
    var t, w := ns[..pos] + [elem] + ns[pos..], vs[..pos] + [x] + vs[pos..];
    forall j | 0 <= j < |t|
      ensures t[j].val == w[j]
    {
      if j < pos {
        assert t[j] == ns[j] && w[j] == vs[j];
      } else if pos < j {
        var q := j - 1;
        assert t[j] == ns[q] && w[j] == vs[q];
      }
    }
    assert Holds(t, w);
  }

  /** Splicing a node that is not in a distinct sequence keeps it distinct. */
  lemma SpliceDistinct(ns: seq<Node>, pos: nat, elem: Node)
    requires pos <= |ns| && Distinct(ns) && elem !in ns
    ensures Distinct(ns[..pos] + [elem] + ns[pos..])
    ensures forall nd :: nd in ns[..pos] + [elem] + ns[pos..] ==> nd == elem || nd in ns
  {
    var t := ns[..pos] + [elem] + ns[pos..];
    forall i, j | 0 <= i < j < |t|
      ensures t[i] != t[j]
    {
      var a := if i < pos then i else i - 1;
      var b := if j <= pos then j else j - 1;
      if i == pos {
        assert t[i] == elem && t[j] == ns[b];
      } else if j == pos {
        assert t[j] == elem && t[i] == ns[a];
      } else {
        assert t[i] == ns[a] && t[j] == ns[b] && a < b;
      }
    }
    assert Distinct(t);
  }

  lemma ChainStep(ns: seq<Node>, i: nat)
    requires Chain(ns) && i < |ns|
    ensures ns[i].next == (if i + 1 < |ns| then ns[i + 1] else null)
    ensures ns[i].next == null <==> i + 1 == |ns|
  {
  }

  /**
   * The relinking step `prev->next = elem` of pushBack, insert and trim, on
   * the node at index pos - 1 of a chain: every other link and every value is kept.
   */
  method Relink(prev: Node, elem: Node?, ghost ns: seq<Node>, ghost vs: seq<int>, ghost pos: nat)
    requires 0 < pos <= |ns| && prev == ns[pos - 1]
    requires Chain(ns) && Holds(ns, vs) && Distinct(ns)
    modifies prev
    ensures prev.next == elem
    ensures forall k {:trigger ns[k].next} :: 0 <= k < |ns| && k + 1 != pos ==>
              ns[k].next == (if k + 1 < |ns| then ns[k + 1] else null)
    ensures Holds(ns, vs)
  {
    prev.next := elem;
    forall k | 0 <= k < |ns| && k + 1 != pos
      ensures ns[k].next == (if k + 1 < |ns| then ns[k + 1] else null)
    {
      assert ns[k] != ns[pos - 1];
      assert old(ns[k].next) == (if k + 1 < |ns| then ns[k + 1] else null);
    }
    forall k | 0 <= k < |ns|
      ensures ns[k].val == vs[k]
    {
      assert old(ns[k].val) == vs[k];
    }
  }

  /**
   * `list_t`. `hasTail` is false in a build with LIST_DISABLE_TAIL, where the
   * tail pointer does not exist; the model then keeps `tail` null.
   */
  class List {
    var size: nat
    var head: Node?
    var tail: Node?
    const hasTail: bool

    /** The elements front to back, and the nodes that hold them. */
    ghost var contents: seq<int>
    ghost var nodes: seq<Node>

    /**
     * The chain from `head` visits exactly `nodes`, which are distinct, hold
     * `contents` and end in null; `tail` is the last node. Says nothing of `size`.
     */
    ghost predicate Linked()
      reads this, nodes
    {
      Distinct(nodes) && Holds(nodes, contents) && Chain(nodes) &&
      head == (if |nodes| == 0 then null else nodes[0]) &&
      tail == (if hasTail && |nodes| > 0 then nodes[|nodes| - 1] else null)
    }

    /** The representation invariant: a linked chain whose length is `size`. */
    ghost predicate Valid()
      reads this, nodes
    {
      Linked() && size == |nodes|
    }

    /** `_list_create`: size 0, no head, no tail. */
    constructor (hasTail: bool)
      ensures Valid()
      ensures this.hasTail == hasTail && contents == [] && nodes == [] && size == 0
      ensures head == null && tail == null
    {
      size := 0;
      head := null;
      tail := null;
      this.hasTail := hasTail;
      contents := [];
      nodes := [];
    }

    /** `_list_isEmpty`. */
    function IsEmpty(): (r: bool)
      reads this, nodes
      requires Valid()
      ensures r <==> contents == []
    {
      size == 0
    }

    /** `_list_size`: the number of elements held. */
    function Size(): (r: nat)
      reads this, nodes
      requires Valid()
      ensures r == |contents|
    {
      size
    }

    /** `_list_front`: defined only on a non-empty list (it reads through `head`). */
    function Front(): (r: int)
      reads this, nodes
      requires Valid() && size > 0
      ensures r == contents[0]
    {
      head.val
    }

    /**
     * `_list_back`: through the tail pointer, or, without one, by walking
     * the chain to the node whose `next` is null.
     */
    method Back() returns (r: int)
      requires Valid() && size > 0
      ensures r == contents[|contents| - 1]
    {
      if hasTail {
        r := tail.val;
      } else {
        var last := LastNode();
        r := last.val;
      }
    }

    /** The walk from `head` along `next` to the node whose `next` is null. */
    method LastNode() returns (last: Node)
      requires Valid() && size > 0
      ensures last == nodes[|nodes| - 1]
    {
      last := head;
      ghost var i := 0;
      while last.next != null
        invariant 0 <= i < |nodes| && last == nodes[i]
        decreases |nodes| - i
      {
        ChainStep(nodes, i);
        last := last.next;
        i := i + 1;
      }
      ChainStep(nodes, i);
    }

    /** `_list_get`: walks `pos` links from the head. */
    method Get(pos: nat) returns (r: int)
      requires Valid() && pos < size
      ensures r == contents[pos]
    {
      var tmp := head;
      var i := 0;
      while i < pos
        invariant 0 <= i <= pos
        invariant tmp == nodes[i]
      {
        ChainStep(nodes, i);
        tmp := tmp.next;
        i := i + 1;
      }
      r := tmp.val;
    }

    /**
     * `_list_pushBack`: appends x, linking it after the tail node (or after
     * the last node found by walking, without a tail pointer).
     */
    method PushBack(x: int)
      requires Valid()
      modifies this, nodes
      ensures Valid()
      ensures forall i :: 0 <= i < |nodes| ==> nodes[i] in old(nodes) || fresh(nodes[i])
      ensures contents == old(contents) + [x]
      ensures size == old(size) + 1
    {
      var node := new Node(x, null);
      ghost var ns, vs := nodes, contents;
      if head != null {
        if hasTail {
          Relink(tail, node, ns, vs, |ns|);
          tail := node;
        } else {
          var last := LastNode();
          Relink(last, node, ns, vs, |ns|);
        }
      } else {
        head := node;
        if hasTail {
          tail := head;
        }
      }
      size := size + 1;
      contents := contents + [x];
      nodes := nodes + [node];
      assert ns[..|ns|] + [node] + ns[|ns|..] == nodes;
      assert vs[..|ns|] + [x] + vs[|ns|..] == contents;
      SpliceChain(ns, |ns|, node);
      SpliceHolds(ns, vs, |ns|, node, x);
      SpliceDistinct(ns, |ns|, node);
    }

    /**
     * `_list_popFront`: drops the first element; an empty list is left
     * alone. Removing the last element also clears the tail pointer.
     */
    method PopFront()
      requires Valid()
      modifies this
      ensures Valid()
      ensures old(size) == 0 ==> contents == old(contents) && size == 0
      ensures old(size) > 0 ==> contents == old(contents)[1..] && size == old(size) - 1
      ensures size == 0 ==> head == null && tail == null
    {
      if head != null {
        ChainStep(nodes, 0);
        ChainRest(nodes);
        head := head.next;
        size := size - 1;
        contents := contents[1..];
        nodes := nodes[1..];
        if hasTail && size == 0 {
          tail := null;
        }
      }
    }

    /**
     * `_list_pushFront`: prepends x; on an empty list the new node is also
     * the tail, so front and back coincide.
     */
    method PushFront(x: int)
      requires Valid()
      modifies this
      ensures Valid()
      ensures forall i :: 0 <= i < |nodes| ==> nodes[i] in old(nodes) || fresh(nodes[i])
      ensures contents == [x] + old(contents)
      ensures size == old(size) + 1
      ensures hasTail && old(size) == 0 ==> tail == head
    {
      ghost var ns, vs := nodes, contents;
      var node := new Node(x, head);
      head := node;
      size := size + 1;
      if hasTail && size == 1 {
        tail := head;
      }
      contents := [x] + contents;
      nodes := [node] + nodes;
      forall k | 0 <= k < |ns|
        ensures ns[k].next == (if k + 1 < |ns| then ns[k + 1] else null)
      {
        ChainStep(ns, k);
      }
      assert nodes == ns[..0] + [node] + ns[0..] && contents == vs[..0] + [x] + vs[0..];
      SplicedValid(ns, vs, 0, node, x);
    }

    /**
     * The walk of `_list_insert`: `pos` steps from the head give the node
     * before position `pos` (null for the front) and the node at it (null past the end).
     */
    method Locate(pos: nat) returns (curr: Node?, nxt: Node?)
      requires Valid() && pos <= size
      ensures curr == (if pos == 0 then null else nodes[pos - 1])
      ensures nxt == (if pos < |nodes| then nodes[pos] else null)
    {
      curr := null;
      nxt := head;
      var i := 0;
      while i < pos
        invariant 0 <= i <= pos
        invariant nxt == (if i < |nodes| then nodes[i] else null)
        invariant curr == (if i == 0 then null else nodes[i - 1])
      {
        ChainStep(nodes, i);
        curr := nxt;
        nxt := nxt.next;
        i := i + 1;
      }
    }

    /**
     * `_list_insert`: links a new node in front of position `pos`, so that it
     * becomes element `pos`; `pos == size` appends and moves the tail. On an
     * empty list `pos` is not looked at and the list becomes [x].
     */
    method Insert(pos: nat, x: int)
      requires Valid()
      requires size == 0 || pos <= size
      modifies this, nodes
      ensures Valid()
      ensures forall i :: 0 <= i < |nodes| ==> nodes[i] in old(nodes) || fresh(nodes[i])
      ensures size == old(size) + 1
      ensures contents == if old(size) == 0 then [x]
                          else old(contents)[..pos] + [x] + old(contents)[pos..]
    {
      if head != null {
        InsertLinked(pos, x);
      } else {
        var elem := new Node(x, null);
        head := elem;
        if hasTail {
          tail := head;
        }
        nodes := [elem];
        contents := [x];
        size := size + 1;
      }
    }

    /** The non-empty branch of `_list_insert`: walk, link the new node in, count it. */
    method InsertLinked(pos: nat, x: int)
      requires Valid() && 0 < size && pos <= size
      modifies this, nodes
      ensures Valid()
      ensures forall i :: 0 <= i < |nodes| ==> nodes[i] in old(nodes) || fresh(nodes[i])
      ensures size == old(size) + 1
      ensures contents == old(contents)[..pos] + [x] + old(contents)[pos..]
    {
      var curr, nxt := Locate(pos);
      ghost var ns, vs := nodes, contents;
      var elem := new Node(x, nxt);
      if curr != null {
        Relink(curr, elem, ns, vs, pos);
      } else {
        head := elem;
      }
      if hasTail && pos == size {
        tail := elem;
      }
      nodes := nodes[..pos] + [elem] + nodes[pos..];
      contents := contents[..pos] + [x] + contents[pos..];
      size := size + 1;
      if curr == null {
        forall k | 0 <= k < |ns| && k + 1 != pos
          ensures ns[k].next == (if k + 1 < |ns| then ns[k + 1] else null)
        {
          ChainStep(ns, k);
        }
      }
      SplicedValid(ns, vs, pos, elem, x);
    }

    /**
     * The list is valid again once `elem` holding x has been linked in
     * front of position pos of the chain `ns` and the ghost state updated.
     */
    lemma SplicedValid(ns: seq<Node>, vs: seq<int>, pos: nat, elem: Node, x: int)
      requires pos <= |ns| && Holds(ns, vs) && Distinct(ns) && elem !in ns
      requires nodes == ns[..pos] + [elem] + ns[pos..] && contents == vs[..pos] + [x] + vs[pos..]
      requires size == |ns| + 1 && elem.val == x
      requires forall k {:trigger ns[k].next} :: 0 <= k < |ns| && k + 1 != pos ==>
                 ns[k].next == (if k + 1 < |ns| then ns[k + 1] else null)
      requires pos > 0 ==> ns[pos - 1].next == elem
      requires elem.next == (if pos < |ns| then ns[pos] else null)
      requires head == (if pos == 0 then elem else ns[0])
      requires tail == (if !hasTail then null else if pos == |ns| then elem else ns[|ns| - 1])
      ensures Valid()
    {
      SpliceChain(ns, pos, elem);
      SpliceHolds(ns, vs, pos, elem, x);
      SpliceDistinct(ns, pos, elem);
      assert nodes[0] == (if pos == 0 then elem else ns[0]);
      assert nodes[|nodes| - 1] == (if pos == |ns| then elem else ns[|ns| - 1]);
    }

    /**
     * `_list_swap`: overwrites element `pos` with x, keeping the size; an
     * empty list is left alone.
     */
    method Swap(pos: nat, x: int)
      requires Valid()
      requires size == 0 || pos < size
      modifies this, nodes
      ensures Valid()
      ensures size == old(size)
      ensures contents == if old(size) == 0 then old(contents) else old(contents)[pos := x]
    {
      if head != null {
        var tmp := head;
        var i := 0;
        while i < pos
          modifies {}
          invariant 0 <= i <= pos
          invariant tmp == nodes[i]
        {
          ChainStep(nodes, i);
          tmp := tmp.next;
          i := i + 1;
        }
        tmp.val := x;
        contents := contents[pos := x];
        assert Chain(nodes) && Holds(nodes, contents) by {
          forall k | 0 <= k < |nodes|
            ensures nodes[k].next == old(nodes[k].next)
            ensures nodes[k].val == contents[k]
          {
            assert k != pos ==> nodes[k] != nodes[pos];
          }
          forall k | 0 <= k < |nodes|
            ensures nodes[k].next == (if k + 1 < |nodes| then nodes[k + 1] else null)
          {
            ChainStep(old(nodes), k);
          }
        }
      }
    }

    /**
     * The walk of `_list_trim` for n >= 1: every node is visited; the node
     * at index n - 1 (if any) is cut off from its successors and becomes the
     * tail. `size` is not touched here.
     */
    method CutAfter(n: nat)
      requires Valid() && n >= 1
      modifies this, nodes
      ensures Linked()
      ensures size == old(size) && head == old(head)
      ensures nodes == old(nodes)[..Min(n, old(size))]
      ensures contents == old(contents)[..Min(n, old(size))]
    {
      var tmp := head;
      var i := 0;
      while tmp != null && i < n - 1
        modifies {}
        invariant 0 <= i <= |nodes| && i <= n - 1
        invariant tmp == (if i < |nodes| then nodes[i] else null)
        decreases |nodes| - i
      {
        ChainStep(nodes, i);
        tmp := tmp.next;
        i := i + 1;
      }
      if tmp != null {
        ghost var ns, vs := nodes, contents;
        ChainStep(ns, i);
        var tmpNext := tmp.next;
        Relink(tmp, null, ns, vs, n);
        if hasTail {
          tail := tmp;
        }
        nodes := nodes[..n];
        contents := contents[..n];
        CutValid(ns, vs, n);
        // the nodes after index n - 1 are released; the walk goes on over them
        tmp := tmpNext;
        i := i + 1;
        while tmp != null
          modifies {}
          invariant n <= i <= |ns|
          invariant tmp == (if i < |ns| then ns[i] else null)
          decreases |ns| - i
        {
          assert ns[i].next == (if i + 1 < |ns| then ns[i + 1] else null);
          tmp := tmp.next;
          i := i + 1;
        }
      }
    }

    /** The list is linked again once the chain `ns` has been cut after its n-th node. */
    lemma CutValid(ns: seq<Node>, vs: seq<int>, n: nat)
      requires 0 < n <= |ns| && Holds(ns, vs) && Distinct(ns)
      requires forall k {:trigger ns[k].next} :: 0 <= k < |ns| && k + 1 != n ==>
                 ns[k].next == (if k + 1 < |ns| then ns[k + 1] else null)
      requires ns[n - 1].next == null
      requires nodes == ns[..n] && contents == vs[..n]
      requires head == ns[0] && tail == (if hasTail then ns[n - 1] else null)
      ensures Linked()
    {
      var t := ns[..n];
      forall j | 0 <= j < n
        ensures t[j].next == (if j + 1 < n then t[j + 1] else null)
      {
        assert t[j] == ns[j];
        if j + 1 < n {
          assert t[j + 1] == ns[j + 1];
          assert ns[j].next == ns[j + 1];
        }
      }
      assert Chain(t);
      assert Holds(t, vs[..n]) by {
        forall j | 0 <= j < n
          ensures t[j].val == vs[..n][j]
        {
          assert t[j] == ns[j];
        }
      }
    }

    /**
     * `_list_trim`, as the header documents it: n == 0 destroys the list (the
     * result `destroyed` stands for the freed list and the nulled caller
     * pointer); 1 <= n <= size keeps exactly the first n elements; n > size
     * leaves the list as it was.
     */
    method Trim(n: nat) returns (destroyed: bool)
      requires Valid()
      modifies this, nodes
      ensures destroyed <==> n == 0
      ensures !destroyed ==> Valid()
      ensures !destroyed && n <= old(size) ==> contents == old(contents)[..n] && size == n
      ensures !destroyed && n > old(size) ==> contents == old(contents) && size == old(size)
    {
      if n != 0 {
        CutAfter(n);
        if n <= size {
          size := n;
        }
        destroyed := false;
      } else {
        destroyed := true;
      }
    }

    /**
     * `_list_trim` as written: after the walk it sets `size` to n even when
     * n exceeds the number of nodes, so the list then reports more elements
     * than it holds and the representation invariant is broken.
     */
    method TrimAsWritten(n: nat) returns (destroyed: bool)
      requires Valid()
      modifies this, nodes
      ensures destroyed <==> n == 0
      ensures !destroyed ==> Linked() && size == n
      ensures !destroyed ==> contents == old(contents)[..Min(n, old(size))]
      ensures n > old(size) ==> contents == old(contents) && size != |contents| && !Valid()
    {
      if n != 0 {
        CutAfter(n);
        size := n;
        destroyed := false;
      } else {
        destroyed := true;
      }
    }
  }

  /**
   * The queue discipline the Brandes loop relies on: pushBack then a run of
   * front/popFront returns the elements in the order they were pushed.
   */
  method QueueRoundTrip(a: int, b: int) returns (first: int, second: int)
    ensures first == a && second == b
  {
    var q := new List(true);
    q.PushBack(a);
    q.PushBack(b);
    first := q.Front();
    q.PopFront();
    second := q.Front();
  }

  /** The stack discipline: pushFront then front/popFront returns the last pushed first. */
  method StackRoundTrip(a: int, b: int) returns (first: int, second: int)
    ensures first == b && second == a
  {
    var s := new List(false);
    s.PushFront(a);
    s.PushFront(b);
    first := s.Front();
    s.PopFront();
    second := s.Front();
  }
}
