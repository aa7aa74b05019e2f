/**
 A doubly linked list with a sentinel at each end and a pointer kept at the middle element.
 Elements are addresses, here integers; the sentinels' data is not used.
 */
module SimcList {
  import opened Common

  class Node {
    var data: int
    var next: Node?
    var prev: Node?

    constructor (data: int)
      ensures this.data == data && next == null && prev == null
    {
      this.data, next, prev := data, null, null;
    }
  }

  function After(nodes: seq<Node>, i: nat): Node?
    requires i < |nodes|
  {
    if i + 1 < |nodes| then nodes[i + 1] else null
  }

  function Prior(nodes: seq<Node>, i: nat): Node?
    requires i < |nodes|
  {
    if i > 0 then nodes[i - 1] else null
  }

  ghost predicate Distinct(nodes: seq<Node>) {
    forall i, j :: 0 <= i < j < |nodes| ==> nodes[i] != nodes[j]
  }

  /** Forward and backward links agree with the order of the nodes, sentinels included. */
  ghost predicate Linked(nodes: seq<Node>)
    reads nodes
  {
    && Distinct(nodes)
    && (forall i {:trigger After(nodes, i)} :: 0 <= i < |nodes| ==> nodes[i].next == After(nodes, i))
    && (forall i {:trigger Prior(nodes, i)} :: 0 <= i < |nodes| ==> nodes[i].prev == Prior(nodes, i))
  }

  /** The elements between the sentinels. */
  ghost predicate Holds(nodes: seq<Node>, vals: seq<int>)
    reads nodes
  {
    && |nodes| == |vals| + 2
    && forall i :: 0 <= i < |vals| ==> nodes[i + 1].data == vals[i]
  }

  function Insert<T>(s: seq<T>, k: nat, x: T): (r: seq<T>)
    requires k <= |s|
    ensures |r| == |s| + 1
  {
    s[..k] + [x] + s[k..]
  }

  function Remove<T>(s: seq<T>, k: nat): (r: seq<T>)
    requires k < |s|
    ensures |r| == |s| - 1
  {
    s[..k] + s[k + 1..]
  }

  /** Index of the middle element among n. */
  function Middle(n: nat): nat {
    if n == 0 then 0 else (n - 1) / 2
  }

  class List {
    const head: Node
    const tail: Node
    var mid: Node?
    var numels: nat
    var iterActive: bool
    ghost var nodes: seq<Node>
    ghost var vals: seq<int>

    /** Shape without the middle pointer. */
    ghost predicate Shape()
      reads this, nodes
    {
      && Linked(nodes) && Holds(nodes, vals) && |nodes| >= 2 && nodes[0] == head && nodes[|nodes| - 1] == tail
    }

    /** The middle pointer is at the middle element of n, or anywhere if there is none. */
    ghost predicate MidAt(n: nat)
      reads this
    {
      n == 0 || (Middle(n) + 1 < |nodes| && mid == nodes[Middle(n) + 1])
    }

    ghost predicate Valid()
      reads this, nodes
    {
      Shape() && numels == |vals| && MidAt(numels)
    }

    constructor ()
      ensures Valid() && vals == [] && !iterActive && fresh(nodes)
    {
      var h := new Node(0);
      var t := new Node(0);
      head, tail := h, t;
      mid, numels, iterActive, nodes, vals := null, 0, false, [h, t], [];
      new;
      head.next := tail;
      tail.prev := head;
    }

    /**
     The node at a position; -1 and numels stand for the sentinels. It is reached from whichever of the head,
     the middle and the tail is nearest, going by the quarter of the list that the position is in.
     */
    method FindPos(posstart: int) returns (ptr: Node?)
      requires Valid()
      ensures ptr == if posstart < -1 || posstart > numels then null else nodes[posstart + 1]
    {
      if posstart < -1 || posstart > numels {
        return null;
      }
      if numels != 0 && 4 * (posstart + 1) <= numels {
        ptr := Forward(head, -1, posstart);
      } else if numels != 0 && 2 * (posstart + 1) < numels {
        ptr := Backward(mid, (numels - 1) / 2, posstart);
      } else if numels != 0 && 4 * (posstart + 1) <= 3 * numels {
        ptr := Forward(mid, (numels - 1) / 2, posstart);
      } else {
        ptr := Backward(tail, numels, posstart);
      }
    }

    method Forward(from: Node?, start: int, stop: int) returns (ptr: Node?)
      requires Shape() && -1 <= start < |nodes| - 1 && from == nodes[start + 1] && stop < |nodes| - 1
      ensures stop >= start ==> ptr == nodes[stop + 1]
      ensures stop < start ==> ptr == from
    {
      var i := start;
      ptr := from;
      while i < stop
        invariant start <= i && (stop >= start ==> i <= stop) && i < |nodes| - 1 && ptr == nodes[i + 1]
        invariant stop < start ==> i == start
      {
        assert After(nodes, i + 1) == nodes[i + 2];
        ptr := ptr.next;
        i := i + 1;
      }
    }

    method Backward(from: Node?, start: int, stop: int) returns (ptr: Node?)
      requires Shape() && -1 <= start < |nodes| - 1 && from == nodes[start + 1] && stop >= -1
      ensures stop <= start ==> ptr == nodes[stop + 1]
      ensures stop > start ==> ptr == from
    {
      var i := start;
      ptr := from;
      while i > stop
        invariant i <= start && (stop <= start ==> i >= stop) && -1 <= i && ptr == nodes[i + 1]
        invariant stop > start ==> i == start
      {
        assert Prior(nodes, i + 1) == nodes[i];
        ptr := ptr.prev;
        i := i - 1;
      }
    }

    /** Insert an element before the one at the position; 1 is success, -1 a position or a moment not allowed. */
    method InsertAt(data: int, pos: nat) returns (r: int)
      requires Valid()
      modifies this, nodes
      ensures Valid() && forall n :: n in nodes ==> n in old(nodes) || fresh(n)
      ensures iterActive == old(iterActive) && r == (if iterActive || pos > old(numels) then -1 else 1)
      ensures vals == if r == 1 then Insert(old(vals), pos, data) else old(vals)
      ensures r != 1 ==> nodes == old(nodes)
    {
      if iterActive || pos > numels {
        return -1;
      }
      var lent := new Node(data);
      var prec := FindPos(pos - 1);
      LinkIn(prec, lent, pos);
      numels := numels + 1;
      FixMidAfterInsert(lent, pos);
      r := 1;
    }

    /** After an insertion at pos the middle pointer moves by at most one node. */
    method FixMidAfterInsert(lent: Node, pos: nat)
      requires Shape() && numels == |vals| && pos < numels && lent == nodes[pos + 1]
      requires numels > 1 ==> mid == nodes[(if Middle(numels - 1) < pos then Middle(numels - 1)
               else Middle(numels - 1) + 1) + 1]
      modifies this`mid
      ensures Valid()
    {
      if numels == 1 {
        mid := lent;
      } else if numels % 2 == 1 {
        if pos >= (numels - 1) / 2 {
          assert After(nodes, Middle(numels)) == nodes[Middle(numels) + 1];
          mid := mid.next;
        }
      } else {
        if pos <= (numels - 1) / 2 {
          assert Prior(nodes, Middle(numels) + 2) == nodes[Middle(numels) + 1];
          mid := mid.prev;
        }
      }
    }

    /** Link a new node in after the one at pos - 1. */
    method LinkIn(prec: Node, lent: Node, ghost pos: nat)
      requires Shape() && pos <= |vals| && prec == nodes[pos] && lent !in nodes
      modifies this`nodes, this`vals, nodes, lent`next, lent`prev
      ensures Shape() && nodes == Insert(old(nodes), pos + 1, lent) && vals == Insert(old(vals), pos, lent.data)
    {
      ghost var ns := nodes;
      assert After(nodes, pos) == nodes[pos + 1];
      var succ := prec.next;
      prec.next := lent;
      lent.prev := prec;
      lent.next := succ;
      succ.prev := lent;
      nodes := Insert(ns, pos + 1, lent);
      vals := Insert(vals, pos, lent.data);
      forall i {:trigger After(nodes, i)} | 0 <= i < |nodes|
        ensures nodes[i].next == After(nodes, i)
      {
        if i <= pos { assert ns[i].next == After(ns, i) || i == pos; }
            else if i > pos + 1 { assert After(ns, i - 1) == old(ns[i - 1].next); }
      }
      forall i {:trigger Prior(nodes, i)} | 0 <= i < |nodes|
        ensures nodes[i].prev == Prior(nodes, i)
      {
        if i <= pos { assert old(ns[i].prev) == Prior(ns, i); }
            else if i > pos + 1 { assert Prior(ns, i - 1) == old(ns[i - 1].prev); }
      }
    }

    /** Take out the element at the position, if there is one and no iteration is going on. */
    method ExtractAt(pos: nat) returns (data: Option<int>)
      requires Valid()
      modifies this, nodes
      ensures Valid() && iterActive == old(iterActive) && forall n :: n in nodes ==> n in old(nodes)
      ensures data == if iterActive || pos >= old(numels) then None else Some(old(vals)[pos])
      ensures vals == if data == None then old(vals) else Remove(old(vals), pos)
    {
      if iterActive || pos >= numels {
        return None;
      }
      var tmp := FindPos(pos);
      data := Some(tmp.data);
      Unlink(tmp, pos);
    }

    /** Take the node of element pos out and keep the middle pointer in the middle. */
    method Unlink(tmp: Node, pos: nat)
      requires Valid() && pos < numels && tmp == nodes[pos + 1]
      modifies this`mid, this`numels, this`nodes, this`vals, nodes
      ensures Valid() && vals == Remove(old(vals), pos) && forall n :: n in nodes ==> n in old(nodes)
    {
      FixMidBeforeDrop(pos);
      DropElem(tmp, pos);
      numels := numels - 1;
      MidAfterDrop(old(nodes), nodes, pos, numels);
    }

    /** The node that will be the middle one after the element at pos is gone. */
    method FixMidBeforeDrop(pos: nat)
      requires Valid() && pos < numels
      modifies this`mid
      ensures Shape() && numels == |vals|
      ensures var m := Middle(numels - 1); mid == if numels == 1 then head
              else nodes[(if m < pos then m else m + 1) + 1]
    {
      if numels % 2 == 1 {
        if pos >= numels / 2 {
          assert Prior(nodes, Middle(numels) + 1) == nodes[Middle(numels)];
          mid := mid.prev;
        }
      } else {
        if pos < numels / 2 {
          assert After(nodes, Middle(numels) + 1) == nodes[Middle(numels) + 2];
          mid := mid.next;
        }
      }
    }

    /** Unlink the node at pos + 1. */
    method DropElem(tmp: Node, ghost pos: nat)
      requires Shape() && pos < |vals| && tmp == nodes[pos + 1]
      modifies this`nodes, this`vals, nodes
      ensures Shape() && nodes == Remove(old(nodes), pos + 1) && vals == Remove(old(vals), pos)
    {
      ghost var ns := nodes;
      assert After(ns, pos + 1) == ns[pos + 2] && Prior(ns, pos + 1) == ns[pos];
      tmp.prev.next := tmp.next;
      tmp.next.prev := tmp.prev;
      nodes := Remove(ns, pos + 1);
      vals := Remove(vals, pos);
      forall i {:trigger After(nodes, i)} | 0 <= i < |nodes|
        ensures nodes[i].next == After(nodes, i)
      {
        if i < pos {
          assert After(ns, i) == ns[i + 1];
        } else if i > pos {
          assert After(ns, i + 1) == old(ns[i + 1].next);
        }
      }
      forall i {:trigger Prior(nodes, i)} | 0 <= i < |nodes|
        ensures nodes[i].prev == Prior(nodes, i)
      {
        if i <= pos {
          assert Prior(ns, i) == old(ns[i].prev);
        } else if i > pos + 1 {
          assert Prior(ns, i + 1) == old(ns[i + 1].prev);
        }
      }
    }

    // ------------------------------------------------------ simple operations

    method Append(data: int) returns (r: int)
      requires Valid()
      modifies this, nodes
      ensures Valid() && forall n :: n in nodes ==> n in old(nodes) || fresh(n)
      ensures r == (if old(iterActive) then -1 else 1) && vals == if r == 1 then old(vals) + [data] else old(vals)
    {
      r := InsertAt(data, numels);
    }

    method Prepend(data: int) returns (r: int)
      requires Valid()
      modifies this, nodes
      ensures Valid() && forall n :: n in nodes ==> n in old(nodes) || fresh(n)
      ensures r == (if old(iterActive) then -1 else 1) && vals == if r == 1 then [data] + old(vals) else old(vals)
    {
      r := InsertAt(data, 0);
    }

    /** Take the first element out. */
    method Fetch() returns (data: Option<int>)
      requires Valid()
      modifies this, nodes
      ensures Valid() && forall n :: n in nodes ==> n in old(nodes)
      ensures data == if old(iterActive) || old(vals) == [] then None else Some(old(vals)[0])
      ensures vals == if data == None then old(vals) else old(vals)[1..]
    {
      data := ExtractAt(0);
    }

    // ----------------------------------------------------------- concatenation

    /** Hang the tail sentinel behind a chain of nodes that starts at the head sentinel. */
    method Close(el: Node, ghost ms: seq<Node>, ghost vs: seq<int>)
      requires OpenChain(ms, vs) && ms[0] == head && el == ms[|ms| - 1] && tail !in ms && tail.next == null
      modifies this`nodes, this`vals, el`next, tail`prev
      ensures Shape() && nodes == ms + [tail] && vals == vs
    {
      el.next := tail;
      tail.prev := el;
      nodes, vals := ms + [tail], vs;
      forall i {:trigger After(nodes, i)} | 0 <= i < |nodes|
        ensures nodes[i].next == After(nodes, i)
      {
        if i < |ms| - 1 { assert After(ms, i) == old(ms[i].next); }
      }
      forall i {:trigger Prior(nodes, i)} | 0 <= i < |nodes|
        ensures nodes[i].prev == Prior(nodes, i)
      {
        if i < |ms| { assert Prior(ms, i) == old(ms[i].prev); }
      }
    }

    /** The middle pointer, left at the last element of the first list, moves to the middle of both. */
    method FixMidAfterConcat(n1: nat, n2: nat)
      requires Shape() && |vals| == n1 + n2 > 0 && numels == n1 + n2 && mid == nodes[n1]
      modifies this`mid
      ensures Valid()
    {
      var err := n2 - n1;
      if (err + 1) / 2 > 0 {
        err := (err + 1) / 2;
        mid := Forward(mid, n1 - 1, n1 - 1 + err);
      } else if err <= -2 {
        err := -err / 2;
        mid := Backward(mid, n1 - 1, n1 - 1 - err);
      }
    }

    /** Close the chain of both lists and move the middle pointer from the end of the first one to the middle. */
    method Complete(el: Node, n1: nat, n2: nat, ghost ms: seq<Node>, ghost vs: seq<int>)
      requires OpenChain(ms, vs) && ms[0] == head && el == ms[|ms| - 1] && tail !in ms && tail.next == null
      requires |vs| == n1 + n2 > 0 && numels == n1 + n2 && mid == ms[n1]
      modifies this`nodes, this`vals, this`mid, el`next, tail`prev
      ensures Valid() && vals == vs
    {
      Close(el, ms, vs);
      FixMidAfterConcat(n1, n2);
    }
  }

  /** A chain of nodes whose last link is not set yet: a head sentinel and the elements. */
  ghost predicate OpenChain(ns: seq<Node>, vs: seq<int>)
    reads ns
  {
    && |ns| == |vs| + 1 && Distinct(ns)
    && (forall i :: 0 <= i < |vs| ==> ns[i + 1].data == vs[i])
    && (forall i {:trigger After(ns, i)} :: 0 <= i < |ns| - 1 ==> ns[i].next == After(ns, i))
    && (forall i {:trigger Prior(ns, i)} :: 0 <= i < |ns| ==> ns[i].prev == Prior(ns, i))
  }

  /** A new node behind the last one. */
  method AppendNode(el: Node, data: int, ghost ns: seq<Node>, ghost vs: seq<int>) returns (n: Node)
    requires OpenChain(ns, vs) && el == ns[|ns| - 1]
    modifies el`next
    ensures fresh(n) && OpenChain(ns + [n], vs + [data])
  {
    n := new Node(data);
    el.next := n;
    n.prev := el;
    ghost var ms := ns + [n];
    forall i {:trigger After(ms, i)} | 0 <= i < |ms| - 1
      ensures ms[i].next == After(ms, i)
    {
      if i < |ns| - 1 { assert After(ns, i) == old(ns[i].next); }
    }
    forall i {:trigger Prior(ms, i)} | 0 <= i < |ms|
      ensures ms[i].prev == Prior(ms, i)
    {
      if i < |ns| { assert Prior(ns, i) == old(ns[i].prev); }
    }
  }

  /** Copies of all elements of a list behind the chain. */
  method CopyAll(l: List, from: Node, ghost ns: seq<Node>, ghost vs: seq<int>) returns (el: Node, ghost ms: seq<Node>)
    requires l.Valid() && OpenChain(ns, vs) && from == ns[|ns| - 1] && forall n :: n in ns ==> n !in l.nodes
    modifies from`next
    ensures l.Valid() && OpenChain(ms, vs + l.vals) && el == ms[|ms| - 1] && ns <= ms
    ensures (el == from || fresh(el)) && forall n :: n in ms ==> n in ns || fresh(n)
  {
    el, ms := from, ns;
    assert After(l.nodes, 0) == l.nodes[1];
    var srcel := l.head.next;
    ghost var k := 0;
    assert vs + l.vals[..0] == vs;
    while srcel != l.tail
      invariant k <= |l.vals| && srcel == l.nodes[k + 1] && l.Valid()
      invariant OpenChain(ms, vs + l.vals[..k]) && el == ms[|ms| - 1] && ns <= ms
      invariant forall n :: n in ms ==> n in ns || fresh(n)
      invariant (el == from || fresh(el)) && el !in l.nodes
      decreases |l.vals| - k
    {
      assert l.vals[..k + 1] == l.vals[..k] + [l.vals[k]];
      ConcatAssoc(vs, l.vals[..k], [l.vals[k]]);
      el := AppendNode(el, srcel.data, ms, vs + l.vals[..k]);
      ms := ms + [el];
      assert After(l.nodes, k + 1) == l.nodes[k + 2];
      srcel := srcel.next;
      k := k + 1;
    }
    assert k == |l.vals|;
    assert l.vals[..k] == l.vals;
  }

  /** Copies of the elements of both lists behind a head sentinel; m is the last one of the first list. */
  method CopyBoth(l1: List, l2: List, head: Node) returns (m: Node, el: Node, ghost ms: seq<Node>)
    requires l1.Valid() && l2.Valid() && head !in l1.nodes && head !in l2.nodes && head.prev == null
    modifies head`next
    ensures l1.Valid() && l2.Valid() && OpenChain(ms, l1.vals + l2.vals) && ms[0] == head
    ensures m == ms[|l1.vals|] && el == ms[|ms| - 1] && (el == head || fresh(el)) && forall n :: n in ms ==>
            n == head || fresh(n)
  {
    el, ms := CopyAll(l1, head, [head], []);
    assert [] + l1.vals == l1.vals;
    m := el;
    ghost var ns := ms;
    el, ms := CopyAll(l2, el, ms, l1.vals);
    assert ns[|l1.vals|] == ms[|l1.vals|] && ns[0] == ms[0];
  }

  /** Copy the elements of both lists into an empty list. */
  method FillBoth(l1: List, l2: List, dest: List)
    requires l1.Valid() && l2.Valid() && dest != l1 && dest != l2 && dest.head != dest.tail
    requires dest.head !in l1.nodes && dest.head !in l2.nodes && dest.tail !in l1.nodes && dest.tail !in l2.nodes
    requires dest.head.prev == null && dest.tail.next == null && dest.numels == l1.numels + l2.numels > 0
    modifies dest, dest.head, dest.tail
    ensures dest.Valid() && dest.vals == l1.vals + l2.vals && l1.Valid() && l2.Valid()
  {
    var el: Node;
    ghost var ms;
    dest.mid, el, ms := CopyBoth(l1, l2, dest.head);
    dest.Complete(el, l1.numels, l2.numels, ms, l1.vals + l2.vals);
  }

  /** A new list of the elements of both lists, which stay as they are. */
  method Concat(l1: List, l2: List) returns (dest: List)
    requires l1.Valid() && l2.Valid()
    ensures fresh(dest) && dest.Valid() && dest.vals == l1.vals + l2.vals && l1.Valid() && l2.Valid()
  {
    dest := new List();
    dest.numels := l1.numels + l2.numels;
    if dest.numels == 0 {
      return;
    }
    assert dest.head == dest.nodes[0] && dest.tail == dest.nodes[|dest.nodes| - 1];
    assert Prior(dest.nodes, 0) == null && After(dest.nodes, |dest.nodes| - 1) == null;
    FillBoth(l1, l2, dest);
  }


  lemma {:induction false} MidAfterDrop(ns: seq<Node>, ms: seq<Node>, pos: nat, n: nat)
    requires pos <= n && |ns| == n + 3 && ms == Remove(ns, pos + 1)
    ensures n > 0 ==> ms[Middle(n) + 1] == ns[(if Middle(n) < pos then Middle(n) else Middle(n) + 1) + 1]
  {
  }
}
