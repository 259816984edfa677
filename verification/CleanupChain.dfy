/**
 The cleanup list of an iterator: a singly linked chain whose first node is a member of the
 iterator itself. Later registrations are spliced in directly behind that head.
 */
module CleanupChain {

  /** A registered function pointer with its two arguments. Pointers are numbers, null is 0. */
  datatype Cleanup = Cleanup(func: nat, arg1: nat, arg2: nat)

  class CleanupNode {
    var func: nat
    var arg1: nat
    var arg2: nat
    var next: CleanupNode?

    /** `new CleanupNode()` zeroes every field. */
    constructor ()
      ensures func == 0 && arg1 == 0 && arg2 == 0 && next == null
    {
      func, arg1, arg2, next := 0, 0, 0, null;
    }

    predicate IsEmpty()
      reads this
    {
      func == 0
    }

    function Triple(): Cleanup
      reads this
    {
      Cleanup(func, arg1, arg2)
    }
  }

  function Reverse<T>(s: seq<T>): (r: seq<T>)
    ensures |r| == |s|
  {
    if s == [] then [] else Reverse(s[1..]) + [s[0]]
  }

  /** The order in which the chain holds `n` registrations: the first, then n-th down to second. */
  function ChainOrder<T>(registered: seq<T>): (r: seq<T>)
    ensures |r| == |registered|
  {
    if registered == [] then [] else [registered[0]] + Reverse(registered[1..])
  }

  class Iterator {
    const head: CleanupNode

    /** The nodes in the order of their `next` links. */
    ghost var chain: seq<CleanupNode>
    /** Every registration so far, oldest first. */
    ghost var registered: seq<Cleanup>

    ghost predicate Valid()
      reads this, head, chain
    {
      && Linked()
      && (head.IsEmpty() <==> registered == [])
      && if registered == [] then |chain| == 1 else Holds(ChainOrder(registered))
    }

    /** The links spell out `chain`, which starts at the head, does not come back to it, and ends. */
    ghost predicate Linked()
      reads this, head, chain
    {
      && chain != [] && chain[0] == head
      && (forall i :: 1 <= i < |chain| ==> chain[i] != head)
      && (forall i {:trigger chain[i].next} :: 0 <= i < |chain| - 1 ==> chain[i].next == chain[i + 1])
      && chain[|chain| - 1].next == null
    }

    /** Node by node, the chain holds exactly these triples. */
    ghost predicate Holds(triples: seq<Cleanup>)
      reads this, chain
    {
      && |chain| == |triples|
      && forall i :: 0 <= i < |chain| ==> chain[i].Triple() == triples[i]
    }

    constructor ()
      ensures Valid() && registered == [] && fresh(head)
    {
      head := new CleanupNode();
      registered := [];
      new;
      chain := [head];
    }

    /** Nothing but the head changes, and of a head in use only the link. */
    method RegisterCleanup(func: nat, arg1: nat, arg2: nat)
      requires Valid() && func != 0
      modifies head, `chain, `registered
      ensures Valid()
      ensures registered == old(registered) + [Cleanup(func, arg1, arg2)]
      ensures old(registered) != [] ==> head.Triple() == old(head.Triple())
      ensures old(registered) == [] ==> chain == old(chain)
      ensures old(registered) != [] ==>
                |chain| == |old(chain)| + 1 && fresh(chain[1]) && chain[0] == head && chain[2..] == old(chain)[1..]
    {
      var node: CleanupNode;
      ghost var before, was, c := chain, registered, Cleanup(func, arg1, arg2);
      if head.IsEmpty() {
        node := head;
      } else {
        node := new CleanupNode();
        node.next := head.next;
        head.next := node;
        chain := [head, node] + chain[1..];
      }
      node.func := func;
      node.arg1 := arg1;
      node.arg2 := arg2;
      registered := registered + [c];
      if was == [] {
        FirstRegistered(this, c);
      } else {
        Spliced(this, node, before, was, c);
      }
    }

    /** The node reached by following `next` `k` times from the head. */
    ghost function Follow(k: nat): (n: CleanupNode?)
      requires Linked()
      reads this, head, chain
      ensures n == if k < |chain| then chain[k] else null
    {
      if k == 0 then head
      else var before := Follow(k - 1); if before == null then null else before.next
    }
  }

  /** No node occurs twice in the chain: following `next` never comes back. */
  lemma {:induction false} ChainAcyclic(it: Iterator, i: nat, j: nat)
    requires it.Linked() && i < j < |it.chain|
    ensures it.chain[i] != it.chain[j]
    decreases |it.chain| - j
  {
    assert it.chain[i].next == it.chain[i + 1];
    if j + 1 < |it.chain| {
      assert it.chain[j].next == it.chain[j + 1];
      ChainAcyclic(it, i + 1, j + 1);
    }
  }

  lemma {:induction false} FirstRegistered(it: Iterator, c: Cleanup)
    requires it.chain == [it.head] && it.head.next == null && it.head.Triple() == c && c.func != 0
    requires it.registered == [c]
    ensures it.Valid()
  {
    OneMore([], c);
  }

  /** A node linked in behind the head leaves the order of the others as it was. */
  lemma {:induction false} Spliced(it: Iterator, node: CleanupNode, before: seq<CleanupNode>, was: seq<Cleanup>,
                                   c: Cleanup)
    requires was != [] && it.registered == was + [c] && |before| == |was| && !it.head.IsEmpty()
    requires before[0] == it.head && it.chain == [it.head, node] + before[1..]
    requires it.head != node && (forall i :: 1 <= i < |before| ==> before[i] != it.head)
    requires it.head.next == node && node.next == if |before| == 1 then null else before[1]
    requires forall i {:trigger before[i].next} :: 1 <= i < |before| ==>
               before[i].next == if i + 1 < |before| then before[i + 1] else null
    requires node.Triple() == c && forall i :: 0 <= i < |before| ==> before[i].Triple() == ChainOrder(was)[i]
    ensures it.Valid()
  {
    var order := ChainOrder(was);
    assert forall i :: 2 <= i < |it.chain| ==> it.chain[i] == before[i - 1];
    OneMore(was, c);
    assert it.Holds([order[0], c] + order[1..]);
  }

  /** A new registration lands in second place. */
  lemma {:induction false} OneMore<T>(registered: seq<T>, c: T)
    ensures ChainOrder(registered + [c])
         == if registered == [] then [c] else [registered[0], c] + ChainOrder(registered)[1..]
  {
    if registered != [] {
      assert (registered + [c])[1..] == registered[1..] + [c];
      ReverseSnoc(registered[1..], c);
    }
  }

  lemma {:induction false} ReverseSnoc<T>(s: seq<T>, c: T)
    ensures Reverse(s + [c]) == [c] + Reverse(s)
  {
    if s == [] {
      assert s + [c] == [c];
    } else {
      assert (s + [c])[1..] == s[1..] + [c];
      ReverseSnoc(s[1..], c);
    }
  }

  lemma {:induction false} ReverseAt<T>(s: seq<T>, i: nat)
    requires i < |s|
    ensures Reverse(s)[i] == s[|s| - 1 - i]
  {
    if i < |s| - 1 {
      ReverseAt(s[1..], i);
    }
  }

  /** First, n-th, (n-1)-th, ..., second; every registration exactly once. */
  lemma {:induction false} ChainOrderAt<T>(registered: seq<T>, i: nat)
    requires i < |registered|
    ensures ChainOrder(registered)[i] == registered[if i == 0 then 0 else |registered| - i]
  {
    if i > 0 {
      ReverseAt(registered[1..], i - 1);
    }
  }

  lemma {:induction false} ChainOrderPermutes<T>(registered: seq<T>)
    ensures multiset(ChainOrder(registered)) == multiset(registered)
  {
    if registered != [] {
      ReversePermutes(registered[1..]);
      assert registered == [registered[0]] + registered[1..];
    }
  }

  lemma {:induction false} ReversePermutes<T>(s: seq<T>)
    ensures multiset(Reverse(s)) == multiset(s)
  {
    if s != [] {
      ReversePermutes(s[1..]);
      assert s == [s[0]] + s[1..];
    }
  }
}
