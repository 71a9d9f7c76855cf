/**
 The circular doubly linked list with a sentinel (random_iterator/list.h), its
 iterator, and the reverse iterator over it (random_iterator/reserve_iterator.h).
 */
module LinkedList {

  class Node<T> {
    var data: T
    var next: Node?<T>
    var prev: Node?<T>

    constructor (val: T)
      ensures data == val && next == null && prev == null
    {
      data, next, prev := val, null, null;
    }
  }

  /** The positions next to i in a ring of n nodes. */
  function After(i: nat, n: nat): nat
    requires i < n
  {
    if i + 1 == n then 0 else i + 1
  }

  function Before(i: nat, n: nat): nat
    requires i < n
  {
    if i == 0 then n - 1 else i - 1
  }

  ghost predicate Distinct<T>(ring: seq<Node<T>>) {
    forall i, j :: 0 <= i < j < |ring| ==> ring[i] != ring[j]
  }

  /** The next links, but for the one at position `but`, lead around the ring. */
  ghost predicate NextsBut<T>(ring: seq<Node<T>>, but: int)
    reads ring
  {
    forall i {:trigger ring[i].next} :: 0 <= i < |ring| && i != but ==> ring[i].next == ring[After(i, |ring|)]
  }

  /** The prev links, but for the one at position `but`, lead back around the ring. */
  ghost predicate PrevsBut<T>(ring: seq<Node<T>>, but: int)
    reads ring
  {
    forall i {:trigger ring[i].prev} :: 0 <= i < |ring| && i != but ==> ring[i].prev == ring[Before(i, |ring|)]
  }

  /** The nodes are different, and the next links and the prev links lead once
      around them, in opposite directions. */
  ghost predicate IsRing<T>(ring: seq<Node<T>>)
    reads ring
  {
    Distinct(ring) && NextsBut(ring, -1) && PrevsBut(ring, -1)
  }

  /** Linking a new node in behind position at - 1. */
  lemma RingInsert<T>(ring: seq<Node<T>>, at: nat, node: Node<T>)
    requires Distinct(ring) && node !in ring && 1 <= at <= |ring|
    requires var after := After(at - 1, |ring|);
      && NextsBut(ring, at - 1) && PrevsBut(ring, after)
      && ring[at - 1].next == node && ring[after].prev == node
      && node.prev == ring[at - 1] && node.next == ring[after]
    ensures IsRing(Insert(ring, at, node))
  {
    var r := Insert(ring, at, node);
    InsertedAt(ring, at, node);
    RingInsertNexts(ring, at, node, r);
    RingInsertPrevs(ring, at, node, r);
  }

  lemma InsertedAt<T>(ring: seq<Node<T>>, at: nat, node: Node<T>)
    requires Distinct(ring) && node !in ring && 1 <= at <= |ring|
    ensures Distinct(Insert(ring, at, node)) && Shifted(ring, at, node, Insert(ring, at, node))
  {
  }

  /** r has the node at position `at`, and the others around it. */
  ghost predicate Shifted<T>(ring: seq<Node<T>>, at: nat, node: Node<T>, r: seq<Node<T>>) {
    && 1 <= at <= |ring| && |r| == |ring| + 1 && r[at] == node
    && (forall i :: 0 <= i < at ==> r[i] == ring[i])
    && (forall i :: at < i < |r| ==> r[i] == ring[i - 1])
  }

  lemma RingInsertNexts<T>(ring: seq<Node<T>>, at: nat, node: Node<T>, r: seq<Node<T>>)
    requires Shifted(ring, at, node, r) && NextsBut(ring, at - 1)
    requires ring[at - 1].next == node && node.next == ring[After(at - 1, |ring|)]
    ensures NextsBut(r, -1)
  {
    forall i | 0 <= i < |r|
      ensures r[i].next == r[After(i, |r|)]
    {
      InsertedNext(ring, at, node, r, i);
    }
  }

  lemma InsertedNext<T>(ring: seq<Node<T>>, at: nat, node: Node<T>, r: seq<Node<T>>, i: nat)
    requires Shifted(ring, at, node, r) && NextsBut(ring, at - 1) && i < |r|
    requires ring[at - 1].next == node && node.next == ring[After(at - 1, |ring|)]
    ensures r[i].next == r[After(i, |r|)]
  {
    if i < at - 1 {
      assert r[i] == ring[i] && ring[i].next == ring[i + 1] == r[i + 1];
    } else if i == at - 1 {
      assert r[i] == ring[i] && r[i + 1] == node;
    } else if i == at {
      assert r[Following(at, |ring|)] == ring[After(at - 1, |ring|)];
    } else {
      assert r[i] == ring[i - 1] && ring[i - 1].next == ring[After(i - 1, |ring|)];
    }
  }

  /** Where the node behind a new one at position at is. */
  function Following(at: nat, n: nat): nat { if at == n then 0 else at + 1 }

  lemma RingInsertPrevs<T>(ring: seq<Node<T>>, at: nat, node: Node<T>, r: seq<Node<T>>)
    requires Shifted(ring, at, node, r) && PrevsBut(ring, After(at - 1, |ring|))
    requires ring[After(at - 1, |ring|)].prev == node && node.prev == ring[at - 1]
    ensures PrevsBut(r, -1)
  {
    forall i | 0 <= i < |r|
      ensures r[i].prev == r[Before(i, |r|)]
    {
      InsertedPrev(ring, at, node, r, i);
    }
  }

  lemma InsertedPrev<T>(ring: seq<Node<T>>, at: nat, node: Node<T>, r: seq<Node<T>>, i: nat)
    requires Shifted(ring, at, node, r) && PrevsBut(ring, After(at - 1, |ring|)) && i < |r|
    requires ring[After(at - 1, |ring|)].prev == node && node.prev == ring[at - 1]
    ensures r[i].prev == r[Before(i, |r|)]
  {
    if i == at {
      assert r[i] == node && r[i - 1] == ring[at - 1];
    } else if i == Following(at, |ring|) {
      assert r[i] == ring[After(at - 1, |ring|)] && r[Before(i, |r|)] == node;
    } else if i < at {
      assert r[i] == ring[i] && ring[i].prev == ring[Before(i, |ring|)];
    } else {
      assert r[i] == ring[i - 1] && ring[i - 1].prev == ring[i - 2] == r[i - 1];
    }
  }

  /** Linking the neighbours of position k past it. */
  lemma RingRemove<T>(ring: seq<Node<T>>, k: nat)
    requires Distinct(ring) && 0 < k < |ring|
    requires var after := After(k, |ring|);
      && (forall i {:trigger ring[i].next} :: 0 <= i < |ring| && i != k && i != k - 1 ==>
           ring[i].next == ring[After(i, |ring|)])
      && (forall i {:trigger ring[i].prev} :: 0 <= i < |ring| && i != k && i != after ==>
           ring[i].prev == ring[Before(i, |ring|)])
      && ring[k - 1].next == ring[after] && ring[after].prev == ring[k - 1]
    ensures IsRing(Remove(ring, k))
  {
    var r := Remove(ring, k);
    assert forall i :: 0 <= i < k ==> r[i] == ring[i];
    assert forall i :: k <= i < |r| ==> r[i] == ring[i + 1];
    forall i | 0 <= i < |r|
      ensures r[i].next == r[After(i, |r|)]
    {
      if i < k - 1 {
        assert ring[i].next == ring[After(i, |ring|)];
      } else if i >= k {
        assert ring[i + 1].next == ring[After(i + 1, |ring|)];
      }
    }
    forall i | 0 <= i < |r|
      ensures r[i].prev == r[Before(i, |r|)]
    {
      if i < k {
        assert i != After(k, |ring|) ==> ring[i].prev == ring[Before(i, |ring|)];
      } else if i > k {
        assert ring[i + 1].prev == ring[Before(i + 1, |ring|)];
      }
    }
  }

  ghost function Datas<T>(ring: seq<Node<T>>): (s: seq<T>)
    reads ring`data
    ensures |s| == |ring| && forall i :: 0 <= i < |ring| ==> s[i] == ring[i].data
  {
    if ring == [] then [] else [ring[0].data] + Datas(ring[1..])
  }

  lemma DatasInsert<T>(ring: seq<Node<T>>, at: nat, node: Node<T>)
    requires 1 <= at <= |ring|
    ensures Datas(Insert(ring, at, node)[1..]) == Insert(Datas(ring[1..]), at - 1, node.data)
  {
  }

  lemma DatasRemove<T>(ring: seq<Node<T>>, k: nat)
    requires 0 < k < |ring|
    ensures Datas(Remove(ring, k)[1..]) == Remove(Datas(ring[1..]), k - 1)
  {
  }

  function Insert<A>(s: seq<A>, k: nat, x: A): seq<A>
    requires k <= |s|
  {
    s[..k] + [x] + s[k..]
  }

  function Remove<A>(s: seq<A>, k: nat): seq<A>
    requires k < |s|
  {
    s[..k] + s[k + 1..]
  }

  function Reverse<A>(s: seq<A>): seq<A> {
    if s == [] then [] else Reverse(s[1..]) + [s[0]]
  }

  /** The links of insert: node comes in front of the node at position k. */
  method LinkIn<T>(pos: Node<T>, node: Node<T>, ghost ring: seq<Node<T>>, ghost k: nat)
    requires IsRing(ring) && node !in ring && k < |ring| && ring[k] == pos
    modifies ring, node
    ensures IsRing(Insert(ring, if k == 0 then |ring| else k, node))
    ensures forall n :: n in ring ==> n.data == old(n.data)
    ensures node.data == old(node.data)
  {
    ghost var at := if k == 0 then |ring| else k;
    assert ring[k].prev == ring[Before(k, |ring|)];
    var prev := pos.prev;
    assert prev == ring[at - 1] && pos == ring[After(at - 1, |ring|)];
    prev.next := node;
    node.prev := prev;
    node.next := pos;
    pos.prev := node;
    RingInsert(ring, at, node);
  }

  /** The links of erase: the neighbours of the node at position k. */
  method LinkOut<T>(pos: Node<T>, ghost ring: seq<Node<T>>, ghost k: nat) returns (next: Node<T>)
    requires IsRing(ring) && 0 < k < |ring| && ring[k] == pos
    modifies ring
    ensures IsRing(Remove(ring, k)) && next == ring[After(k, |ring|)]
    ensures forall n :: n in ring ==> n.data == old(n.data)
  {
    assert ring[k].prev == ring[k - 1] && ring[k].next == ring[After(k, |ring|)];
    var prev := pos.prev;
    next := pos.next;
    prev.next := next;
    next.prev := prev;
    RingRemove(ring, k);
  }

  lemma TakeNone<T>(start: seq<T>, all: seq<T>)
    ensures start + [] == start && all[..0] == []
  {
  }

  lemma TakeAll<T>(taken: seq<T>, all: seq<T>, n: nat)
    requires n == |all| && taken == all[..n]
    ensures taken == all
  {
  }

  lemma TakeMore<A>(front: seq<A>, s: seq<A>, i: nat)
    requires 1 <= i <= |s|
    ensures front + s[..i - 1] + [s[i - 1]] == front + s[..i]
  {
  }

  ghost predicate Disjoint<T>(r: seq<Node<T>>, s: seq<Node<T>>) {
    forall i :: 0 <= i < |s| ==> s[i] !in r
  }

  class List<T(0)> {
    var head: Node<T>
    ghost var ring: seq<Node<T>>  // the sentinel and then the elements' nodes

    ghost predicate Valid()
      reads this, ring
    {
      ring != [] && ring[0] == head && IsRing(ring)
    }

    /** The elements, in order. */
    ghost function Model(): seq<T>
      reads this, ring
      requires ring != []
    {
      Datas(ring[1..])
    }

    constructor ()
      ensures Valid() && Model() == [] && fresh(ring)
    {
      var t: T := *;
      head := new Node(t);
      new;
      Empty();
    }

    /** empty(): the sentinel is linked to itself. */
    method Empty()
      modifies this`ring, head
      ensures Valid() && Model() == [] && ring == [head]
    {
      head.next := head;
      head.prev := head;
      ring := [head];
    }

    /** begin() */
    function Begin(): Node<T>
      reads this, ring
      requires Valid()
      ensures Begin() == ring[After(0, |ring|)]
    {
      assert ring[0].next == ring[After(0, |ring|)];
      head.next
    }

    /** insert: a new node in front of the node at position k of the ring, which for
        the sentinel means at the end. */
    method InsertBefore(pos: Node<T>, val: T, ghost k: nat) returns (node: Node<T>)
      requires Valid() && k < |ring| && ring[k] == pos
      modifies this`ring, ring
      ensures Valid() && fresh(node)
      ensures var at := if k == 0 then |old(ring)| else k;
        && ring == Insert(old(ring), at, node)
        && Model() == old(Model())[..at - 1] + [val] + old(Model())[at - 1..]
    {
      node := new Node(val);
      ghost var at := if k == 0 then |ring| else k;
      ghost var grown := Insert(ring, at, node);
      LinkIn(pos, node, ring, k);
      assert IsRing(grown);
      ring := grown;
      InsertedDatas(at, node);
    }

    /** erase: the node at position k, not the sentinel, leaves the ring; the result
        is the node behind it. */
    method Erase(pos: Node<T>, ghost k: nat) returns (next: Node<T>)
      requires Valid() && 0 < k < |ring| && ring[k] == pos
      modifies this`ring, ring
      ensures Valid()
      ensures ring == Remove(old(ring), k) && next == old(ring)[After(k, |old(ring)|)]
      ensures Model() == old(Model())[..k - 1] + old(Model())[k..]
    {
      next := LinkOut(pos, ring, k);
      assert Datas(Remove(ring, k)[1..]) == Remove(old(Model()), k - 1) by {
        SameDatas();
        DatasRemove(ring, k);
      }
      ring := Remove(ring, k);
    }

    twostate lemma InsertedDatas(at: nat, new node: Node<T>)
      requires 1 <= at <= |old(ring)| && ring == Insert(old(ring), at, node)
      requires forall n :: n in old(ring) ==> n.data == old(n.data)
      ensures ring != [] && ring[0] == old(ring)[0]
      ensures Model() == Insert(old(Model()), at - 1, node.data)
    {
      assert Datas(old(ring)[1..]) == old(Model());
      DatasInsert(old(ring), at, node);
    }

    /** The data in the ring are as they were. */
    twostate lemma SameDatas()
      requires ring == old(ring) && ring != []
      requires forall n :: n in ring ==> n.data == old(n.data)
      ensures Datas(ring[1..]) == old(Datas(ring[1..]))
    {
    }

    method PushBack(val: T)
      requires Valid()
      modifies this`ring, ring
      ensures Valid() && Model() == old(Model()) + [val]
      ensures forall i :: 0 <= i < |ring| ==> ring[i] in old(ring) || fresh(ring[i])
    {
      var node := InsertBefore(head, val, 0);
    }

    method PopBack()
      requires Valid() && Model() != []
      modifies this`ring, ring
      ensures Valid() && Model() == old(Model())[..|old(Model())| - 1]
    {
      assert ring[0].prev == ring[Before(0, |ring|)];
      var next := Erase(head.prev, |ring| - 1);
    }

    method PopFront()
      requires Valid() && Model() != []
      modifies this`ring, ring
      ensures Valid() && Model() == old(Model())[1..]
    {
      var next := Erase(Begin(), 1);
    }

    /** The copy constructor: the same elements in nodes of its own. */
    constructor Copy(l: List<T>)
      requires l.Valid()
      ensures Valid() && Model() == l.Model()
      ensures fresh(ring)
      ensures Disjoint(ring, l.ring)
    {
      var t: T := *;
      head := new Node(t);
      new;
      Empty();
      ghost var before := ring;
      AppendAll(l);
      assert [] + l.Model() == l.Model();
      forall i | 0 <= i < |ring| ensures fresh(ring[i]) {
        if ring[i] in before {
          assert ring[i] == before[0];
        }
      }
    }

    /** The loop of the copy constructor. */
    method AppendAll(l: List<T>)
      requires Valid() && l.Valid() && l != this && Disjoint(ring, l.ring)
      modifies this`ring, ring
      ensures Valid() && Model() == old(Model()) + old(l.Model())
      ensures forall i :: 0 <= i < |ring| ==> ring[i] in old(ring) || fresh(ring[i])
    {
      var it := new Iterator(l.Begin());
      ghost var i := 1;
      ghost var all, start, taken: seq<T> := l.Model(), Model(), [];
      TakeNone(start, all);
      ghost var n := |l.ring|;
      while it.node != l.head
        invariant fresh(it) && l.Valid() && l.Model() == all && n == |l.ring| == |all| + 1
        invariant 1 <= i <= n && it.node == if i == n then l.head else l.ring[i]
        invariant Valid() && Model() == start + taken && taken == all[..i - 1]
        invariant forall i :: 0 <= i < |ring| ==> ring[i] in old(ring) || fresh(ring[i])
        invariant Disjoint(ring, l.ring)
        decreases n - i
      {
        CopyElement(l, it, i);
        TakeMore(start, all, i);
        taken := all[..i];
        i := i + 1;
      }
      TakeAll(taken, all, i - 1);
    }

    /** One turn of that loop: the element at position i of l. */
    method CopyElement(l: List<T>, it: Iterator<T>, ghost i: nat)
      requires Valid() && l.Valid() && l != this && Disjoint(ring, l.ring)
      requires 1 <= i < |l.ring| && it.node == l.ring[i]
      modifies this`ring, ring, it
      ensures Valid() && l.Valid() && l.ring == old(l.ring) && l.Model() == old(l.Model()) && Disjoint(ring, l.ring)
      ensures Model() == old(Model()) + [l.Model()[i - 1]]
      ensures it.node == if i + 1 == |l.ring| then l.head else l.ring[i + 1]
      ensures forall i :: 0 <= i < |ring| ==> ring[i] in old(ring) || fresh(ring[i])
    {
      assert it.node.next == l.ring[After(i, |l.ring|)];
      assert l.Model()[i - 1] == it.node.data by {
        assert l.ring[1..][i - 1] == l.ring[i];
      }
      PushBack(it.Deref());
      it.Inc();
    }

    /** clear: erases from the front until the iterator is at the end. */
    method Clear()
      requires Valid()
      modifies this`ring, ring
      ensures Valid() && Model() == [] && ring == [head]
    {
      var it := Begin();
      while it != head
        invariant Valid() && it == ring[After(0, |ring|)] && head == old(head)
        invariant Within(ring, old(ring))
        decreases |ring|
      {
        WithinFrame(ring, old(ring));
        WithinRemove(ring, old(ring), 1);
        it := Erase(it, 1);
      }
    }
  }

  /** All nodes of r are among those of s. */
  ghost predicate Within<T>(r: seq<Node<T>>, s: seq<Node<T>>) {
    forall i :: 0 <= i < |r| ==> r[i] in s
  }

  lemma WithinFrame<T>(r: seq<Node<T>>, s: seq<Node<T>>)
    requires Within(r, s)
    ensures forall n :: n in r ==> n in s
  {
  }

  lemma WithinRemove<T>(r: seq<Node<T>>, s: seq<Node<T>>, k: nat)
    requires Within(r, s) && k < |r|
    ensures Within(Remove(r, k), s)
  {
  }

  // ----- iterators

  class Iterator<T> {
    var node: Node<T>

    constructor (node: Node<T>)
      ensures this.node == node
    {
      this.node := node;
    }

    function Deref(): T
      reads this, node
    {
      node.data
    }

    method Inc()
      requires node.next != null
      modifies this
      ensures node == old(node.next)
    {
      node := node.next;
    }

    method Dec()
      requires node.prev != null
      modifies this
      ensures node == old(node.prev)
    {
      node := node.prev;
    }
  }

  /** Stands between two elements and looks at the one in front. */
  class ReverseIterator<T> {
    const it: Iterator<T>

    constructor (node: Node<T>)
      ensures fresh(it) && it.node == node
    {
      it := new Iterator(node);
    }

    method Inc()
      requires it.node.prev != null
      modifies it
      ensures it.node == old(it.node.prev)
    {
      it.Dec();
    }

    method Deref() returns (x: T)
      requires it.node.prev != null
      ensures x == it.node.prev.data
    {
      var temp := new Iterator(it.node);
      temp.Dec();
      x := temp.Deref();
    }
  }

  /** From begin() to end(). */
  method Traverse<T(0)>(l: List<T>) returns (s: seq<T>)
    requires l.Valid()
    ensures s == l.Model()
  {
    s := [];
    var it := new Iterator(l.Begin());
    while it.node != l.head
      invariant fresh(it) && l.Valid() && |s| < |l.ring|
      invariant it.node == l.ring[After(|s|, |l.ring|)]
      invariant s == l.Model()[..|s|]
      decreases |l.ring| - |s|
    {
      assert it.node == l.ring[|s| + 1] && it.node.next == l.ring[After(|s| + 1, |l.ring|)];
      s := s + [it.Deref()];
      it.Inc();
    }
  }

  lemma {:induction false} ReverseSnoc<A>(s: seq<A>, x: A)
    ensures Reverse(s + [x]) == [x] + Reverse(s)
  {
    if s != [] {
      assert (s + [x])[0] == s[0] && (s + [x])[1..] == s[1..] + [x];
      ReverseSnoc(s[1..], x);
    }
  }

  /** With the reverse iterator, from end() to begin(): the reversed sequence. */
  method TraverseReverse<T(0)>(l: List<T>) returns (s: seq<T>)
    requires l.Valid()
    ensures s == Reverse(l.Model())
  {
    s := [];
    var it := new ReverseIterator(l.head);
    ghost var k := |l.ring|;  // the position looked at is k - 1
    while it.it.node != l.Begin()
      invariant fresh(it) && fresh(it.it) && l.Valid() && 1 <= k <= |l.ring|
      invariant it.it.node == if k == |l.ring| then l.head else l.ring[k]
      invariant s == Reverse(l.Model()[k - 1..])
      decreases k
    {
      assert it.it.node.prev == l.ring[k - 1];
      ghost var rest := l.Model()[k - 1..];
      var x := it.Deref();
      assert l.Model()[k - 2..] == [x] + rest;
      s := s + [x];
      it.Inc();
      k := k - 1;
    }
    assert l.Model()[0..] == l.Model();
  }

  /** What reversing means, position by position. */
  lemma {:induction false} ReverseAt<A>(s: seq<A>, i: nat)
    requires i < |s|
    ensures |Reverse(s)| == |s| && Reverse(s)[i] == s[|s| - 1 - i]
  {
    if |s| > 1 {
      ReverseAt(s[1..], if i < |s| - 1 then i else 0);
    }
  }
}
