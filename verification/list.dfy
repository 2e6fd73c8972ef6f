/** kern/list.c: a doubly linked list between two sentinels. */
module LinkedList {
  import opened Buffers

  /** struct list_node. */
  class Node<V(==)> {
    var next: Node?<V>
    var prev: Node?<V>
    const value: V

    /** list_node. */
    constructor (value: V)
      ensures this.value == value
    {
      this.value := value;
      this.next, this.prev := null, null;
    }
  }

  ghost predicate Distinct<T>(s: seq<T>) {
    forall i, j :: 0 <= i < j < |s| ==> s[i] != s[j]
  }

  /** The k-th and the next node of the spine point at each other. */
  ghost predicate LinkAt<V>(spine: seq<Node<V>>, k: nat)
    requires k + 1 < |spine|
    reads spine[k], spine[k + 1]
  {
    spine[k].next == spine[k + 1] && spine[k + 1].prev == spine[k]
  }

  /** What is between the first and the last node. */
  function Inner<V>(spine: seq<Node<V>>): (s: seq<Node<V>>)
    requires |spine| >= 2
    ensures |s| == |spine| - 2 && forall i :: 0 <= i < |s| ==> s[i] == spine[i + 1]
  {
    spine[1..|spine| - 1]
  }

  /** What the nodes hold. */
  function ValuesOf<V>(nodes: seq<Node<V>>): (s: seq<V>)
    ensures |s| == |nodes| && forall i :: 0 <= i < |s| ==> s[i] == nodes[i].value
  {
    seq(|nodes|, i requires 0 <= i < |nodes| => nodes[i].value)
  }

  lemma InnerWithout<V>(was: seq<Node<V>>, i: nat)
    requires i + 2 < |was|
    ensures var now := Inner(was[..i + 1] + was[i + 2..]);
            && now == Inner(was)[..i] + Inner(was)[i + 1..]
            && ValuesOf(now) == ValuesOf(Inner(was))[..i] + ValuesOf(Inner(was))[i + 1..]
  {
    assert Inner(was[..i + 1] + was[i + 2..]) == Inner(was)[..i] + Inner(was)[i + 1..];
  }

  lemma InnerWith<V>(was: seq<Node<V>>, item: Node<V>)
    requires |was| >= 2
    ensures var now := Inner(was[..|was| - 1] + [item] + [was[|was| - 1]]);
            now == Inner(was) + [item] && ValuesOf(now) == ValuesOf(Inner(was)) + [item.value]
  {
    assert Inner(was[..|was| - 1] + [item] + [was[|was| - 1]]) == Inner(was) + [item];
  }

  /** struct list. */
  class List<V(==)> {
    const head: Node<V>
    const tail: Node<V>

    /** The sentinels and what is between them, in order. */
    ghost var spine: seq<Node<V>>
    ghost var Repr: set<object>

    /** An empty list has two representations: before the first append, the
        links of both sentinels are NULL. */
    ghost predicate Unlinked()
      reads this, head, tail
    {
      |spine| == 2 && head.next == null && tail.prev == null
    }

    ghost predicate Linked()
      reads this, Repr
      requires Owned()
    {
      forall k :: 0 <= k < |spine| - 1 ==> LinkAt(spine, k)
    }

    ghost predicate Owned()
      reads this
    {
      && this in Repr
      && |spine| >= 2 && spine[0] == head && spine[|spine| - 1] == tail
      && Distinct(spine)
      && forall k :: 0 <= k < |spine| ==> spine[k] in Repr
    }

    ghost predicate Valid()
      reads this, Repr, head, tail
    {
      Owned() && head.prev == null && tail.next == null && (Unlinked() || Linked())
    }

    /** The nodes between the sentinels. */
    ghost function Items(): (s: seq<Node<V>>)
      requires |spine| >= 2
      reads this
    {
      Inner(spine)
    }

    /** The abstract list. */
    ghost function Values(): (s: seq<V>)
      requires |spine| >= 2
      reads this
      ensures |s| == |spine| - 2
      ensures forall i :: 0 <= i < |s| ==> s[i] == spine[i + 1].value
    {
      ValuesOf(Items())
    }

    /** list_init, on the storage of the two sentinels. */
    constructor (head: Node<V>, tail: Node<V>)
      requires head != tail
      modifies head, tail
      ensures Valid() && Unlinked() && this.head == head && this.tail == tail
      ensures fresh(this) && Repr == {this, head, tail} && Values() == []
    {
      this.head, this.tail, this.spine := head, tail, [head, tail];
      Repr := {this, head, tail};
      new;
      head.prev, head.next := null, null;
      tail.prev, tail.next := null, null;
    }

    /** list_append. */
    method Append(item: Node<V>)
      requires Valid() && item !in Repr
      modifies this, Repr, item
      ensures Valid() && Linked() && Repr == old(Repr) + {item}
      ensures Items() == old(Items()) + [item]
      ensures Values() == old(Values()) + [item.value]
      ensures spine == old(spine)[..|old(spine)| - 1] + [item, tail]
    {
      hide Inner, ValuesOf;
      ghost var was, last := spine, |spine| - 2;
      assert Linked() ==> LinkAt(spine, last);
      if tail.prev != null {
        var prev := tail.prev;
        tail.prev := item;
        prev.next := item;
        item.prev := prev;
        item.next := tail;
      } else {
        assert head.next == null;
        tail.prev := item;
        head.next := item;
        item.prev := head;
        item.next := tail;
      }
      spine, Repr := was[..last + 1] + [item, tail], Repr + {item};
      InnerWith(was, item);
      assert spine == was[..last + 1] + [item] + [was[last + 1]];
      forall k | 0 <= k < |spine| - 1
        ensures LinkAt(spine, k)
      {
        if k < last {
          assert old(LinkAt(spine, k)) && was[k] != was[last] && was[k + 1] != was[last + 1];
        }
      }
    }

    /** list_remove, of the i-th node. */
    method Remove(item: Node<V>, ghost i: nat)
      requires Valid() && i + 2 < |spine| && spine[i + 1] == item
      modifies this, Repr
      ensures Valid() && Linked() && Repr == old(Repr)
      ensures spine == old(spine)[..i + 1] + old(spine)[i + 2..]
      ensures Items() == old(Items())[..i] + old(Items())[i + 1..]
      ensures Values() == old(Values())[..i] + old(Values())[i + 1..]
    {
      hide Inner, ValuesOf;
      ghost var was := spine;
      assert LinkAt(spine, i) && LinkAt(spine, i + 1);
      var prev, next := item.prev, item.next;
      prev.next := next;
      next.prev := prev;
      spine := was[..i + 1] + was[i + 2..];
      forall k | 0 <= k < |was| - 1 && k != i && k != i + 1
        ensures LinkAt(was, k)
      {
        assert old(LinkAt(spine, k)) && was[k] != was[i] && was[k + 1] != was[i + 2];
      }
      RemovedLinks(was, i);
      InnerWithout(was, i);
    }

    /** Once the neighbours of the i-th node are linked to each other, what is
        left of the spine is linked. */
    lemma RemovedLinks(was: seq<Node<V>>, i: nat)
      requires i + 2 < |was| && spine == was[..i + 1] + was[i + 2..] && Owned()
      requires forall k :: 0 <= k < |was| - 1 && k != i && k != i + 1 ==> LinkAt(was, k)
      requires was[i].next == was[i + 2] && was[i + 2].prev == was[i]
      ensures Linked()
    {
      forall k | 0 <= k < |spine| - 1
        ensures LinkAt(spine, k)
      {
        if k < i {
          assert LinkAt(was, k);
        } else if k > i {
          assert LinkAt(was, k + 1);
        }
      }
    }

    /** LIST_FOREACH visits the values in order. */
    method Forward() returns (vs: seq<V>)
      requires Valid()
      ensures vs == Values()
    {
      vs := [];
      var current := head.next;
      assert Linked() ==> LinkAt(spine, 0);
      while current != null && current.next != null
        invariant |vs| <= |spine| - 2 && vs == Values()[..|vs|]
        invariant current == if Unlinked() then null else spine[|vs| + 1]
        invariant |vs| < |spine| - 2 ==> LinkAt(spine, |vs| + 1)
        decreases |spine| - |vs|
      {
        assert |vs| < |spine| - 2;
        vs := vs + [current.value];
        current := current.next;
      }
    }

    lemma Sentinels()
      requires Valid()
      ensures this in Repr && head in Repr && tail in Repr
    {
    }

    /** list_head: where LIST_FOREACH starts; nowhere in an empty list that was
        never linked. */
    method First() returns (current: Node?<V>)
      requires Valid()
      ensures current == if Unlinked() then null else spine[1]
      ensures Items() == [] <==> current == null || current == tail
    {
      assert Linked() ==> LinkAt(spine, 0);
      current := head.next;
    }

    /** list_next, from the i-th node. */
    method Next(current: Node<V>, ghost i: nat) returns (next: Node<V>)
      requires Valid() && i + 2 < |spine| && current == spine[i + 1]
      ensures next == spine[i + 2]
    {
      assert LinkAt(spine, i + 1);
      next := current.next;
    }

    /** The search of LIST_FOREACH for a value. */
    method Find(value: V) returns (current: Node?<V>, ghost i: nat)
      requires Valid()
      ensures current == null ==> forall k :: 0 <= k < |Items()| ==> Items()[k].value != value
      ensures current != null ==> i < |Items()| && Items()[i] == current && current.value == value
    {
      current := First();
      i := 0;
      while current != null && current.next != null
        invariant i <= |spine| - 2 && forall k :: 0 <= k < i ==> Items()[k].value != value
        invariant current == if Unlinked() then null else spine[i + 1]
        decreases |spine| - i
      {
        AtEnd(i + 1);
        if value == current.value {
          return;
        }
        current := Next(current, i);
        i := i + 1;
      }
      if current != null {
        AtEnd(i + 1);
      }
      current := null;
    }

    /** The test with which LIST_FOREACH ends. */
    lemma AtEnd(i: nat)
      requires Valid() && Linked() && 0 < i < |spine|
      ensures spine[i].next == null <==> i == |spine| - 1
    {
      if i < |spine| - 1 {
        assert LinkAt(spine, i);
      }
    }

    /** The same walk along list_prev visits them in reverse. */
    method Backward() returns (vs: seq<V>)
      requires Valid()
      ensures vs == Reverse(Values())
    {
      vs := [];
      var current := tail.prev;
      ghost var n := |spine| - 2;
      assert Linked() ==> LinkAt(spine, n);
      while current != null && current.prev != null
        invariant |vs| <= n && vs == Reverse(Values())[..|vs|]
        invariant current == if Unlinked() then null else spine[n - |vs|]
        invariant |vs| < n ==> LinkAt(spine, n - |vs| - 1)
        decreases |spine| - |vs|
      {
        assert |vs| < n;
        vs := vs + [current.value];
        current := current.prev;
      }
    }
  }
}
