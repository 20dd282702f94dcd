/** The linked queue under the thread library, proved to be a first-in first-out sequence. */
module LinkedQueue {
  import opened Wrappers

  class Item<T> {
    var data: T
    var next: Item?<T>

    constructor (data: T)
      ensures this.data == data && next == null
    {
      this.data, next := data, null;
    }
  }

  class Queue<T> {
    var front: Item?<T>
    var back: Item?<T>
    ghost var items: seq<Item<T>>
    ghost var nodes: set<Item<T>>       // the items, and what were items before

    /** `front` leads through all items in order to `back`, which is the last one. */
    ghost predicate Valid()
      reads this, nodes
    {
      && (forall i :: 0 <= i < |items| ==> items[i] in nodes)
      && (items == [] ==> front == null && back == null)
      && (items != [] ==> front == items[0] && back == items[|items| - 1] && back.next == null)
      && (forall i :: 0 <= i < |items| - 1 ==> items[i].next == items[i + 1])
      && (forall i, j :: 0 <= i < j < |items| ==> items[i] != items[j])
    }

    ghost function Contents(): (s: seq<T>)
      reads this, items
      ensures |s| == |items|
    {
      seq(|items|, i requires 0 <= i < |items| reads this, items => items[i].data)
    }

    constructor ()
      ensures Valid() && Contents() == [] && nodes == {}
    {
      front, back, items, nodes := null, null, [], {};
    }

    method NotEmpty() returns (b: bool)
      requires Valid()
      ensures b <==> Contents() != []
    {
      b := front != null;
    }

    method Push(data: T)
      requires Valid()
      modifies this, nodes
      ensures Valid() && Contents() == old(Contents()) + [data] && fresh(nodes - old(nodes))
    {
      var item := new Item(data);
      if back != null {
        back.next := item;
        back := item;
      } else {
        front, back := item, item;
      }
      items, nodes := items + [item], nodes + {item};
    }

    method Pop() returns (r: Option<T>)
      requires Valid()
      modifies this
      ensures Valid() && nodes == old(nodes)
      ensures old(Contents()) == [] ==> r == None && Contents() == []
      ensures old(Contents()) != [] ==> r == Some(old(Contents())[0]) && Contents() == old(Contents())[1..]
    {
      if front == null {
        return None;
      }
      var item := front;
      front := item.next;
      if front == null {
        back := null;
      }
      items := items[1..];
      return Some(item.data);
    }

    /** The item at position k of the iteration; null is past the end. */
    ghost predicate Cursor(it: Item?<T>, k: nat)
      reads this
    {
      k <= |items| && it == if k < |items| then items[k] else null
    }

    method Iterator() returns (it: Item?<T>)
      requires Valid()
      ensures Cursor(it, 0)
    {
      it := front;
    }

    method Next(it: Item?<T>, ghost k: nat) returns (data: Option<T>, it': Item?<T>)
      requires Valid() && Cursor(it, k)
      ensures it == null ==> data == None && it' == null
      ensures it != null ==> k < |Contents()| && data == Some(Contents()[k]) && Cursor(it', k + 1)
    {
      if it == null {
        return None, null;
      }
      return Some(it.data), it.next;
    }
  }

  /** Iterating visits the contents of the queue once each, in order. */
  method Visit<T>(q: Queue<T>) returns (visited: seq<T>)
    requires q.Valid()
    ensures visited == q.Contents()
  {
    visited := [];
    var it := q.Iterator();
    while it != null
      invariant |visited| <= |q.Contents()| && visited == q.Contents()[..|visited|]
      invariant q.Cursor(it, |visited|)
      decreases |q.items| - |visited|
    {
      var data;
      data, it := q.Next(it, |visited|);
      visited := visited + [data.value];
    }
  }
}
