/** The intrusive queue: items are linked through their own `next` field. */
module TaskQueue {

  class Item {
    var next: Item?

    constructor ()
      ensures next == null
    {
      next := null;
    }
  }

  class Queue {
    var head: Item?
    var tail: Item?
    ghost var items: seq<Item>

    ghost predicate Valid()
      reads this, items
    {
      && (head == if items == [] then null else items[0])
      && (tail == if items == [] then null else items[|items| - 1])
      && (forall i :: 0 <= i < |items| - 1 ==> items[i].next == items[i + 1])
      && (items != [] ==> items[|items| - 1].next == null)
      && (forall i, j :: 0 <= i < j < |items| ==> items[i] != items[j])
    }

    constructor ()
      ensures Valid() && items == []
    {
      head, tail, items := null, null, [];
    }

    method Empty() returns (empty: bool)
      requires Valid()
      ensures empty <==> items == []
    {
      empty := head == null;
    }

    /** Appends an item, which must not be in the queue already. */
    method Push(item: Item)
      requires Valid() && item !in items
      modifies this, item, if items == [] then {} else {items[|items| - 1]}
      ensures Valid() && items == old(items) + [item]
    {
      if head == null {
        head := item;
      } else {
        tail.next := item;
      }
      tail := item;
      item.next := null;
      items := items + [item];
    }

    /** Appends all items of `other`, which is left empty. */
    method PushQueue(other: Queue)
      requires Valid() && other.Valid() && this != other
      requires forall i, j :: 0 <= i < |items| && 0 <= j < |other.items| ==> items[i] != other.items[j]
      modifies this, other, if items == [] then {} else {items[|items| - 1]}
      ensures Valid() && items == old(items) + old(other.items)
      ensures other.Valid() && other.items == []
    {
      if head == null {
        head, tail := other.head, other.tail;
      } else if other.head != null {
        tail.next := other.head;
        tail := other.tail;
      }
      items := items + other.items;
      other.head, other.tail, other.items := null, null, [];
    }

    /** Takes the oldest item out, if there is one. */
    method Pop() returns (item: Item?)
      requires Valid()
      modifies this, if items == [] then {} else {items[0]}
      ensures Valid()
      ensures item == if old(items) == [] then null else old(items)[0]
      ensures items == if old(items) == [] then [] else old(items)[1..]
      ensures item != null ==> item.next == null
    {
      item := head;
      if item != null {
        assert |items| > 1 ==> item.next == items[1];
        head := item.next;
        if head == null {
          tail := null;
        }
        item.next := null;
        items := items[1..];
      }
    }
  }
}
