/** Singly linked lists whose elements know the pointer that points at them
    (src/common/list.c).
  */
module Lists {

  /** The address of a pointer to an element: that of the `head` of a list or that of
      the `next` of an element. */
  datatype Location<!T> = HeadOf(list: List<T>) | NextOf(element: Element<T>)

  class Element<T> {
    const data: T
    var next: Element?<T>
    var ptr: Location<T>

    /** The list that the element was added to. */
    ghost const owner: List<T>

    constructor (list: List<T>, data: T)
      ensures this.data == data && owner == list && next == list.head && ptr == HeadOf(list)
    {
      this.data := data;
      next := list.head;
      ptr := HeadOf(list);
      owner := list;
    }
  }

  class List<T> {
    var head: Element?<T>
    ghost var elements: seq<Element<T>>

    ghost predicate Linked()
      reads this, elements
    {
      && head == Following(0)
      && forall i {:trigger elements[i].next} :: 0 <= i < |elements| ==> elements[i].next == Following(i + 1)
    }

    /** The element at a position, or null at the end. */
    ghost function Following(i: nat): Element?<T>
      reads this
    {
      if i < |elements| then elements[i] else null
    }

    /** Every element knows the pointer that points at it. */
    ghost predicate Backed()
      reads this, elements
    {
      forall i {:trigger elements[i].ptr} :: 0 <= i < |elements| ==>
        elements[i].ptr == if i == 0 then HeadOf(this) else NextOf(elements[i - 1])
    }

    ghost predicate Own()
      reads this
    {
      && (forall i :: 0 <= i < |elements| ==> elements[i].owner == this)
      && (forall i, j :: 0 <= i < j < |elements| ==> elements[i] != elements[j])
    }

    ghost predicate Valid()
      reads this, elements
    {
      Linked() && Backed() && Own()
    }

    constructor ()
      ensures Valid() && elements == []
    {
      head, elements := null, [];
    }

    /** Adds an element at the head. */
    method Add(data: T) returns (element: Element<T>)
      requires Valid()
      modifies this, elements
      ensures Valid() && fresh(element) && element.data == data
      ensures elements == [element] + old(elements)
    {
      element := new Element(this, data);
      if head != null {
        head.ptr := NextOf(element);
      }
      head := element;
      elements := [element] + elements;
    }

    /** Joins the neighbours of the element at position `k` through its back pointer. */
    method Unhook(element: Element<T>, ghost k: nat)
      requires Valid() && k < |elements| && elements[k] == element
      modifies this`head, elements
      ensures head == if k == 0 then Following(1) else old(head)
      ensures forall i {:trigger elements[i].next} :: 0 <= i < |elements| && i != k ==>
        elements[i].next == Following(if i + 1 == k then k + 1 else i + 1)
      ensures forall i {:trigger elements[i].ptr} :: 0 <= i < |elements| && i != k ==>
        elements[i].ptr == if i == k + 1 then old(element.ptr) else old(elements[i].ptr)
    {
      assert element.ptr == if k == 0 then HeadOf(this) else NextOf(elements[k - 1]);
      assert element.next == Following(k + 1);
      match element.ptr {
        case HeadOf(list) => list.head := element.next;
        case NextOf(before) => before.next := element.next;
      }
      if element.next != null {
        element.next.ptr := element.ptr;
      }
    }

    /** Removes the element at position `k`, which the caller need not know. */
    method Remove(element: Element<T>, ghost k: nat)
      requires Valid() && k < |elements| && elements[k] == element
      modifies this, elements
      ensures Valid() && elements == old(elements)[..k] + old(elements)[k + 1..]
    {
      ghost var s := elements;
      assert element.ptr == if k == 0 then HeadOf(this) else NextOf(s[k - 1]);
      Unhook(element, k);
      elements := s[..k] + s[k + 1..];
      assert forall i :: 0 <= i < |elements| ==> elements[i] == s[if i < k then i else i + 1];
    }
  }
}
