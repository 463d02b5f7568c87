/**
 * The doubly linked list of doubly_linked_list/doubly_linked_list.py:
 * nodes (`ObjList`) with data, next and prev links, and a list holding
 * head and tail. The list's ghost `nodes` is the chain from head to tail.
 */
module DoublyLinkedList {
  import opened Wrappers

  datatype ListError = CorruptedLinkedListError | IndexError

  /** A list node: its data and its two links. */
  class ObjList<T> {
    var data: T
    var next: ObjList?<T>
    var prev: ObjList?<T>

    constructor (data: T)
      ensures GetData() == data && GetNext() == null && GetPrev() == null
    {
      this.data := data;
      next := null;
      prev := null;
    }

    function GetNext(): ObjList?<T>
      reads this
    {
      next
    }

    function GetPrev(): ObjList?<T>
      reads this
    {
      prev
    }

    function GetData(): T
      reads this
    {
      data
    }

    method SetNext(obj: ObjList?<T>)
      modifies this
      ensures GetNext() == obj && GetPrev() == old(GetPrev()) && GetData() == old(GetData())
    {
      next := obj;
    }

    method SetPrev(obj: ObjList?<T>)
      modifies this
      ensures GetPrev() == obj && GetNext() == old(GetNext()) && GetData() == old(GetData())
    {
      prev := obj;
    }

    method SetData(data: T)
      modifies this
      ensures GetData() == data && GetNext() == old(GetNext()) && GetPrev() == old(GetPrev())
    {
      this.data := data;
    }
  }

  /** The data of a sequence of nodes, in order. */
  ghost function DataOf<T>(ns: seq<ObjList<T>>): (d: seq<T>)
    reads ns
    ensures |d| == |ns|
    ensures forall i :: 0 <= i < |ns| ==> d[i] == ns[i].data
  {
    if ns == [] then [] else DataOf(ns[..|ns| - 1]) + [ns[|ns| - 1].data]
  }

  class LinkedList<T> {
    var head: ObjList?<T>
    var tail: ObjList?<T>
    /** The nodes from head to tail. */
    ghost var nodes: seq<ObjList<T>>

    /**
     * The links follow `nodes`: head is the first node and has no prev,
     * each node's next and prev are its neighbours, the last has no next.
     * The tail is the last node, or null in the corrupted state that
     * `_raise_if_corrupted` detects.
     */
    ghost predicate Linked()
      reads this, nodes
    {
      && (forall i, j :: 0 <= i < j < |nodes| ==> nodes[i] != nodes[j])
      && (nodes == [] ==> head == null && tail == null)
      && (nodes != [] ==>
            && head == nodes[0]
            && nodes[0].prev == null
            && nodes[|nodes| - 1].next == null
            && (tail == null || tail == nodes[|nodes| - 1]))
      && (forall i :: 0 <= i < |nodes| - 1 ==> nodes[i].next == nodes[i + 1])
      && (forall i :: 0 < i < |nodes| ==> nodes[i].prev == nodes[i - 1])
    }

    /** _raise_if_corrupted's condition: a head but no tail. */
    predicate Corrupted()
      reads this
    {
      head != null && tail == null
    }

    ghost predicate Valid()
      reads this, nodes
    {
      Linked() && !Corrupted()
    }

    constructor ()
      ensures Valid() && nodes == [] && head == null && tail == null
    {
      head := null;
      tail := null;
      nodes := [];
    }

    /**
     * add_obj, corrected: appends `obj`, clearing both of its links. The
     * source clears only the next link, so a node that still points back into
     * another list keeps that prev link when it becomes the head of an empty
     * list; see AddObjAsWritten.
     */
    method AddObj(obj: ObjList<T>) returns (r: Outcome<ListError>)
      requires Linked()
      requires obj !in nodes
      modifies this, nodes, obj
      ensures Linked()
      ensures old(Corrupted()) ==>
        r == Fail(CorruptedLinkedListError) && unchanged(this) && unchanged(old(nodes)) && unchanged(obj)
      ensures !old(Corrupted()) ==>
        && r == Pass
        && Valid()
        && nodes == old(nodes) + [obj]
        && (forall n :: n in nodes ==> n.data == old(n.data))
        && tail == obj && obj.next == null
        && head == (if old(nodes) == [] then obj else old(head))
        && obj.prev == (if old(nodes) == [] then null else old(tail))
    {
      if Corrupted() {
        return Fail(CorruptedLinkedListError);
      }
      Append(obj);
      return Pass;
    }

    /** The linking done by add_obj on a list that is not corrupted. */
    method Append(obj: ObjList<T>)
      requires Valid()
      requires obj !in nodes
      modifies this, nodes, obj
      ensures Valid()
      ensures nodes == old(nodes) + [obj]
      ensures forall n :: n in nodes ==> n.data == old(n.data)
      ensures tail == obj && obj.next == null
      ensures head == (if old(nodes) == [] then obj else old(head))
      ensures obj.prev == (if old(nodes) == [] then null else old(tail))
    {
      if head == null {
        head := obj;
        tail := obj;
        obj.SetPrev(null);
        obj.SetNext(null);
        nodes := [obj];
      } else {
        LinkAfterTail(obj);
      }
    }

    /** add_obj on a list with a tail: the tail and `obj` link to each other, `obj` becomes the tail. */
    method LinkAfterTail(obj: ObjList<T>)
      requires Valid() && nodes != []
      requires obj !in nodes
      modifies this, nodes, obj
      ensures Valid()
      ensures nodes == old(nodes) + [obj]
      ensures forall n :: n in nodes ==> n.data == old(n.data)
      ensures tail == obj && obj.next == null
      ensures head == old(head) && obj.prev == old(tail)
    {
      ghost var n := |nodes|;
      tail.SetNext(obj);
      obj.SetPrev(tail);
      tail := obj;
      obj.SetNext(null);
      nodes := nodes + [obj];
      assert forall i :: 0 <= i < n - 1 ==> nodes[i].next == old(nodes[i].next);
      assert forall i :: 0 <= i < n ==> nodes[i].prev == old(nodes[i].prev);
    }

    /**
     * remove_obj: detaches and returns the tail. Only the new tail's next
     * link is cleared; the removed node keeps its prev link.
     */
    method RemoveObj() returns (r: Result<ObjList<T>, ListError>)
      requires Linked()
      modifies this, nodes
      ensures Linked()
      ensures old(Corrupted()) ==>
        r == Failure(CorruptedLinkedListError) && unchanged(this) && unchanged(old(nodes))
      ensures !old(Corrupted()) && old(nodes) == [] ==>
        r == Failure(IndexError) && unchanged(this)
      ensures !old(Corrupted()) && old(nodes) != [] ==>
        && r.Success? && r.value == old(tail) == old(nodes[|nodes| - 1])
        && Valid()
        && nodes == old(nodes[..|nodes| - 1])
        && (forall n :: n in nodes ==> n.data == old(n.data))
        && (|old(nodes)| == 1 ==> head == null && tail == null)
        && (|old(nodes)| > 1 ==> head == old(head) && r.value.prev == tail)
        && unchanged(r.value)
    {
      if Corrupted() {
        return Failure(CorruptedLinkedListError);
      }
      if head == null {
        return Failure(IndexError);
      }
      var discardedTail := DetachTail();
      return Success(discardedTail);
    }

    /** The unlinking done by remove_obj on a list that is neither corrupted nor empty. */
    method DetachTail() returns (discarded: ObjList<T>)
      requires Valid() && nodes != []
      modifies this, nodes
      ensures discarded == old(tail) == old(nodes[|nodes| - 1])
      ensures Valid()
      ensures nodes == old(nodes[..|nodes| - 1])
      ensures forall n :: n in nodes ==> n.data == old(n.data)
      ensures |old(nodes)| == 1 ==> head == null && tail == null
      ensures |old(nodes)| > 1 ==> head == old(head) && discarded.prev == tail
      ensures unchanged(discarded)
    {
      discarded := tail;
      var newTail := tail.GetPrev();
      assert newTail == if |nodes| > 1 then nodes[|nodes| - 2] else null;
      if newTail != null {
        newTail.SetNext(null);
      } else {
        head := null;
      }
      tail := newTail;
      nodes := nodes[..|nodes| - 1];
    }

    /**
     * add_obj as the source writes it, on the raw links: on an empty list
     * `obj` keeps whatever prev link it had.
     */
    method AddObjAsWritten(obj: ObjList<T>) returns (r: Outcome<ListError>)
      modifies this, obj, tail
      ensures old(Corrupted()) ==> r == Fail(CorruptedLinkedListError) && unchanged(this) && unchanged(obj)
      ensures !old(Corrupted()) && old(head) == null ==>
        && r == Pass && head == obj && tail == obj
        && obj.next == null && obj.prev == old(obj.prev)
      ensures !old(Corrupted()) && old(head) != null ==>
        && r == Pass && head == old(head) && tail == obj
        && (old(tail) != obj ==> old(tail).next == obj) && obj.prev == old(tail) && obj.next == null
      ensures obj.data == old(obj.data)
      ensures old(tail) != null ==> old(tail).data == old(tail.data)
      ensures old(tail) != null && old(tail) != obj ==> old(tail).prev == old(tail.prev)
      ensures nodes == old(nodes)
    {
      if Corrupted() {
        return Fail(CorruptedLinkedListError);
      }
      if head == null {
        head := obj;
        tail := obj;
      } else {
        tail.SetNext(obj);
        obj.SetPrev(tail);
        tail := obj;
      }
      obj.SetNext(null);
      return Pass;
    }

    /**
     * remove_obj as the source writes it, on the raw links of a list with a
     * head and a tail: the tail's prev node, if any, becomes the tail.
     */
    method RemoveObjAsWritten() returns (discarded: ObjList<T>)
      requires head != null && tail != null
      modifies this, tail.prev
      ensures discarded == old(tail) && tail == old(tail.prev)
      ensures old(tail.prev) != null ==> head == old(head) && old(tail.prev).next == null
      ensures old(tail.prev) == null ==> head == null
      ensures old(tail.prev) != null ==> old(tail.prev).prev == old(tail.prev.prev) && old(tail.prev).data == old(tail.prev.data)
      ensures old(tail.prev) != old(tail) ==> unchanged(old(tail))
      ensures nodes == old(nodes)
    {
      discarded := tail;
      var newTail := tail.GetPrev();
      if newTail != null {
        newTail.SetNext(null);
      } else {
        head := null;
      }
      tail := newTail;
    }

    /** get_data: the data of the nodes from head to tail; the list is not modified. */
    method GetData() returns (r: Result<seq<T>, ListError>)
      requires Linked()
      ensures Corrupted() ==> r == Failure(CorruptedLinkedListError)
      ensures !Corrupted() ==> r == Success(DataOf(nodes))
    {
      if Corrupted() {
        return Failure(CorruptedLinkedListError);
      }
      var current := head;
      var container := [];
      ghost var i := 0;
      while current != null
        invariant 0 <= i <= |nodes|
        invariant current == (if i < |nodes| then nodes[i] else null)
        invariant container == DataOf(nodes[..i])
        decreases |nodes| - i
      {
        container := container + [current.GetData()];
        current := current.GetNext();
        i := i + 1;
      }
      assert nodes[..i] == nodes;
      return Success(container);
    }
  }

  /**
   * The stale prev link of add_obj as written: nodes a then b are appended
   * and both removed, so the list is empty and b still points back to a.
   * Appending b again as written and removing it returns b, yet the list
   * keeps b as its head and takes a, which it no longer holds, as its tail.
   */
  method StalePrevCounterexample() returns (list: LinkedList<int>, a: ObjList<int>, b: ObjList<int>, popped: ObjList<int>)
    ensures popped == b && list.head == b && list.tail == a
  {
    list := new LinkedList<int>();
    a := new ObjList(1);
    b := new ObjList(2);
    var added := list.AddObj(a);
    added := list.AddObj(b);
    var removed := list.RemoveObj();
    removed := list.RemoveObj();
    assert list.head == null && list.tail == null && b.prev == a;
    added := list.AddObjAsWritten(b);
    popped := list.RemoveObjAsWritten();
  }

  /**
   * With the corrected add_obj the same steps leave the list empty: the
   * node removed last was its only node.
   */
  method StalePrevCorrected() returns (list: LinkedList<int>, a: ObjList<int>, b: ObjList<int>, popped: ObjList<int>)
    ensures popped == b && list.head == null && list.tail == null && list.nodes == []
  {
    list := new LinkedList<int>();
    a := new ObjList(1);
    b := new ObjList(2);
    var added := list.AddObj(a);
    added := list.AddObj(b);
    var removed := list.RemoveObj();
    removed := list.RemoveObj();
    added := list.AddObj(b);
    removed := list.RemoveObj();
    popped := removed.value;
  }
}
