/**
 * The task queue of the worker framework: a singly linked list of nodes
 * with a head, a tail and a separately kept size. The queue is modelled as
 * the source keeps it, including two defects: popping the last node leaves
 * `tail` on the node just taken off, so a later push links its node behind
 * that node and `head` stays empty; and `clear` unlinks the nodes but keeps
 * the size.
 */
module TaskQueue {
  import opened Wrappers

  class Node<T> {
    var task: T
    var next: Node?<T>

    constructor (task: T)
      ensures this.task == task && next == null
    {
      this.task := task;
      next := null;
    }
  }

  class Queue<T> {
    /** The size the queue keeps, which `is_empty` consults. */
    var size: int
    var head: Node?<T>
    var tail: Node?<T>
    /** The nodes linked from `head`, in order, and the tasks they hold. */
    ghost var spine: seq<Node<T>>
    ghost var tasks: seq<T>
    /** Every object the queue has touched; nodes taken off stay in it. */
    ghost var Repr: set<object>

    ghost predicate Valid()
      reads this, Repr
    {
      this in Repr &&
      (forall k :: 0 <= k < |spine| ==> spine[k] in Repr) &&
      (tail != null ==> tail in Repr) &&
      |tasks| == |spine| &&
      (forall k :: 0 <= k < |spine| ==> spine[k].task == tasks[k]) &&
      (forall k :: 0 <= k < |spine| - 1 ==> spine[k].next == spine[k + 1]) &&
      (forall a, b :: 0 <= a < b < |spine| ==> spine[a] != spine[b]) &&
      head == (if spine == [] then null else spine[0]) &&
      (spine != [] ==> tail == spine[|spine| - 1] && tail.next == null) &&
      |spine| <= size
    }

    /**
     * The size counts exactly the linked tasks, and an empty queue has no
     * tail: what holds from creation for as long as neither defect is hit.
     */
    ghost predicate Sound()
      reads this
    {
      size == |tasks| && (tasks == [] ==> tail == null)
    }

    /** create_queue: size 0, no head, no tail. */
    constructor Create()
      ensures Valid() && Sound() && fresh(Repr)
      ensures size == 0 && head == null && tail == null && tasks == []
    {
      size := 0;
      head := null;
      tail := null;
      spine := [];
      tasks := [];
      Repr := {this};
    }

    /**
     * is_empty: the size is at most 0. When it says empty no task is
     * linked; the converse holds only while the size counts the tasks.
     */
    function IsEmpty(): (r: bool)
      reads this, Repr
      ensures r <==> size <= 0
      ensures Valid() && r ==> tasks == []
      ensures Valid() && size == |tasks| ==> (r <==> tasks == [])
    {
      size <= 0
    }

    /**
     * push: a new node goes behind `tail`, or becomes head and tail when
     * there is no tail, and the size grows by one. Behind a tail left over by
     * a pop that emptied the queue the node is not reachable from `head`, and
     * the task is lost.
     */
    method Push(t: T)
      requires Valid()
      modifies Repr
      ensures Valid() && fresh(Repr - old(Repr))
      ensures size == old(size) + 1
      ensures tail != null && tail.task == t
      ensures tasks == if old(head) == null && old(tail) != null then old(tasks) else old(tasks) + [t]
      ensures old(Sound()) ==> Sound()
    {
      var node := new Node(t);
      if tail == null {
        head := node;
        tail := node;
        spine := [node];
        tasks := [t];
      } else {
        tail.next := node;
        tail := node;
        if head != null {
          spine := spine + [node];
          tasks := tasks + [t];
        }
      }
      Repr := Repr + {node};
      size := size + 1;
    }

    /**
     * pop: without a head nothing changes and no task is defined (the source
     * returns an uninitialised one). Otherwise the head's task comes out,
     * the next node becomes the head and the size drops by one; `tail` is
     * left as it was, even when the last node went.
     */
    method Pop() returns (r: Option<T>)
      requires Valid()
      modifies this
      ensures Valid() && Repr == old(Repr) && tail == old(tail)
      ensures old(tasks) == [] ==> r == None && size == old(size) && tasks == [] && head == null
      ensures old(tasks) != [] ==> r == Some(old(tasks)[0]) && size == old(size) - 1 && tasks == old(tasks)[1..]
      ensures old(Sound()) && |old(tasks)| != 1 ==> Sound()
    {
      if head == null {
        return None;
      }
      var node := head;
      r := Some(node.task);
      if node.next != null {
        head := node.next;
      } else {
        head := null;
      }
      spine := spine[1..];
      tasks := tasks[1..];
      size := size - 1;
    }

    /** clear: walks the nodes from `head` to the end, then drops head and tail; the size stays. */
    method Clear()
      requires Valid()
      modifies this
      ensures Valid() && Repr == old(Repr)
      ensures head == null && tail == null && tasks == [] && size == old(size)
    {
      var cur := head;
      ghost var k := 0;
      while cur != null
        invariant 0 <= k <= |spine|
        invariant cur == if k < |spine| then spine[k] else null
        decreases |spine| - k
      {
        cur := cur.next;
        k := k + 1;
      }
      head := null;
      tail := null;
      spine := [];
      tasks := [];
    }
  }

  /**
   * The dangling tail at work: one task pushed and popped, a second pushed,
   * and the next pop finds no head although the size says one task is queued.
   */
  method PushAfterDrain<T>(first: T, second: T) returns (popped: Option<T>, lost: Option<T>, size: int)
    ensures popped == Some(first) && lost == None && size == 1
  {
    var q := new Queue<T>.Create();
    q.Push(first);
    popped := q.Pop();
    q.Push(second);
    lost := q.Pop();
    size := q.size;
  }

  /** clear keeps the size: a queue of one task cleared is still not empty to is_empty, and has nothing to pop. */
  method ClearKeepsSize<T>(t: T) returns (empty: bool, popped: Option<T>)
    ensures !empty && popped == None
  {
    var q := new Queue<T>.Create();
    q.Push(t);
    q.Clear();
    empty := q.IsEmpty();
    popped := q.Pop();
  }
}
