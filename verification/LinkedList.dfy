/** Singly linked cells with an intrusive next pointer, and the two lists built from them: the idle
    list of loopyConnPool.c and the head-and-tail query lists of loopyDNS.c. */
module LinkedList {

  class Cell<T> {
    var value: T
    var next: Cell?<T>

    constructor (value: T)
      ensures this.value == value && next == null
    {
      this.value, next := value, null;
    }
  }

  ghost predicate Differ<T>(cells: seq<Cell<T>>, i: nat, j: nat)
    requires i < |cells| && j < |cells|
  {
    cells[i] != cells[j]
  }

  ghost predicate DistinctCells<T>(cells: seq<Cell<T>>)
  {
    forall i, j {:trigger Differ(cells, i, j)} :: 0 <= i < j < |cells| ==> Differ(cells, i, j)
  }

  lemma OnlyAt<T>(cells: seq<Cell<T>>, k: nat)
    requires DistinctCells(cells) && k < |cells|
    ensures forall i :: 0 <= i < |cells| && i != k ==> cells[i] != cells[k]
  {
    forall i | 0 <= i < |cells| && i != k ensures cells[i] != cells[k] {
      assert if i < k then Differ(cells, i, k) else Differ(cells, k, i);
    }
  }

  lemma DistinctWithout<T>(cells: seq<Cell<T>>, k: nat)
    requires DistinctCells(cells) && k < |cells|
    ensures DistinctCells(cells[..k] + cells[k + 1..]) && cells[k] !in cells[..k] + cells[k + 1..]
  {
    var rest := cells[..k] + cells[k + 1..];
    forall i, j | 0 <= i < j < |rest| ensures Differ(rest, i, j) {
      assert Differ(cells, if i < k then i else i + 1, if j < k then j else j + 1);
    }
    OnlyAt(cells, k);
  }

  lemma DistinctWith<T>(c: Cell<T>, cells: seq<Cell<T>>)
    requires DistinctCells(cells) && c !in cells
    ensures DistinctCells([c] + cells) && DistinctCells(cells + [c])
  {
    forall i, j | 0 <= i < j < |cells| + 1 ensures Differ([c] + cells, i, j) {
      assert i > 0 ==> Differ(cells, i - 1, j - 1);
    }
    forall i, j | 0 <= i < j < |cells| + 1 ensures Differ(cells + [c], i, j) {
      assert j < |cells| ==> Differ(cells, i, j);
    }
  }

  /** The cell at position `i`, null after the last. */
  ghost function At<T>(cells: seq<Cell<T>>, i: nat): (r: Cell?<T>)
  {
    if i < |cells| then cells[i] else null
  }

  /** Following next from `head` visits exactly `cells`. */
  ghost predicate Chain<T>(head: Cell?<T>, cells: seq<Cell<T>>)
    reads cells`next
  {
    head == At(cells, 0) && forall i {:trigger cells[i].next} :: 0 <= i < |cells| ==> cells[i].next == At(cells, i + 1)
  }

  ghost function Values<T>(cells: seq<Cell<T>>): (vs: seq<T>)
    reads cells`value
    ensures |vs| == |cells| && forall i :: 0 <= i < |cells| ==> vs[i] == cells[i].value
  {
    if cells == [] then [] else [cells[0].value] + Values(cells[1..])
  }

  lemma {:induction false} ValuesAppend<T>(cells: seq<Cell<T>>, c: Cell<T>)
    ensures Values(cells + [c]) == Values(cells) + [c.value]
  {
    assert forall i :: 0 <= i < |cells| ==> Values(cells + [c])[i] == Values(cells)[i];
  }

  /** A list reached through its head pointer alone. The cells belong to `repr`. */
  class Stack<T> {
    var head: Cell?<T>
    ghost var cells: seq<Cell<T>>
    ghost var repr: set<Cell<T>>

    ghost predicate Valid()
      reads this, repr`next
    {
      (forall i :: 0 <= i < |cells| ==> cells[i] in repr) && Chain(head, cells) && DistinctCells(cells)
    }

    constructor ()
      ensures Valid() && cells == [] && repr == {}
    {
      head, cells, repr := null, [], {};
    }

    method Push(c: Cell<T>)
      requires Valid() && c !in repr
      modifies this`head, this`cells, this`repr, c`next
      ensures Valid() && cells == [c] + old(cells) && repr == old(repr) + {c}
    {
      DistinctWith(c, cells);
      c.next := head;
      head := c;
      cells, repr := [c] + cells, repr + {c};
    }

    method Pop() returns (c: Cell<T>)
      requires Valid() && cells != []
      modifies this`head, this`cells, this`repr, repr`next
      ensures Valid() && c == old(cells)[0] && cells == old(cells)[1..] && repr == old(repr) - {c} && c.next == null
    {
      c := head;
      DistinctWithout(cells, 0);
      assert cells[..0] + cells[1..] == cells[1..];
      head := c.next;
      cells, repr := cells[1..], repr - {c};
      c.next := null;
    }

    /** The surgery of a walk that keeps the previous cell: the current one is bypassed. It stays in
        `repr`. */
    method Unlink(prev: Cell?<T>, next: Cell?<T>, ghost k: nat)
      requires Valid() && k < |cells| && next == cells[k].next
      requires prev == if k == 0 then null else cells[k - 1]
      modifies this`head, this`cells, repr`next
      ensures Valid() && cells == old(cells)[..k] + old(cells)[k + 1..]
    {
      DistinctWithout(cells, k);
      if k > 0 { OnlyAt(cells, k - 1); }
      if prev != null {
        prev.next := next;
      } else {
        head := next;
      }
      cells := cells[..k] + cells[k + 1..];
    }
  }

  /** A list reached through its head and tail pointers. */
  class Queue<T> {
    var head: Cell?<T>
    var tail: Cell?<T>
    ghost var cells: seq<Cell<T>>
    ghost var repr: set<Cell<T>>

    ghost predicate Valid()
      reads this, repr`next
    {
      && (forall i :: 0 <= i < |cells| ==> cells[i] in repr) && Chain(head, cells) && DistinctCells(cells)
      && tail == (if cells == [] then null else cells[|cells| - 1])
    }

    constructor ()
      ensures Valid() && cells == [] && repr == {}
    {
      head, tail, cells, repr := null, null, [], {};
    }

    /** Append at the tail pointer. */
    method Enqueue(cell: Cell<T>)
      requires Valid() && cell !in repr
      modifies this, repr`next, cell`next
      ensures Valid() && cells == old(cells) + [cell] && repr == old(repr) + {cell}
    {
      DistinctWith(cell, cells);
      if cells != [] { OnlyAt(cells, |cells| - 1); }
      cell.next := null;
      if tail != null {
        tail.next := cell;
      } else {
        head := cell;
      }
      tail := cell;
      cells, repr := cells + [cell], repr + {cell};
    }

    /** Take the head; the tail pointer is cleared with the last cell. */
    method Dequeue() returns (r: Cell<T>)
      requires Valid() && cells != []
      modifies this, repr`next
      ensures Valid() && r == old(cells)[0] && cells == old(cells)[1..] && repr == old(repr) - {r} && r.next == null
    {
      r := head;
      DistinctWithout(cells, 0);
      assert cells[..0] + cells[1..] == cells[1..];
      head := r.next;
      if head == null {
        tail := null;
      }
      cells, repr := cells[1..], repr - {r};
      r.next := null;
    }
  }
}
