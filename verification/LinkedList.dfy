/** The singly linked list of lib/ll.c. A `List` is the caller's list pointer, which the
    operations take by reference. */
module LinkedList {
  import opened Options

  /** What a node stores: its item and its deconstructor, if it has one. */
  datatype Cell<T> = Cell(item: T, deconstructor: Option<nat>)

  /** A call of deconstructor `fn` on `item`. */
  datatype Call<T> = Call(fn: nat, item: T)

  class Node<T> {
    var item: T
    var deconstructor: Option<nat>
    var next: Node?<T>

    constructor (item: T, deconstructor: Option<nat>)
      ensures this.item == item && this.deconstructor == deconstructor && next == null
    {
      this.item, this.deconstructor, this.next := item, deconstructor, null;
    }
  }

  /** The deconstructor calls that freeing these cells makes, in order. */
  function Calls<T>(cells: seq<Cell<T>>): seq<Call<T>> {
    if cells == [] then []
    else
      var n := |cells| - 1;
      Calls(cells[..n]) + CallsOf(cells[n])
  }

  function CallsOf<T>(c: Cell<T>): seq<Call<T>> {
    match c.deconstructor
    case None => []
    case Some(fn) => [Call(fn, c.item)]
  }

  function Matching<T(==)>(cells: seq<Cell<T>>, item: T): seq<Cell<T>> {
    if cells == [] then []
    else
      var n := |cells| - 1;
      Matching(cells[..n], item) + if cells[n].item == item then [cells[n]] else []
  }

  function Surviving<T(==)>(cells: seq<Cell<T>>, item: T): seq<Cell<T>> {
    if cells == [] then []
    else
      var n := |cells| - 1;
      Surviving(cells[..n], item) + if cells[n].item == item then [] else [cells[n]]
  }

  lemma CallsSnoc<T>(cells: seq<Cell<T>>, c: Cell<T>)
    ensures Calls(cells + [c]) == Calls(cells) + CallsOf(c)
  {
    assert (cells + [c])[..|cells|] == cells;
  }

  /** The positions `from` are, in order, those of the cells that have a deconstructor, and the calls
      are of these deconstructors on the items of these cells. */
  ghost predicate CalledAt<T>(from: seq<nat>, cells: seq<Cell<T>>, calls: seq<Call<T>>) {
    && |from| == |calls|
    && (forall i, j :: 0 <= i < j < |from| ==> from[i] < from[j])
    && (forall i :: 0 <= i < |from| ==>
          && from[i] < |cells| && cells[from[i]].deconstructor.Some?
          && calls[i].fn == cells[from[i]].deconstructor.value && calls[i].item == cells[from[i]].item)
    && (forall k :: 0 <= k < |cells| && cells[k].deconstructor.Some? ==> k in from)
  }

  /** Every deconstructor is called once, on its own item, in the order of the cells. */
  ghost predicate CalledOnceEach<T>(cells: seq<Cell<T>>, calls: seq<Call<T>>) {
    exists from :: CalledAt(from, cells, calls)
  }

  lemma CalledOneMore<T>(from: seq<nat>, cells: seq<Cell<T>>, calls: seq<Call<T>>, c: Cell<T>)
    requires CalledAt(from, cells, calls) && c.deconstructor.Some?
    ensures CalledAt(from + [|cells|], cells + [c], calls + [Call(c.deconstructor.value, c.item)])
  {
    var from' := from + [|cells|];
    forall k | 0 <= k < |cells| + 1 && (cells + [c])[k].deconstructor.Some? ensures k in from' {
      if k < |cells| { assert k in from; } else { assert from'[|from|] == k; }
    }
  }

  lemma CalledNoMore<T>(from: seq<nat>, cells: seq<Cell<T>>, calls: seq<Call<T>>, c: Cell<T>)
    requires CalledAt(from, cells, calls) && c.deconstructor.None?
    ensures CalledAt(from, cells + [c], calls)
  {
  }

  lemma {:induction false} CallsAt<T>(cells: seq<Cell<T>>) returns (from: seq<nat>)
    ensures CalledAt(from, cells, Calls(cells))
  {
    from := [];
    if cells != [] {
      var n := |cells| - 1;
      var init, c := cells[..n], cells[n];
      assert cells == init + [c];
      CallsSnoc(init, c);
      from := CallsAt(init);
      if c.deconstructor.Some? {
        CalledOneMore(from, init, Calls(init), c);
        from := from + [n];
      } else {
        CalledNoMore(from, init, Calls(init), c);
      }
    }
  }

  lemma CallsOnceEach<T>(cells: seq<Cell<T>>)
    ensures CalledOnceEach(cells, Calls(cells))
  {
    var from := CallsAt(cells);
  }

  /** If every cell has a deconstructor, as argument lists do, the i-th call frees the i-th item. */
  lemma {:induction false} AllFreed<T>(cells: seq<Cell<T>>)
    requires forall c :: c in cells ==> c.deconstructor.Some?
    ensures |Calls(cells)| == |cells|
    ensures forall i :: 0 <= i < |cells| ==> Calls(cells)[i] == Call(cells[i].deconstructor.value, cells[i].item)
  {
    if cells != [] {
      var n := |cells| - 1;
      assert forall c :: c in cells[..n] ==> c in cells;
      AllFreed(cells[..n]);
      assert cells[n] in cells;
    }
  }

  lemma SurvivingSnoc<T>(cells: seq<Cell<T>>, c: Cell<T>, item: T)
    ensures c.item == item ==> Surviving(cells + [c], item) == Surviving(cells, item)
    ensures c.item != item ==> Surviving(cells + [c], item) == Surviving(cells, item) + [c]
  {
    assert (cells + [c])[..|cells|] == cells;
  }

  lemma MatchingSnoc<T>(cells: seq<Cell<T>>, c: Cell<T>, item: T)
    ensures c.item == item ==> Matching(cells + [c], item) == Matching(cells, item) + [c]
    ensures c.item != item ==> Matching(cells + [c], item) == Matching(cells, item)
  {
    assert (cells + [c])[..|cells|] == cells;
  }

  lemma DropMiddle<T>(a: seq<T>, b: seq<T>)
    requires b != []
    ensures (a + b)[..|a|] + (a + b)[|a| + 1..] == a + b[1..]
    ensures a + b == a + [b[0]] + b[1..]
  {
  }

  /** How far the removal of `item` from `all` has come: `done` has been looked at and `todo` has not,
      and the list is `now`. */
  ghost predicate Removing<T>(all: seq<Cell<T>>, item: T, done: seq<Cell<T>>, todo: seq<Cell<T>>,
                              kept: seq<Cell<T>>, now: seq<Cell<T>>, calls: seq<Call<T>>) {
    && all == done + todo && now == kept + todo
    && kept == Surviving(done, item) && calls == Calls(Matching(done, item))
  }

  /** A matching cell is freed, with its deconstructor called. */
  lemma RemovalFrees<T>(all: seq<Cell<T>>, item: T, done: seq<Cell<T>>, todo: seq<Cell<T>>,
                        kept: seq<Cell<T>>, now: seq<Cell<T>>, calls: seq<Call<T>>)
    requires Removing(all, item, done, todo, kept, now, calls) && todo != [] && todo[0].item == item
    ensures Removing(all, item, done + [todo[0]], todo[1..], kept, now[..|kept|] + now[|kept| + 1..],
                     calls + CallsOf(todo[0]))
  {
    DropMiddle(done, todo);
    DropMiddle(kept, todo);
    SurvivingSnoc(done, todo[0], item);
    MatchingSnoc(done, todo[0], item);
    CallsSnoc(Matching(done, item), todo[0]);
  }

  /** Any other cell is kept. */
  lemma RemovalKeeps<T>(all: seq<Cell<T>>, item: T, done: seq<Cell<T>>, todo: seq<Cell<T>>,
                        kept: seq<Cell<T>>, now: seq<Cell<T>>, calls: seq<Call<T>>)
    requires Removing(all, item, done, todo, kept, now, calls) && todo != [] && todo[0].item != item
    ensures Removing(all, item, done + [todo[0]], todo[1..], kept + [todo[0]], now, calls)
  {
    DropMiddle(done, todo);
    DropMiddle(kept, todo);
    SurvivingSnoc(done, todo[0], item);
    MatchingSnoc(done, todo[0], item);
  }

  lemma RemovalEnds<T>(all: seq<Cell<T>>, item: T, done: seq<Cell<T>>, todo: seq<Cell<T>>,
                       kept: seq<Cell<T>>, now: seq<Cell<T>>, calls: seq<Call<T>>)
    requires Removing(all, item, done, todo, kept, now, calls) && |kept| == |now|
    ensures now == Surviving(all, item) && calls == Calls(Matching(all, item))
  {
    assert todo == [] && all == done && now == kept;
  }

  class List<T(==)> {
    var head: Node?<T>
    ghost var spine: seq<Node<T>>
    ghost var cells: seq<Cell<T>>
    /** The nodes this list may write to, those already freed included. */
    ghost var nodes: set<Node<T>>

    ghost predicate Valid()
      reads this, nodes
    {
      && (forall i :: 0 <= i < |spine| ==> spine[i] in nodes)
      && |cells| == |spine|
      && head == NodeAt(0)
      && (forall i {:trigger spine[i].next} :: 0 <= i < |spine| ==> spine[i].next == NodeAt(i + 1))
      && (forall i :: 0 <= i < |spine| ==> cells[i] == Cell(spine[i].item, spine[i].deconstructor))
    }

    ghost function NodeAt(i: nat): Node?<T>
      reads this`spine
    {
      if i < |spine| then spine[i] else null
    }

    ghost function NodeBefore(i: nat): Node?<T>
      reads this`spine
    {
      if i == 0 then null else NodeAt(i - 1)
    }

    /** The chain ends, so it never comes back to a node. */
    lemma {:induction false} NodesDistinct(i: nat, j: nat)
      requires Valid() && i < j < |spine|
      ensures spine[i] != spine[j]
      decreases |spine| - j
    {
      if spine[i] == spine[j] {
        assert spine[i].next == NodeAt(i + 1) == NodeAt(j + 1);
        NodesDistinct(i + 1, j + 1);
      }
    }

    /** lf_ll_create. */
    constructor ()
      ensures Valid() && cells == [] && spine == [] && nodes == {}
    {
      head, spine, cells, nodes := null, [], [], {};
    }

    /** lf_ll_count. */
    method Count() returns (count: nat)
      requires Valid()
      ensures count == |cells|
    {
      var ll := head;
      count := 0;
      while ll != null
        invariant count <= |spine| && ll == NodeAt(count)
        decreases |spine| - count
      {
        ll := ll.next;
        count := count + 1;
      }
    }

    /** The walk to the last node that appending and concatenating share. */
    method Last() returns (node: Node<T>)
      requires Valid() && head != null
      ensures |spine| > 0 && node == spine[|spine| - 1]
      ensures forall i :: 0 <= i < |spine| - 1 ==> spine[i] != node
    {
      node := head;
      ghost var i := 0;
      while node.next != null
        invariant 0 <= i < |spine| && node == spine[i]
        decreases |spine| - i
      {
        node := node.next;
        i := i + 1;
      }
      assert forall k :: 0 <= k < |spine| - 1 ==> spine[k].next == NodeAt(k + 1) != null;
    }

    /** lf_ll_append. */
    method Append(item: T, deconstructor: Option<nat>)
      requires Valid()
      modifies this, nodes`next
      ensures Valid() && cells == old(cells) + [Cell(item, deconstructor)]
      ensures fresh(nodes - old(nodes)) && old(nodes) <= nodes
    {
      var node := new Node(item, deconstructor);
      if head != null {
        var last := Last();
        last.next := node;
      } else {
        head := node;
      }
      spine, cells, nodes := spine + [node], cells + [Cell(item, deconstructor)], nodes + {node};
    }

    /** lf_ll_concat. The nodes of `other` become shared. */
    method Concat(other: List<T>)
      requires Valid() && other.Valid() && other != this
      requires nodes !! other.nodes
      modifies this, nodes`next
      ensures Valid() && cells == old(cells) + other.cells
      ensures nodes == old(nodes) + other.nodes
      ensures other.Valid() && other.cells == old(other.cells)
    {
      if head != null {
        var last := Last();
        last.next := other.head;
      } else {
        head := other.head;
      }
      spine, cells, nodes := spine + other.spine, cells + other.cells, nodes + other.nodes;
    }

    /** The items, as a callee finds them that walks the list. */
    method Walk() returns (items: seq<T>)
      requires Valid()
      ensures |items| == |cells| && forall i :: 0 <= i < |items| ==> items[i] == cells[i].item
    {
      var ll := head;
      items := [];
      while ll != null
        invariant |items| <= |spine| && ll == NodeAt(|items|)
        invariant forall i :: 0 <= i < |items| ==> items[i] == cells[i].item
        decreases |spine| - |items|
      {
        items := items + [ll.item];
        ll := ll.next;
      }
    }

    /** lf_ll_item. */
    method Item(index: nat) returns (item: Option<T>)
      requires Valid()
      ensures item == if index < |cells| then Some(cells[index].item) else None
    {
      var ll, left := head, index;
      while left != 0 && ll != null
        invariant 0 <= left <= index && index - left <= |spine|
        invariant ll == NodeAt(index - left)
        decreases left
      {
        ll := ll.next;
        left := left - 1;
      }
      if ll == null {
        return None;
      }
      return Some(ll.item);
    }

    /** Takes the node at position `j` out of the chain. */
    method Unlink(prev: Node?<T>, node: Node<T>, ghost j: nat)
      requires Valid() && j < |spine| && node == spine[j]
      requires prev == NodeBefore(j)
      modifies this, nodes`next
      ensures Valid() && spine == old(spine)[..j] + old(spine)[j + 1..]
      ensures cells == old(cells)[..j] + old(cells)[j + 1..]
      ensures (if prev == null then head else prev.next) == NodeAt(j)
      ensures prev == NodeBefore(j)
      ensures nodes == old(nodes)
    {
      forall i | 0 <= i < |spine| && i != j - 1 ensures j == 0 || spine[i] != spine[j - 1] {
        if 0 <= i < j - 1 { NodesDistinct(i, j - 1); }
        if i > j - 1 >= 0 { NodesDistinct(j - 1, i); }
      }
      if prev != null {
        prev.next := node.next;
      } else {
        head := node.next;
      }
      spine, cells := spine[..j] + spine[j + 1..], cells[..j] + cells[j + 1..];
    }

    /** Where the loop of lf_ll_remove stands: at position `j`, with the node before it. */
    ghost predicate Cursor(j: nat, prev: Node?<T>, current: Node?<T>)
      reads this, nodes
    {
      Valid() && j <= |spine| && current == NodeAt(j) && prev == NodeBefore(j)
    }

    lemma AtCell(j: nat, prev: Node?<T>, current: Node<T>)
      requires Cursor(j, prev, current)
      ensures j < |cells| && cells[j] == Cell(current.item, current.deconstructor)
      ensures Cursor(j + 1, current, current.next)
    {
    }

    lemma AtEnd(j: nat, prev: Node?<T>)
      requires Cursor(j, prev, null)
      ensures j == |cells|
    {
    }

    /** The branch of lf_ll_remove that frees the node it stands at. */
    method FreeAt(prev: Node?<T>, current: Node<T>, ghost j: nat, ghost rest: seq<Cell<T>>, ghost freed: seq<Call<T>>)
      returns (next: Node?<T>, calls: seq<Call<T>>)
      requires Cursor(j, prev, current) && j < |cells|
      requires rest == cells[..j] + cells[j + 1..] && freed == CallsOf(cells[j])
      modifies this, nodes`next
      ensures Cursor(j, prev, next) && nodes == old(nodes)
      ensures cells == rest && calls == freed
    {
      AtCell(j, prev, current);
      Unlink(prev, current, j);
      calls := [];
      if current.deconstructor.Some? { calls := [Call(current.deconstructor.value, current.item)]; }
      next := if prev != null then prev.next else head;
    }

    /** One turn of the loop of lf_ll_remove. */
    method RemoveTurn(item: T, prev: Node?<T>, current: Node<T>, calls: seq<Call<T>>,
                      ghost all: seq<Cell<T>>, ghost done: seq<Cell<T>>, ghost todo: seq<Cell<T>>, ghost kept: seq<Cell<T>>)
      returns (prev': Node?<T>, current': Node?<T>, calls': seq<Call<T>>, ghost kept': seq<Cell<T>>)
      requires Cursor(|kept|, prev, current) && Removing(all, item, done, todo, kept, cells, calls)
      modifies this, nodes`next
      ensures Cursor(|kept'|, prev', current') && nodes == old(nodes)
      ensures todo != [] && Removing(all, item, done + [todo[0]], todo[1..], kept', cells, calls')
    {
      AtCell(|kept|, prev, current);
      assert todo[0] == cells[|kept|];
      if current.item == item {
        RemovalFrees(all, item, done, todo, kept, cells, calls);
        ghost var rest := cells[..|kept|] + cells[|kept| + 1..];
        var next, freed := FreeAt(prev, current, |kept|, rest, CallsOf(todo[0]));
        return prev, next, calls + freed, kept;
      } else {
        RemovalKeeps(all, item, done, todo, kept, cells, calls);
        return current, current.next, calls, kept + [todo[0]];
      }
    }

    /** lf_ll_remove. Returns the deconstructor calls it makes. */
    method Remove(item: T) returns (calls: seq<Call<T>>)
      requires Valid()
      modifies this, nodes`next
      ensures Valid() && cells == Surviving(old(cells), item)
      ensures calls == Calls(Matching(old(cells), item)) && CalledOnceEach(Matching(old(cells), item), calls)
      ensures nodes == old(nodes)
    {
      var prev: Node?<T>, current := null, head;
      calls := [];
      ghost var all, kept, done, todo := cells, [], [], cells;
      while current != null
        invariant Removing(all, item, done, todo, kept, cells, calls) && nodes == old(nodes)
        invariant Cursor(|kept|, prev, current)
        decreases |todo|
      {
        prev, current, calls, kept := RemoveTurn(item, prev, current, calls, all, done, todo, kept);
        done, todo := done + [todo[0]], todo[1..];
      }
      AtEnd(|kept|, prev);
      RemovalEnds(all, item, done, todo, kept, cells, calls);
      CallsOnceEach(Matching(all, item));
    }

    /** The list pointer moves on from the node about to be freed. */
    method DropHead()
      requires Valid() && head != null
      modifies this
      ensures Valid() && cells == old(cells)[1..] && nodes == old(nodes)
    {
      ghost var before := spine;
      head := head.next;
      spine, cells := spine[1..], cells[1..];
      forall i | 0 <= i < |spine| ensures spine[i].next == NodeAt(i + 1) {
        assert spine[i] == before[i + 1];
      }
    }

    /** lf_ll_release. Returns the deconstructor calls it makes. */
    method Release() returns (calls: seq<Call<T>>)
      requires Valid()
      modifies this
      ensures Valid() && cells == [] && nodes == old(nodes)
      ensures calls == Calls(old(cells)) && CalledOnceEach(old(cells), calls)
    {
      calls := [];
      ghost var done := [];
      while head != null
        invariant Valid() && old(cells) == done + cells && nodes == old(nodes)
        invariant calls == Calls(done)
        decreases |cells|
      {
        ghost var c := cells[0];
        CallsSnoc(done, c);
        DropMiddle(done, cells);
        if head.deconstructor.Some? { calls := calls + [Call(head.deconstructor.value, head.item)]; }
        DropHead();
        done := done + [c];
      }
      assert old(cells) == done;
      CallsOnceEach(done);
    }
  }

  // ---- What removal keeps and frees ------------------------------------------------------

  /** Removal splits the list: every cell is either freed or kept. */
  lemma {:induction false} RemovalConserves<T>(cells: seq<Cell<T>>, item: T)
    ensures multiset(cells) == multiset(Matching(cells, item)) + multiset(Surviving(cells, item))
    ensures forall c :: c in Matching(cells, item) ==> c.item == item
    ensures forall c :: c in Surviving(cells, item) ==> c.item != item
  {
    if cells != [] {
      var n := |cells| - 1;
      RemovalConserves(cells[..n], item);
      assert cells == cells[..n] + [cells[n]];
    }
  }

  /** The kept cells keep their order, and so do the freed ones: they sit at increasing positions of the
      old list. */
  ghost predicate Picks<T>(from: seq<nat>, cells: seq<Cell<T>>, kept: seq<Cell<T>>) {
    && |from| == |kept|
    && (forall i :: 0 <= i < |from| ==> from[i] < |cells| && kept[i] == cells[from[i]])
    && (forall i, j :: 0 <= i < j < |from| ==> from[i] < from[j])
  }

  lemma PicksLast<T>(from: seq<nat>, cells: seq<Cell<T>>, kept: seq<Cell<T>>, c: Cell<T>)
    requires Picks(from, cells, kept)
    ensures Picks(from + [|cells|], cells + [c], kept + [c])
  {
  }

  lemma PicksSkip<T>(from: seq<nat>, cells: seq<Cell<T>>, kept: seq<Cell<T>>, c: Cell<T>)
    requires Picks(from, cells, kept)
    ensures Picks(from, cells + [c], kept)
  {
  }

  lemma {:induction false} RemovalKeepsOrder<T>(cells: seq<Cell<T>>, item: T) returns (from: seq<nat>, freed: seq<nat>)
    ensures Picks(from, cells, Surviving(cells, item))
    ensures Picks(freed, cells, Matching(cells, item))
  {
    from, freed := [], [];
    if cells != [] {
      var n := |cells| - 1;
      var init, c := cells[..n], cells[n];
      assert cells == init + [c];
      SurvivingSnoc(init, c, item);
      MatchingSnoc(init, c, item);
      from, freed := RemovalKeepsOrder(init, item);
      if c.item == item {
        PicksSkip(from, init, Surviving(init, item), c);
        PicksLast(freed, init, Matching(init, item), c);
        freed := freed + [n];
      } else {
        PicksLast(from, init, Surviving(init, item), c);
        PicksSkip(freed, init, Matching(init, item), c);
        from := from + [n];
      }
    }
  }
}
