/** Module registration of lib/dyld.c: names, indices and the two ways of looking a module up. */
module Registry {
  import opened Options
  import opened LinkedList
  import Fmr

  const UINT16_MAX := 0xFFFF

  datatype Entry = Entry(name: string, idx: int)

  // ---- As a value -------------------------------------------------------------------------------

  /** The position of the first entry of that name. */
  function FindName(reg: seq<Entry>, name: string): (r: Option<nat>)
    ensures r.Some? ==> r.value < |reg| && reg[r.value].name == name
    ensures r.Some? ==> forall i :: 0 <= i < r.value ==> reg[i].name != name
    ensures r.None? ==> forall i :: 0 <= i < |reg| ==> reg[i].name != name
  {
    if reg == [] then None
    else if reg[0].name == name then Some(0)
    else match FindName(reg[1..], name)
      case None => None
      case Some(i) => Some(i + 1)
  }

  /** dyld_register: a name already present is left alone, and an index of UINT16_MAX asks for
      the position. */
  function Register(reg: seq<Entry>, e: Entry): seq<Entry> {
    if FindName(reg, e.name).Some? then reg
    else reg + [Entry(e.name, if e.idx == UINT16_MAX then |reg| % 0x10000 else e.idx)]
  }

  function RegisterAll(reg: seq<Entry>, requests: seq<Entry>): seq<Entry>
    decreases |requests|
  {
    if requests == [] then reg else RegisterAll(Register(reg, requests[0]), requests[1..])
  }

  ghost predicate NamesDistinct(reg: seq<Entry>) {
    forall i, j :: 0 <= i < j < |reg| ==> reg[i].name != reg[j].name
  }

  ghost predicate IndexedByPosition(reg: seq<Entry>) {
    forall i :: 0 <= i < |reg| ==> reg[i].idx == i % 0x10000
  }

  lemma RegisterKeepsNames(reg: seq<Entry>, e: Entry)
    requires NamesDistinct(reg)
    ensures NamesDistinct(Register(reg, e)) && reg <= Register(reg, e)
    ensures FindName(Register(reg, e), e.name).Some?
  {
    var next := Register(reg, e);
    if FindName(reg, e.name).None? {
      assert next[|next| - 1].name == e.name;
    }
  }

  lemma FoundInExtension(reg: seq<Entry>, r: seq<Entry>, name: string)
    requires reg <= r && FindName(reg, name).Some?
    ensures FindName(r, name).Some?
  {
    var i := FindName(reg, name).value;
    assert r[i] == reg[i];
  }

  /** Whatever indices modules ask for, no name is registered twice, nothing registered is lost
      or moved, and every requested name is there in the end. */
  lemma {:induction false} NamesStayDistinct(reg: seq<Entry>, requests: seq<Entry>)
    requires NamesDistinct(reg)
    ensures var r := RegisterAll(reg, requests);
            && NamesDistinct(r) && reg <= r
            && (forall k :: 0 <= k < |requests| ==> FindName(r, requests[k].name).Some?)
    decreases |requests|
  {
    if requests != [] {
      var next := Register(reg, requests[0]);
      RegisterKeepsNames(reg, requests[0]);
      NamesStayDistinct(next, requests[1..]);
      FoundInExtension(next, RegisterAll(reg, requests), requests[0].name);
      forall k | 0 < k < |requests| ensures FindName(RegisterAll(reg, requests), requests[k].name).Some? {
        assert requests[1..][k - 1] == requests[k];
      }
    }
  }

  lemma {:induction false} PositionsAssigned(reg: seq<Entry>, requests: seq<Entry>)
    requires IndexedByPosition(reg)
    requires forall k :: 0 <= k < |requests| ==> requests[k].idx == UINT16_MAX
    ensures IndexedByPosition(RegisterAll(reg, requests))
    decreases |requests|
  {
    if requests != [] {
      PositionsAssigned(Register(reg, requests[0]), requests[1..]);
    }
  }

  lemma FoundFirst(reg: seq<Entry>, name: string, i: nat)
    requires i < |reg| && reg[i].name == name && forall k :: 0 <= k < i ==> reg[k].name != name
    ensures FindName(reg, name) == Some(i)
  {
    assert FindName(reg, name).Some?;
  }

  /** A new module goes to the end of the list, with the index it brings, or its position if it asks for
      that; a name that is there already is left as it was. */
  lemma RegisterMeans(reg: seq<Entry>, e: Entry)
    ensures var r, was := Register(reg, e), FindName(reg, e.name);
            if was.Some? then r == reg
            else
              && |r| == |reg| + 1 && reg <= r && FindName(r, e.name) == Some(|reg|)
              && r[|reg|].idx == if e.idx == UINT16_MAX then |reg| % 0x10000 else e.idx
  {
    var r := Register(reg, e);
    if FindName(reg, e.name).None? { FoundFirst(r, e.name, |reg|); }
  }

  lemma StaysFound(reg: seq<Entry>, r: seq<Entry>, name: string)
    requires reg <= r && FindName(reg, name).Some?
    ensures FindName(r, name) == FindName(reg, name)
  {
    var i := FindName(reg, name).value;
    forall k | 0 <= k < i ensures r[k].name != name { assert r[k] == reg[k]; }
    assert r[i] == reg[i];
    FoundFirst(r, name, i);
  }

  /** Over any requests, a module keeps the index it brings: the first request of a name that is not
      registered yet decides which index the name has from then on. */
  lemma {:induction false} OwnIndexKept(reg: seq<Entry>, requests: seq<Entry>, k: nat)
    requires NamesDistinct(reg) && k < |requests| && requests[k].idx != UINT16_MAX
    requires FindName(reg, requests[k].name).None?
    requires forall j :: 0 <= j < k ==> requests[j].name != requests[k].name
    ensures var r := RegisterAll(reg, requests); var i := FindName(r, requests[k].name);
            i.Some? && i.value >= |reg| && r[i.value].idx == requests[k].idx
    decreases |requests|
  {
    var e, next, rest := requests[0], Register(reg, requests[0]), requests[1..];
    RegisterMeans(reg, e);
    RegisterKeepsNames(reg, e);
    NamesStayDistinct(next, rest);
    if k == 0 {
      StaysFound(next, RegisterAll(next, rest), e.name);
    } else {
      assert rest[k - 1] == requests[k];
      assert forall j :: 0 <= j < k - 1 ==> rest[j] == requests[j + 1];
      NotAddedYet(reg, e, requests[k].name);
      OwnIndexKept(next, rest, k - 1);
    }
  }

  lemma NotAddedYet(reg: seq<Entry>, e: Entry, name: string)
    requires FindName(reg, name).None? && e.name != name
    ensures FindName(Register(reg, e), name).None?
  {
    var i := FindName(Register(reg, e), name);
    if i.Some? && i.value < |reg| { assert reg[i.value].name != name; }
  }

  lemma LowByteOfIndex(i: nat)
    ensures (i % 0x10000) % 256 == i % 256 <= i
    ensures i < 256 ==> i % 0x10000 == i % 256 == i
    ensures i >= 256 ==> i % 256 < i
  {
  }

  /** The two lookups agree: from an empty registry and modules that ask for their position, the
      entry found by name is the one at the position its index gives, as the 8-bit module field
      of a call carries it, exactly when it is among the first 256. */
  lemma LookupsAgreeIff(requests: seq<Entry>, name: string)
    requires forall k :: 0 <= k < |requests| ==> requests[k].idx == UINT16_MAX
    requires FindName(RegisterAll([], requests), name).Some?
    ensures var reg := RegisterAll([], requests);
            var i := FindName(reg, name).value;
            var field := reg[i].idx % 256;
            && field < |reg|
            && (reg[field] == reg[i] <==> i < 256)
            && (i < 256 ==> field == i == reg[i].idx)
  {
    NamesStayDistinct([], requests);
    PositionsAssigned([], requests);
    var reg := RegisterAll([], requests);
    var i := FindName(reg, name).value;
    assert reg[i].idx == i % 0x10000;
    LowByteOfIndex(i);
    if i >= 256 {
      assert reg[i % 256].name != reg[i].name;
    }
  }

  // ---- On the heap -----------------------------------------------------------------------------

  class Module {
    const name: string
    const table: seq<Fmr.Fn>
    var idx: int

    constructor (name: string, table: seq<Fmr.Fn>, idx: int)
      ensures this.name == name && this.table == table && this.idx == idx
    {
      this.name, this.table, this.idx := name, table, idx;
    }
  }

  class Modules {
    const list: List<Module>
    /** The entries of the modules in list order. */
    ghost var entries: seq<Entry>

    ghost predicate Valid()
      reads this, list, list.nodes, Items()
    {
      && list.Valid()
      && |entries| == |list.cells|
      && forall i :: 0 <= i < |entries| ==>
           var m := list.cells[i].item; entries[i] == Entry(m.name, m.idx)
    }

    ghost function Items(): set<Module>
      reads list
    {
      set i | 0 <= i < |list.cells| :: list.cells[i].item
    }

    constructor ()
      ensures Valid() && entries == [] && fresh(list)
    {
      list := new List<Module>();
      entries := [];
    }

    /** lf_module_get_by_name. */
    method GetByName(name: string) returns (m: Module?)
      requires Valid()
      ensures match FindName(entries, name)
              case None => m == null
              case Some(i) => m == list.cells[i].item
    {
      var count := list.Count();
      for i := 0 to count
        invariant forall k :: 0 <= k < i ==> entries[k].name != name
      {
        var item := list.Item(i);
        if item.value.name == name {
          return item.value;
        }
      }
      return null;
    }

    /** lf_module_get_by_index. */
    method GetByIndex(index: nat) returns (m: Module?)
      requires Valid() && index < 256
      ensures m == if index < |list.cells| then list.cells[index].item else null
    {
      var node := list.head;
      var i := 0;
      while node != null && i < index
        invariant 0 <= i <= index && i <= |list.spine| && node == list.NodeAt(i)
        decreases index - i
      {
        node := node.next;
        i := i + 1;
      }
      if node == null {
        return null;
      }
      return node.item;
    }

    /** dyld_register. */
    method Add(m: Module)
      requires Valid()
      modifies this, list, list.nodes, m`idx
      ensures Valid() && entries == Register(old(entries), Entry(m.name, old(m.idx)))
      ensures old(list.nodes) <= list.nodes && fresh(list.nodes - old(list.nodes))
    {
      var existing := GetByName(m.name);
      if existing != null {
        return;
      }
      if m.idx == UINT16_MAX {
        var count := list.Count();
        m.idx := count % 0x10000;
      }
      list.Append(m, Some(0));
      entries := entries + [Entry(m.name, m.idx)];
    }
  }
}
