/** Where the parser may add the next menu entry, and what adding one does to the tree. */
module MenuBuilding {
  import opened MenuTree

  /** what last_entry_ptr points to: the list or the next pointer of a node */
  datatype Slot = ListOf(menu: Menu) | NextOf(menu: Menu)

  /** the last node in source order among f, which are the children of owner, or owner if there are none */
  function Latest(f: Forest, owner: Menu): Menu {
    match f
    case Nil => owner
    case Node(m, k, r) => if r.Nil? then Latest(k, m) else Latest(r, owner)
  }

  /** The parser's position in f, the children of owner: entry is the node added last, current an ancestor of it
      or entry itself, and slot where the next child of current goes. */
  ghost predicate Position(f: Forest, owner: Menu, slot: Slot, current: Menu, entry: Menu) {
    match f
    case Nil => slot == ListOf(owner) && current == owner && entry == owner
    case Node(m, k, r) =>
      if r.Node? then Position(r, owner, slot, current, entry)
      else
        || (slot == NextOf(m) && current == owner && entry == Latest(k, m))
        || Position(k, m, slot, current, entry)
  }

  /** f with the new node n in the slot */
  ghost function Insert(f: Forest, slot: Slot, n: Menu): Forest {
    match f
    case Nil => Node(n, Nil, Nil)
    case Node(m, k, r) =>
      if r.Node? || slot == NextOf(m) then Node(m, k, Insert(r, slot, n)) else Node(m, Insert(k, slot, n), Nil)
  }

  /** the pointers with a new node n below current, reached through the slot */
  function Added(h: Links, slot: Slot, current: Menu, n: Menu): (g: Links) {
    var g := Links(h.list[n := Null], h.next[n := Null], h.parent[n := To(current)]);
    match slot
    case ListOf(m) => g.(list := g.list[m := To(n)])
    case NextOf(m) => g.(next := g.next[m := To(n)])
  }

  /** A new node comes last in source order. */
  lemma {:induction false} InsertLast(f: Forest, owner: Menu, slot: Slot, current: Menu, entry: Menu, n: Menu)
    requires Position(f, owner, slot, current, entry) && Distinct(f) && n !in Nodes(f)
    ensures Preorder(Insert(f, slot, n)) == Preorder(f) + [n]
    ensures Nodes(Insert(f, slot, n)) == Nodes(f) + {n} && Distinct(Insert(f, slot, n))
  {
    if f.Node? {
      if f.rest.Node? {
        InsertLast(f.rest, owner, slot, current, entry, n);
      } else if slot != NextOf(f.menu) {
        InsertLast(f.kids, f.menu, slot, current, entry, n);
      } else {
        assert Insert(f.rest, slot, n) == Node(n, Nil, Nil);
      }
    }
  }

  lemma {:induction false} SlotInside(f: Forest, owner: Menu, slot: Slot, current: Menu, entry: Menu)
    requires Position(f, owner, slot, current, entry)
    ensures f.Node? ==> slot.menu in Nodes(f)
    ensures f.Nil? ==> slot == ListOf(owner)
  {
    if f.Node? {
      if f.rest.Node? {
        SlotInside(f.rest, owner, slot, current, entry);
      } else if slot != NextOf(f.menu) {
        SlotInside(f.kids, f.menu, slot, current, entry);
      }
    }
  }

  /** Writing through the slot yields the pointers of the tree with the new node. */
  lemma {:induction false} InsertChain(h: Links, f: Forest, a: Ptr, owner: Menu, slot: Slot, current: Menu, entry: Menu, n: Menu)
    requires Position(f, owner, slot, current, entry) && Distinct(f) && owner !in Nodes(f) && n !in Nodes(f) && n != owner
    requires Chain(h, f, a, owner, Null) && Allocated(h, owner)
    ensures Chain(Added(h, slot, current, n), Insert(f, slot, n), if f.Nil? then To(n) else a, owner, Null)
  {
    var g := Added(h, slot, current, n);
    SlotInside(f, owner, slot, current, entry);
    if f.Node? {
      if f.rest.Node? {
        SlotInside(f.rest, owner, slot, current, entry);
        ChainFrame(h, g, f.kids, h.list[f.menu], f.menu, Null);
        InsertChain(h, f.rest, h.next[f.menu], owner, slot, current, entry, n);
      } else if slot != NextOf(f.menu) {
        SlotInside(f.kids, f.menu, slot, current, entry);
        InsertChain(h, f.kids, h.list[f.menu], f.menu, slot, current, entry, n);
      } else {
        NotBelow(f.kids, f.menu, slot, current, entry);
        ChainFrame(h, g, f.kids, h.list[f.menu], f.menu, Null);
        assert Insert(f.rest, slot, n) == Node(n, Nil, Nil);
      }
    }
  }

  lemma {:induction false} AfterInsert(f: Forest, owner: Menu, slot: Slot, current: Menu, entry: Menu, n: Menu)
    requires Position(f, owner, slot, current, entry) && Distinct(f) && n !in Nodes(f) && n != owner
    ensures Position(Insert(f, slot, n), owner, NextOf(n), current, n)
  {
    if f.Node? {
      if f.rest.Node? {
        AfterInsert(f.rest, owner, slot, current, entry, n);
      } else if slot != NextOf(f.menu) {
        AfterInsert(f.kids, f.menu, slot, current, entry, n);
      } else {
        SlotInside(f, owner, slot, current, entry);
        NotBelow(f.kids, f.menu, slot, current, entry);
        assert Insert(f.rest, slot, n) == Node(n, Nil, Nil);
      }
    }
  }

  /** the slot next to a node is not a position below it */
  lemma {:induction false} NotBelow(f: Forest, owner: Menu, slot: Slot, current: Menu, entry: Menu)
    requires slot == NextOf(owner) && owner !in Nodes(f)
    ensures !Position(f, owner, slot, current, entry)
  {
    if Position(f, owner, slot, current, entry) {
      SlotInside(f, owner, slot, current, entry);
    }
  }

  lemma {:induction false} AtLatest(f: Forest, owner: Menu)
    ensures Position(f, owner, ListOf(Latest(f, owner)), Latest(f, owner), Latest(f, owner))
  {
    if f.Node? {
      if f.rest.Node? {
        AtLatest(f.rest, owner);
      } else {
        AtLatest(f.kids, f.menu);
      }
    }
  }

  lemma {:induction false} EntryIsLatest(f: Forest, owner: Menu, slot: Slot, current: Menu, entry: Menu)
    requires Position(f, owner, slot, current, entry)
    ensures entry == Latest(f, owner)
  {
    if f.Node? {
      if f.rest.Node? {
        EntryIsLatest(f.rest, owner, slot, current, entry);
      } else if Position(f.kids, f.menu, slot, current, entry) {
        EntryIsLatest(f.kids, f.menu, slot, current, entry);
      }
    }
  }

  /** Leaving the current menu leads to the position after it, in its parent. */
  lemma {:induction false} LeaveMenu(h: Links, f: Forest, a: Ptr, owner: Menu, slot: Slot, current: Menu, entry: Menu)
    requires Position(f, owner, slot, current, entry) && Chain(h, f, a, owner, Null) && current != owner
    ensures current in h.parent && h.parent[current].To?
    ensures Position(f, owner, NextOf(current), h.parent[current].menu, entry)
  {
    if f.Node? {
      if f.rest.Node? {
        LeaveMenu(h, f.rest, h.next[f.menu], owner, slot, current, entry);
      } else if current == f.menu {
        EntryIsLatest(f.kids, f.menu, slot, current, entry);
      } else {
        LeaveMenu(h, f.kids, h.list[f.menu], f.menu, slot, current, entry);
      }
    }
  }
}
