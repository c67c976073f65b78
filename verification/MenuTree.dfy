/** struct menu: nodes linked by list, next and parent pointers, and the tree such pointers represent. */
module MenuTree {
  /** a menu node: its address. Nodes are numbered in the order menu_add_entry allocates them. */
  type Menu = nat

  datatype Ptr = Null | To(menu: Menu)

  const ROOT: Menu := 0

  /** the three pointers of every node */
  datatype Links = Links(list: map<Menu, Ptr>, next: map<Menu, Ptr>, parent: map<Menu, Ptr>)

  ghost predicate Allocated(h: Links, m: Menu) { m in h.list && m in h.next && m in h.parent }

  /** a chain of siblings with their children, first child and next sibling as in the pointers */
  datatype Forest = Nil | Node(menu: Menu, kids: Forest, rest: Forest)

  function Append(f: Forest, g: Forest): Forest {
    match f
    case Nil => g
    case Node(m, k, r) => Node(m, k, Append(r, g))
  }

  /** the nodes in source order: a node before its children, these before its later siblings */
  function Preorder(f: Forest): seq<Menu> {
    match f
    case Nil => []
    case Node(m, k, r) => [m] + Preorder(k) + Preorder(r)
  }

  function Count(f: Forest): nat {
    match f
    case Nil => 0
    case Node(_, k, r) => 1 + Count(k) + Count(r)
  }

  function Nodes(f: Forest): set<Menu> {
    match f
    case Nil => {}
    case Node(m, k, r) => {m} + Nodes(k) + Nodes(r)
  }

  ghost predicate Distinct(f: Forest) {
    match f
    case Nil => true
    case Node(m, k, r) => m !in Nodes(k) + Nodes(r) && Nodes(k) !! Nodes(r) && Distinct(k) && Distinct(r)
  }

  /** The chain that starts at pointer a and ends where the pointer is e is f, and the parent of its top level
      is p. */
  ghost predicate Chain(h: Links, f: Forest, a: Ptr, p: Menu, e: Ptr) {
    match f
    case Nil => a == e
    case Node(m, k, r) =>
      && a == To(m) && Allocated(h, m) && h.parent[m] == To(p)
      && Chain(h, k, h.list[m], m, Null) && Chain(h, r, h.next[m], p, e)
  }

  /** the last node of the top level */
  function Last(f: Forest): Menu
    requires f.Node?
  {
    if f.rest.Nil? then f.menu else Last(f.rest)
  }

  /** h and g agree on the nodes in s */
  ghost predicate SameOn(h: Links, g: Links, s: set<Menu>) {
    forall m <- s :: Allocated(h, m) ==> Allocated(g, m) && g.list[m] == h.list[m] && g.next[m] == h.next[m] && g.parent[m] == h.parent[m]
  }

  lemma {:induction false} ChainFrame(h: Links, g: Links, f: Forest, a: Ptr, p: Menu, e: Ptr)
    requires Chain(h, f, a, p, e) && SameOn(h, g, Nodes(f))
    ensures Chain(g, f, a, p, e)
  {
    if f.Node? {
      ChainFrame(h, g, f.kids, h.list[f.menu], f.menu, Null);
      ChainFrame(h, g, f.rest, h.next[f.menu], p, e);
    }
  }

  lemma {:induction false} AppendFacts(f: Forest, g: Forest)
    ensures Preorder(Append(f, g)) == Preorder(f) + Preorder(g)
    ensures Nodes(Append(f, g)) == Nodes(f) + Nodes(g)
    ensures Count(Append(f, g)) == Count(f) + Count(g)
  {
    if f.Node? {
      AppendFacts(f.rest, g);
    }
  }

  lemma {:induction false} AppendDistinct(f: Forest, g: Forest)
    ensures Nodes(Append(f, g)) == Nodes(f) + Nodes(g)
    ensures Distinct(Append(f, g)) <==> Distinct(f) && Distinct(g) && Nodes(f) !! Nodes(g)
  {
    if f.Node? {
      AppendDistinct(f.rest, g);
      DisjointUnion(f.menu, Nodes(f.kids), Nodes(f.rest), Nodes(g));
      hide Nodes;
    }
  }

  lemma DisjointUnion(m: Menu, k: set<Menu>, r: set<Menu>, g: set<Menu>)
    ensures {m} + k + (r + g) == ({m} + k + r) + g
    ensures (m !in k + (r + g) && k !! r + g) && r !! g
       <==> (m !in k + r && k !! r) && {m} + k + r !! g
  {
  }

  lemma {:induction false} AppendAssociative(f: Forest, g: Forest, x: Forest)
    ensures Append(Append(f, g), x) == Append(f, Append(g, x))
    ensures Append(f, Nil) == f
  {
    if f.Node? {
      AppendAssociative(f.rest, g, x);
    }
  }

  /** two chains, one after the other, are one chain */
  lemma {:induction false} ChainAppend(h: Links, f: Forest, g: Forest, a: Ptr, b: Ptr, p: Menu, e: Ptr)
    requires Chain(h, f, a, p, b) && Chain(h, g, b, p, e)
    ensures Chain(h, Append(f, g), a, p, e)
  {
    if f.Node? {
      ChainAppend(h, f.rest, g, h.next[f.menu], b, p, e);
    }
  }

  /** redirecting the last next pointer */
  lemma {:induction false} ChainRedirect(h: Links, f: Forest, a: Ptr, p: Menu, e: Ptr, e': Ptr)
    requires f.Node? && Distinct(f) && Chain(h, f, a, p, e) && Last(f) in h.next
    ensures Chain(h.(next := h.next[Last(f) := e']), f, a, p, e')
  {
    var g := h.(next := h.next[Last(f) := e']);
    LastIn(f);
    ChainFrame(h, g, f.kids, h.list[f.menu], f.menu, Null);
    if f.rest.Node? {
      LastIn(f.rest);
      ChainRedirect(h, f.rest, h.next[f.menu], p, e, e');
    }
  }

  lemma {:induction false} LastIn(f: Forest)
    requires f.Node?
    ensures Last(f) in Nodes(f)
    ensures Distinct(f) && f.rest.Node? ==> Last(f) in Nodes(f.rest) && Last(f) != f.menu && Last(f) !in Nodes(f.kids)
    ensures Distinct(f) ==> Last(f) !in Nodes(f.kids)
  {
    if f.rest.Node? {
      LastIn(f.rest);
    }
  }

  lemma {:induction false} PreorderFacts(f: Forest)
    ensures |Preorder(f)| == Count(f) && forall m :: m in Preorder(f) <==> m in Nodes(f)
  {
    if f.Node? {
      PreorderFacts(f.kids);
      PreorderFacts(f.rest);
    }
  }
}
