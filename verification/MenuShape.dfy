/** What menu_finalize does to the shape of the tree, as functions: automatic submenus are created below
    symbols, and blocks without a prompt are flattened. */
module MenuShape {
  import opened MenuTree

  /** Which nodes have a symbol, which have a prompt text, and whether menu_finalize absorbs an item into the
      submenu of a symbol. The decision itself is the subject of module Conditions, and what it means for the
      finished menu that of module Submenus. */
  datatype Items = Items(hasSymbol: set<Menu>, hasPrompt: set<Menu>, absorbs: (Menu, Menu) -> bool)

  /** menu_finalize on node m with children k and later siblings r: its children and siblings afterwards */
  function Finalize(it: Items, m: Menu, k: Forest, r: Forest): (x: (Forest, Forest))
    ensures Count(x.0) + Count(x.1) == Count(k) + Count(r)
    decreases Count(k) + Count(r), 1
  {
    if k.Node? then (Flatten(it, FinalizeAll(it, k)), r)
    else if m in it.hasSymbol then
      var (absorbed, left) := Absorb(it, m, r);
      (Flatten(it, absorbed), left)
    else (Nil, r)
  }

  /** menu_finalize on each node of a chain; a node may absorb later ones */
  function FinalizeAll(it: Items, f: Forest): (x: Forest)
    ensures Count(x) == Count(f)
    decreases Count(f), 0
  {
    match f
    case Nil => Nil
    case Node(m, k, r) =>
      var (k', r') := Finalize(it, m, k, r);
      Node(m, k', FinalizeAll(it, r'))
  }

  /** the items after p that go into its submenu, finalised one by one, and those that stay */
  function Absorb(it: Items, p: Menu, f: Forest): (x: (Forest, Forest))
    ensures Count(x.0) + Count(x.1) == Count(f)
    decreases Count(f), 0
  {
    match f
    case Nil => (Nil, Nil)
    case Node(m, k, r) =>
      if !it.absorbs(p, m) then (Nil, f) else
        var (k', r') := Finalize(it, m, k, r);
        var (more, left) := Absorb(it, p, r');
        (Node(m, k', more), left)
  }

  /** the children of nodes without a prompt text become their next siblings */
  function Flatten(it: Items, f: Forest): (x: Forest)
    ensures Count(x) == Count(f)
    decreases Count(f)
  {
    match f
    case Nil => Nil
    case Node(m, k, r) =>
      if k.Node? && m !in it.hasPrompt then
        AppendFacts(k, r);
        Node(m, Nil, Flatten(it, Append(k, r)))
      else Node(m, k, Flatten(it, r))
  }

  /** every node with children has a prompt text */
  ghost predicate Prompted(it: Items, f: Forest) {
    match f
    case Nil => true
    case Node(m, k, r) => (k.Node? ==> m in it.hasPrompt) && Prompted(it, k) && Prompted(it, r)
  }

  /** the same, except perhaps for the top level */
  ghost predicate PromptedBelow(it: Items, f: Forest) {
    match f
    case Nil => true
    case Node(m, k, r) => Prompted(it, k) && PromptedBelow(it, r)
  }

  lemma {:induction false} PromptedAppend(it: Items, k: Forest, r: Forest)
    requires Prompted(it, k) && PromptedBelow(it, r)
    ensures PromptedBelow(it, Append(k, r))
  {
    if k.Node? {
      PromptedAppend(it, k.rest, r);
    }
  }

  /** Flattening keeps the source order and leaves children only below nodes with a prompt text. */
  lemma {:induction false} FlattenCorrect(it: Items, f: Forest)
    requires PromptedBelow(it, f)
    ensures Preorder(Flatten(it, f)) == Preorder(f) && Prompted(it, Flatten(it, f))
    decreases Count(f)
  {
    match f
    case Nil =>
    case Node(m, k, r) =>
      if k.Node? && m !in it.hasPrompt {
        AppendFacts(k, r);
        PromptedAppend(it, k, r);
        FlattenCorrect(it, Append(k, r));
      } else {
        FlattenCorrect(it, r);
      }
  }

  /** Whatever is absorbed and flattened, menu_finalize keeps the source order of a node's children and later
      siblings, and below the node children remain only under prompts. */
  lemma {:induction false} FinalizeCorrect(it: Items, m: Menu, k: Forest, r: Forest)
    ensures var (k', r') := Finalize(it, m, k, r);
            Preorder(k') + Preorder(r') == Preorder(k) + Preorder(r) && Prompted(it, k')
    decreases Count(k) + Count(r), 1
  {
    if k.Node? {
      FinalizeAllCorrect(it, k);
      FlattenCorrect(it, FinalizeAll(it, k));
    } else if m in it.hasSymbol {
      AbsorbCorrect(it, m, r);
      FlattenCorrect(it, Absorb(it, m, r).0);
    }
  }

  // ----- what is taken and what stays -----

  /** p takes every node of the top level. */
  ghost predicate AllTaken(it: Items, p: Menu, f: Forest) {
    match f
    case Nil => true
    case Node(m, _, r) => it.absorbs(p, m) && AllTaken(it, p, r)
  }

  /** Items are taken as long as there are any to take, and no others. */
  lemma {:induction false} AbsorbMaximal(it: Items, p: Menu, f: Forest)
    ensures var (a, left) := Absorb(it, p, f); AllTaken(it, p, a) && (left.Node? ==> !it.absorbs(p, left.menu))
    decreases Count(f)
  {
    if f.Node? && it.absorbs(p, f.menu) {
      AbsorbMaximal(it, p, Finalize(it, f.menu, f.kids, f.rest).1);
    }
  }

  /** Only a symbol without children takes items, and then all it can. */
  lemma FinalizeTakes(it: Items, m: Menu, k: Forest, r: Forest)
    ensures var (k', r') := Finalize(it, m, k, r);
            if k.Nil? && m in it.hasSymbol then r'.Node? ==> !it.absorbs(m, r'.menu)
            else r' == r && (k.Nil? ==> k' == Nil)
  {
    AbsorbMaximal(it, m, r);
  }

  /** m is at the top level of f, with children k. */
  ghost predicate IsTop(f: Forest, m: Menu, k: Forest) {
    f.Node? && ((f.menu == m && f.kids == k) || IsTop(f.rest, m, k))
  }

  lemma {:induction false} TopAppend(f: Forest, g: Forest, m: Menu, k: Forest)
    ensures IsTop(Append(f, g), m, k) <==> IsTop(f, m, k) || IsTop(g, m, k)
  {
    if f.Node? {
      TopAppend(f.rest, g, m, k);
    }
  }

  /** Flattening leaves a node with a prompt its children; another gives them up, to the level it is on. */
  lemma {:induction false} FlattenKeeps(it: Items, f: Forest, m: Menu, k: Forest)
    requires IsTop(f, m, k)
    ensures IsTop(Flatten(it, f), m, if m in it.hasPrompt then k else Nil)
    ensures m !in it.hasPrompt ==>
              forall n, kn :: IsTop(k, n, kn) ==> IsTop(Flatten(it, f), n, if n in it.hasPrompt then kn else Nil)
    decreases Count(f)
  {
    var rest := if f.kids.Node? && f.menu !in it.hasPrompt then Append(f.kids, f.rest) else f.rest;
    AppendFacts(f.kids, f.rest);
    if f.menu == m && f.kids == k {
      if m !in it.hasPrompt && k.Node? {
        forall n, kn | IsTop(k, n, kn) ensures IsTop(Flatten(it, f), n, if n in it.hasPrompt then kn else Nil) {
          TopAppend(k, f.rest, n, kn);
          FlattenKeeps(it, rest, n, kn);
        }
      }
    } else {
      TopAppend(f.kids, f.rest, m, k);
      FlattenKeeps(it, rest, m, k);
    }
  }

  lemma Regroup(m: Menu, k': seq<Menu>, r': seq<Menu>, k: seq<Menu>, r: seq<Menu>, left: seq<Menu>, more: seq<Menu>)
    requires k' + r' == k + r && more + left == r'
    ensures [m] + k' + more + left == [m] + k + r && [m] + k' + r' == [m] + k + r
  {
    assert k' + (more + left) == (k' + more) + left;
    assert [m] + k' + more + left == [m] + (k' + r');
    assert [m] + k' + r' == [m] + (k' + r');
    assert [m] + k + r == [m] + (k + r);
  }

  lemma {:induction false} FinalizeAllCorrect(it: Items, f: Forest)
    ensures Preorder(FinalizeAll(it, f)) == Preorder(f) && PromptedBelow(it, FinalizeAll(it, f))
    decreases Count(f), 0
  {
    match f
    case Nil =>
    case Node(m, k, r) =>
      var (k', r') := Finalize(it, m, k, r);
      FinalizeCorrect(it, m, k, r);
      FinalizeAllCorrect(it, r');
      Regroup(m, Preorder(k'), Preorder(r'), Preorder(k), Preorder(r), [], Preorder(FinalizeAll(it, r')));
  }

  lemma {:induction false} AbsorbCorrect(it: Items, p: Menu, f: Forest)
    ensures var (a, left) := Absorb(it, p, f);
            Preorder(a) + Preorder(left) == Preorder(f) && PromptedBelow(it, a)
    decreases Count(f), 0
  {
    match f
    case Nil =>
    case Node(m, k, r) =>
      if it.absorbs(p, m) {
        var (k', r') := Finalize(it, m, k, r);
        var (more, left) := Absorb(it, p, r');
        FinalizeCorrect(it, m, k, r);
        AbsorbCorrect(it, p, r');
        Regroup(m, Preorder(k'), Preorder(r'), Preorder(k), Preorder(r), Preorder(left), Preorder(more));
      }
  }

  /** Trees with the same preorder have the same nodes, each as often. */
  lemma {:induction false} SamePreorder(f: Forest, g: Forest)
    requires Preorder(f) == Preorder(g)
    ensures Nodes(f) == Nodes(g) && (Distinct(f) <==> Distinct(g))
  {
    PreorderFacts(f);
    PreorderFacts(g);
    DistinctIff(f);
    DistinctIff(g);
  }

  lemma {:induction false} DistinctIff(f: Forest)
    ensures |Nodes(f)| <= Count(f) && (Distinct(f) <==> |Nodes(f)| == Count(f))
  {
    match f
    case Nil =>
    case Node(m, k, r) =>
      DistinctIff(k);
      DistinctIff(r);
      UnionSize(Nodes(k), Nodes(r));
      UnionSize({m}, Nodes(k) + Nodes(r));
      assert Nodes(f) == {m} + (Nodes(k) + Nodes(r));
  }

  lemma UnionSize(a: set<Menu>, b: set<Menu>)
    ensures |a + b| <= |a| + |b| && (|a + b| == |a| + |b| <==> a !! b)
  {
    assert |a + b| == |a| + |b| - |a * b|;
  }
}
