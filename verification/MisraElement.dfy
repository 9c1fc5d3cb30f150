/**
 Element definitions of MISRA rules 9.x: a tree of objects linked both ways, and the walk
 that steps from one value element to the next through parent pointers.
 */
module MisraElement {

  class ElementDef {
    var children: seq<ElementDef>
    var parent: ElementDef?

    constructor ()
      ensures children == [] && parent == null
    {
      children, parent := [], null;
    }

    /**
     `addChild`: a finished tree becomes the last child of an element under construction.
     The shapes name the children `this` had, and those of `child`.
     */
    method AddChild(child: ElementDef, ghost kids: Forest, ghost grandkids: Forest)
      requires IsTree(this, kids) && IsTree(child, grandkids)
      requires Elements(Tree(this, kids)) !! Elements(Tree(child, grandkids))
      modifies this`children, child`parent
      ensures IsTree(this, Append(kids, Tree(child, grandkids)))
      ensures children == old(children) + [child] && child.parent == this
    {
      AppendTree(kids, child, grandkids);
      children := children + [child];
      child.parent := this;
      LinkedAppend(kids, Tree(child, grandkids), this);
    }

    /** `getChildByIndex` of an element that is not a flexible array. */
    function GetChildByIndex(index: int): ElementDef?
      reads this
    {
      if 0 <= index < |children| then children[index] else null
    }

    /** `getFirstValueElement` */
    method GetFirstValueElement(ghost f: Forest, ghost owner: ElementDef?) returns (current: ElementDef)
      requires f.Cons? && f.el == this && Linked(f, owner)
      ensures current == First(f)
    {
      current := this;
      ghost var g, above := f, owner;
      var nextChild := current.GetChildByIndex(0);
      while nextChild != null
        invariant g.Cons? && g.el == current && Linked(g, above) && First(g) == First(f)
        invariant nextChild == if |current.children| > 0 then current.children[0] else null
        decreases g
      {
        above := g.el;
        g := g.kids;
        current := nextChild;
        nextChild := current.GetChildByIndex(0);
      }
    }

    /** `getNextValueElement` of an element in the tree under `root`. */
    method GetNextValueElement(root: ElementDef, ghost kids: Forest) returns (next: ElementDef?)
      requires IsTree(root, kids) && this in Elements(Tree(root, kids))
      ensures next == if this == root then null else After(kids, this)
    {
      hide Elements, Linked, After, Depth, First, Roots, Distinct, IsTree;
      var current := this;
      ElementsOfTree(root, kids);
      while current != root
        invariant IsTree(root, kids)
        invariant current == root || current in Elements(kids)
        invariant this != root ==> After(kids, this) == if current == root then null else After(kids, current)
        invariant this == root ==> current == root
        decreases if current == root then 0 else 1 + Depth(kids, current)
      {
        ghost var s := WalkStep(root, kids, current);
        if current.parent == null {
          return null;
        }
        var i := Index(current.parent.children, current) + 1;
        if i < |current.parent.children| {
          ghost var above := current.parent;
          current := current.parent.children[i];
          next := current.GetFirstValueElement(s, above);
          return;
        }
        current := current.parent;
      }
      return null;
    }
  }

  /** `list.index` on a list that holds the object. */
  function Index(list: seq<ElementDef>, x: ElementDef): (i: nat)
    requires x in list
    ensures i < |list| && list[i] == x && x !in list[..i]
  {
    if list[0] == x then 0 else 1 + Index(list[1..], x)
  }

  // ----- Shapes ----------------------------------------------------------------------

  /** Siblings from left to right, each with the forest of its children. */
  datatype Forest = Nil | Cons(el: ElementDef, kids: Forest, rest: Forest)

  ghost function Tree(root: ElementDef, kids: Forest): Forest {
    Cons(root, kids, Nil)
  }

  ghost function Elements(f: Forest): set<ElementDef> {
    if f.Nil? then {} else {f.el} + Elements(f.kids) + Elements(f.rest)
  }

  ghost function Roots(f: Forest): seq<ElementDef> {
    if f.Nil? then [] else [f.el] + Roots(f.rest)
  }

  ghost predicate Distinct(f: Forest) {
    f.Cons? ==>
      && f.el !in Elements(f.kids) && f.el !in Elements(f.rest) && Elements(f.kids) !! Elements(f.rest)
      && Distinct(f.kids) && Distinct(f.rest)
  }

  /** The objects are linked as the shape says, its roots all having the parent `owner`. */
  ghost predicate Linked(f: Forest, owner: ElementDef?)
    reads Elements(f)
  {
    f.Cons? ==>
      && f.el.parent == owner && f.el.children == Roots(f.kids)
      && Linked(f.kids, f.el) && Linked(f.rest, owner)
  }

  /** `root`, which may itself lie in a larger tree, heads a proper tree with these children. */
  ghost predicate IsTree(root: ElementDef, kids: Forest)
    reads Elements(Tree(root, kids))
  {
    Distinct(Tree(root, kids)) && root.children == Roots(kids) && Linked(kids, root)
  }

  ghost function Append(f: Forest, g: Forest): Forest {
    if f.Nil? then g else Cons(f.el, f.kids, Append(f.rest, g))
  }

  lemma {:induction false} AppendTree(f: Forest, child: ElementDef, grandkids: Forest)
    requires Distinct(f) && Distinct(Tree(child, grandkids)) && Elements(f) !! Elements(Tree(child, grandkids))
    ensures var g := Append(f, Tree(child, grandkids));
      Distinct(g) && Elements(g) == Elements(f) + Elements(Tree(child, grandkids)) && Roots(g) == Roots(f) + [child]
  {
    if f.Cons? {
      AppendTree(f.rest, child, grandkids);
    }
  }

  lemma {:induction false} LinkedAppend(f: Forest, g: Forest, owner: ElementDef?)
    requires Linked(f, owner) && Linked(g, owner)
    ensures Linked(Append(f, g), owner)
  {
    if f.Cons? {
      LinkedAppend(f.rest, g, owner);
    }
  }

  lemma ElementsOfTree(root: ElementDef, kids: Forest)
    requires IsTree(root, kids)
    ensures Elements(Tree(root, kids)) == {root} + Elements(kids) && root !in Elements(kids) && Distinct(kids)
    ensures Linked(kids, root) && root.children == Roots(kids)
  {
  }

  // ----- The order of the value elements ---------------------------------------------

  /** The elements without children, from left to right. */
  ghost function Leaves(f: Forest): seq<ElementDef> {
    if f.Nil? then [] else (if f.kids.Nil? then [f.el] else Leaves(f.kids)) + Leaves(f.rest)
  }

  ghost function First(f: Forest): (e: ElementDef?)
    ensures f.Cons? ==> e != null
  {
    if f.Nil? then null else if f.kids.Nil? then f.el else First(f.kids)
  }

  /** The first leaf to the right of `e` and everything under it. */
  ghost function After(f: Forest, e: ElementDef): ElementDef?
    requires e in Elements(f)
  {
    if e == f.el then First(f.rest)
    else if e in Elements(f.kids) then
      var within := After(f.kids, e);
      if within != null then within else First(f.rest)
    else After(f.rest, e)
  }

  ghost function Depth(f: Forest, e: ElementDef): nat
    requires e in Elements(f)
  {
    if e == f.el then 0 else if e in Elements(f.kids) then 1 + Depth(f.kids, e) else Depth(f.rest, e)
  }

  lemma HeadUp(f: Forest, owner: ElementDef, before: seq<ElementDef>)
    requires f.Cons? && Distinct(f) && owner.children == before + Roots(f)
    ensures f.el in owner.children
    ensures f.el == owner.children[|owner.children| - 1] ==> f.rest.Nil?
  {
    assert owner.children[|before|] == f.el;
    RootsInside(f.rest);
  }

  lemma AfterStep(f: Forest, e: ElementDef)
    requires Distinct(f) && e in Elements(f)
    ensures e == f.el ==> After(f, e) == First(f.rest)
    ensures e in Elements(f.kids) ==>
      After(f, e) == if After(f.kids, e) != null then After(f.kids, e) else First(f.rest)
    ensures e in Elements(f.rest) ==> After(f, e) == After(f.rest, e)
  {
  }

  /** The walk goes up from `e`: its last sibling inherits what follows the parent. */
  lemma {:induction false} UpStep(f: Forest, owner: ElementDef, e: ElementDef, before: seq<ElementDef>)
    requires Linked(f, owner) && Distinct(f) && owner !in Elements(f) && e in Elements(f)
    requires owner.children == before + Roots(f) && forall x :: x in before ==> x !in Elements(f)
    ensures e.parent != null && e in e.parent.children
    ensures e.parent == owner || e.parent in Elements(f)
    ensures e == e.parent.children[|e.parent.children| - 1] ==>
      After(f, e) == if e.parent == owner then null else After(f, e.parent)
  {
    hide After, Index;
    AfterStep(f, e);
    if e == f.el {
      HeadUp(f, owner, before);
    } else if e in Elements(f.kids) {
      UpStep(f.kids, f.el, e, []);
      AfterStep(f, e.parent);
    } else {
      assert (before + [f.el]) + Roots(f.rest) == before + Roots(f);
      UpStep(f.rest, owner, e, before + [f.el]);
      if e.parent in Elements(f.rest) {
        AfterStep(f, e.parent);
      }
    }
  }

  lemma {:induction false} DepthStep(f: Forest, owner: ElementDef, e: ElementDef)
    requires Linked(f, owner) && Distinct(f) && owner !in Elements(f) && e in Elements(f)
    ensures e.parent == owner ==> Depth(f, e) == 0
    ensures e.parent == owner || (e.parent in Elements(f) && Depth(f, e) == Depth(f, e.parent) + 1)
  {
    if e in Elements(f.kids) {
      DepthStep(f.kids, f.el, e);
    } else if e != f.el {
      DepthStep(f.rest, owner, e);
    }
  }

  lemma {:induction false} RootsInside(f: Forest)
    ensures forall x :: x in Roots(f) ==> x in Elements(f)
    ensures f.Cons? ==> Roots(f) != []
  {
    if f.Cons? {
      RootsInside(f.rest);
    }
  }

  /** If `e` has a sibling to its right, the walk continues at that sibling's first leaf. */
  lemma {:induction false} NextTree(f: Forest, owner: ElementDef, e: ElementDef,
                                    before: seq<ElementDef>) returns (s: Forest)
    requires Linked(f, owner) && Distinct(f) && owner !in Elements(f) && e in Elements(f)
    requires owner.children == before + Roots(f) && forall x :: x in before ==> x !in Elements(f)
    requires e.parent != null && exists i :: 0 <= i < |e.parent.children| - 1 && e.parent.children[i] == e
    ensures forall i :: 0 <= i < |e.parent.children| - 1 && e.parent.children[i] == e ==>
      s.Cons? && s.el == e.parent.children[i + 1]
    ensures Linked(s, e.parent) && First(s) == After(f, e)
  {
    if e == f.el {
      s := f.rest;
      RootsInside(f.rest);
      assert owner.children[|before|] == e;
      assert owner.children[|before| + 1..] == Roots(f.rest);
    } else if e in Elements(f.kids) {
      s := NextTree(f.kids, f.el, e, []);
    } else {
      s := NextTree(f.rest, owner, e, before + [f.el]);
    }
  }

  /** One round of the walk: over to the next sibling's tree, or up. */
  lemma WalkStep(root: ElementDef, kids: Forest, e: ElementDef) returns (s: Forest)
    requires IsTree(root, kids) && e in Elements(kids)
    ensures e.parent != null && e in e.parent.children && (e.parent == root || e.parent in Elements(kids))
    ensures var i := Index(e.parent.children, e) + 1;
      if i < |e.parent.children| then s.Cons? && s.el == e.parent.children[i] && Linked(s, e.parent)
        && First(s) == After(kids, e)
      else After(kids, e) == (if e.parent == root then null else After(kids, e.parent))
           && (e.parent != root ==> Depth(kids, e.parent) < Depth(kids, e))
  {
    hide Elements, Linked, After, Depth, First, Roots, Distinct, IsTree, Index;
    s := kids;
    ElementsOfTree(root, kids);
    assert [] + root.children == root.children;
    UpStep(kids, root, e, []);
    DepthStep(kids, root, e);
    var siblings := e.parent.children;
    var i := Index(siblings, e);
    if i + 1 < |siblings| {
      assert siblings[i] == e;
      s := NextTree(kids, root, e, []);
    } else {
      assert e == siblings[|siblings| - 1];
    }
  }

  /** What follows a leaf is the next leaf; the last is followed by nothing. */
  lemma {:induction false} AfterLeaf(f: Forest, i: nat)
    requires Distinct(f) && i < |Leaves(f)|
    ensures Leaves(f)[i] in Elements(f)
    ensures After(f, Leaves(f)[i]) == if i + 1 < |Leaves(f)| then Leaves(f)[i + 1] else null
  {
    FirstIsLeaf(f.rest);
    var own := if f.kids.Nil? then 1 else |Leaves(f.kids)|;
    if i >= own {
      AfterLeaf(f.rest, i - own);
    } else if f.kids.Cons? {
      AfterLeaf(f.kids, i);
    }
  }

  lemma {:induction false} FirstIsLeaf(f: Forest)
    ensures First(f) == if Leaves(f) == [] then null else Leaves(f)[0]
    ensures f.Cons? ==> Leaves(f) != []
  {
    if f.Cons? && f.kids.Cons? {
      FirstIsLeaf(f.kids);
    }
  }

  lemma {:induction false} LeavesInside(f: Forest)
    ensures forall e :: e in Leaves(f) ==> e in Elements(f)
  {
    if f.Cons? {
      LeavesInside(f.kids);
      LeavesInside(f.rest);
    }
  }

  lemma {:induction false} ElementsAllocated(f: Forest)
    ensures forall e :: e in Elements(f) ==> allocated(e)
  {
    if f.Cons? {
      ElementsAllocated(f.kids);
      ElementsAllocated(f.rest);
    }
  }

  /** The leaves are exactly the elements without children, each listed once. */
  lemma {:induction false} LeavesAreValues(f: Forest, owner: ElementDef?)
    requires Distinct(f) && Linked(f, owner)
    ensures forall e :: e in Leaves(f) <==> e in Elements(f) && e.children == []
    ensures forall i, j :: 0 <= i < j < |Leaves(f)| ==> Leaves(f)[i] != Leaves(f)[j]
  {
    if f.Cons? {
      RootsInside(f.kids);
      LeavesAreValues(f.kids, f.el);
      LeavesAreValues(f.rest, owner);
      LeavesInside(f.kids);
      LeavesInside(f.rest);
      var a, b := if f.kids.Nil? then [f.el] else Leaves(f.kids), Leaves(f.rest);
      assert Leaves(f) == a + b;
      assert forall e :: e in a ==> e !in b;
      DistinctAppend(a, b);
    }
  }

  lemma DistinctAppend(a: seq<ElementDef>, b: seq<ElementDef>)
    requires forall i, j :: 0 <= i < j < |a| ==> a[i] != a[j]
    requires forall i, j :: 0 <= i < j < |b| ==> b[i] != b[j]
    requires forall e :: e in a ==> e !in b
    ensures forall i, j :: 0 <= i < j < |a + b| ==> (a + b)[i] != (a + b)[j]
  {
    forall i, j | 0 <= i < j < |a + b| ensures (a + b)[i] != (a + b)[j] {
      assert i < |a| <= j ==> (a + b)[i] in a && (a + b)[j] in b;
    }
  }

  /**
   Starting at the first value element and stepping to the next until there is none visits
   every value element under `root` exactly once, from left to right.
   */
  method WalkValueElements(root: ElementDef, ghost kids: Forest) returns (visited: seq<ElementDef>)
    requires IsTree(root, kids)
    ensures visited == Leaves(Tree(root, kids))
    ensures forall e :: e in visited <==> e in Elements(Tree(root, kids)) && e.children == []
    ensures forall i, j :: 0 <= i < j < |visited| ==> visited[i] != visited[j]
  {
    ghost var leaves := Leaves(Tree(root, kids));
    assert Leaves(Nil) == [];
    assert leaves == if kids.Nil? then [root] else Leaves(kids);
    ElementsAllocated(Tree(root, kids));
    FirstIsLeaf(Tree(root, kids));
    var current: ElementDef? := root.GetFirstValueElement(Tree(root, kids), root.parent);
    visited := [];
    while current != null
      invariant visited <= leaves
      invariant current == if |visited| < |leaves| then leaves[|visited|] else null
      decreases |leaves| - |visited|
    {
      if kids.Cons? {
        AfterLeaf(kids, |visited|);
      }
      visited := visited + [current];
      current := current.GetNextValueElement(root, kids);
    }
    LeavesAreValues(Tree(root, kids), root.parent);
  }
}
