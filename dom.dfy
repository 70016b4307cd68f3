/** The markup tree the selector engine reads: an arena of nodes addressed by
    integer handles. A handle plays the part of Python's `id(tag)`: two distinct
    elements with the same name and attributes still have distinct handles. */
module Dom {

  type Handle = nat

  /** An attribute value as the tree builder stores it: one string, or the
      token list of a multi-valued attribute such as `class`. */
  datatype AttrValue = Str(text: string) | Tokens(items: seq<string>)

  /** `Element` is a markup element (a `Tag`); `Text` stands for every other
      node kind (strings, comments), which the engine skips. */
  datatype Node =
    | Element(name: string, attrs: map<string, AttrValue>, parent: Handle, children: seq<Handle>)
    | Text(parent: Handle)

  type Tree = seq<Node>

  /** Children of a node (a `Text` node has none). */
  function Children(t: Tree, h: Handle): seq<Handle>
  {
    if h < |t| && t[h].Element? then t[h].children else []
  }

  /** Every child has a larger handle than its parent and points back to it. */
  ghost predicate Valid(t: Tree)
  {
    forall h, i :: 0 <= h < |t| && 0 <= i < |Children(t, h)| ==>
      h < Children(t, h)[i] < |t| && t[Children(t, h)[i]].parent == h
  }

  lemma ChildBounds(t: Tree, h: Handle, c: Handle)
    requires Valid(t) && h < |t| && c in Children(t, h)
    ensures h < c < |t| && t[c].parent == h
  {
    var i :| 0 <= i < |Children(t, h)| && Children(t, h)[i] == c;
  }

  predicate IsTag(t: Tree, h: Handle)
  {
    h < |t| && t[h].Element?
  }

  function Parent(t: Tree, h: Handle): Handle
  {
    if h < |t| then t[h].parent else 0
  }

  /** `tag.descendants`: every node below `h`, in document (pre-)order. */
  function Descendants(t: Tree, h: Handle): (r: seq<Handle>)
    requires Valid(t) && h < |t|
    ensures forall x :: x in r ==> h < x < |t|
    decreases |t| - h, |Children(t, h)| + 1
  {
    DescendantsFrom(t, h, 0)
  }

  /** The descendants contributed by the children of `h` from position `i` on. */
  function DescendantsFrom(t: Tree, h: Handle, i: nat): (r: seq<Handle>)
    requires Valid(t) && h < |t| && i <= |Children(t, h)|
    ensures forall x :: x in r ==> h < x < |t|
    decreases |t| - h, |Children(t, h)| - i
  {
    var cs := Children(t, h);
    if i == |cs| then []
    else
      [cs[i]] + Descendants(t, cs[i]) + DescendantsFrom(t, h, i + 1)
  }

  /** The element children of `h`, in order (`isinstance(t, Tag)` filter). */
  function TagChildren(t: Tree, h: Handle): (r: seq<Handle>)
  {
    TagsOf(t, Children(t, h))
  }

  /** The element descendants of `h`, in document order. */
  function TagDescendants(t: Tree, h: Handle): (r: seq<Handle>)
    requires Valid(t) && h < |t|
  {
    TagsOf(t, Descendants(t, h))
  }

  /** The order-preserving subsequence of `xs` that are elements. */
  function TagsOf(t: Tree, xs: seq<Handle>): (r: seq<Handle>)
    ensures forall x :: x in r ==> x in xs && IsTag(t, x)
    ensures forall x :: x in xs && IsTag(t, x) ==> x in r
  {
    if xs == [] then []
    else if IsTag(t, xs[0]) then [xs[0]] + TagsOf(t, xs[1..])
    else TagsOf(t, xs[1..])
  }

  lemma TagsOfAppend(t: Tree, xs: seq<Handle>, ys: seq<Handle>)
    ensures TagsOf(t, xs + ys) == TagsOf(t, xs) + TagsOf(t, ys)
  {
    if xs == [] {
      assert xs + ys == ys;
    } else {
      assert (xs + ys)[1..] == xs[1..] + ys;
      TagsOfAppend(t, xs[1..], ys);
    }
  }

  /** Every child is a descendant. */
  lemma ChildIsDescendant(t: Tree, h: Handle, c: Handle)
    requires Valid(t) && h < |t| && c in Children(t, h)
    ensures c in Descendants(t, h)
  {
    var cs := Children(t, h);
    var i :| 0 <= i < |cs| && cs[i] == c;
    DescendantsFromHas(t, h, 0, i);
  }

  lemma {:induction false} DescendantsFromHas(t: Tree, h: Handle, i: nat, k: nat)
    requires Valid(t) && h < |t| && i <= k < |Children(t, h)|
    ensures Children(t, h)[k] in DescendantsFrom(t, h, i)
    decreases k - i
  {
    var cs := Children(t, h);
    var rest := DescendantsFrom(t, h, i + 1);
    assert DescendantsFrom(t, h, i) == [cs[i]] + Descendants(t, cs[i]) + rest;
    if i < k {
      DescendantsFromHas(t, h, i + 1, k);
    }
  }

  /** A descendant of a descendant is a descendant. */
  lemma {:induction false} DescendantsTransitive(t: Tree, h: Handle, x: Handle, y: Handle)
    requires Valid(t) && h < |t| && x in Descendants(t, h) && y in Descendants(t, x)
    ensures y in Descendants(t, h)
    decreases |t| - h, |Children(t, h)| + 1
  {
    DescendantsFromTransitive(t, h, 0, x, y);
  }

  lemma {:induction false} DescendantsFromTransitive(t: Tree, h: Handle, i: nat, x: Handle, y: Handle)
    requires Valid(t) && h < |t| && i <= |Children(t, h)|
    requires x in DescendantsFrom(t, h, i) && x < |t| && y in Descendants(t, x)
    ensures y in DescendantsFrom(t, h, i)
    decreases |t| - h, |Children(t, h)| - i
  {
    var cs := Children(t, h);
    var c := cs[i];
    assert DescendantsFrom(t, h, i) == [c] + Descendants(t, c) + DescendantsFrom(t, h, i + 1);
    if x == c {
    } else if x in Descendants(t, c) {
      DescendantsTransitive(t, c, x, y);
    } else {
      DescendantsFromTransitive(t, h, i + 1, x, y);
    }
  }

  /** The parent of a descendant is the node itself or one of its descendants. */
  lemma {:induction false} DescendantParent(t: Tree, h: Handle, x: Handle)
    requires Valid(t) && h < |t| && x in Descendants(t, h)
    ensures Parent(t, x) == h || Parent(t, x) in Descendants(t, h)
    decreases |t| - h, |Children(t, h)| + 1
  {
    DescendantsFromParent(t, h, 0, x);
  }

  lemma {:induction false} DescendantsFromParent(t: Tree, h: Handle, i: nat, x: Handle)
    requires Valid(t) && h < |t| && i <= |Children(t, h)| && x in DescendantsFrom(t, h, i)
    ensures Parent(t, x) == h || Parent(t, x) in DescendantsFrom(t, h, i)
    decreases |t| - h, |Children(t, h)| - i
  {
    var cs := Children(t, h);
    var c := cs[i];
    assert DescendantsFrom(t, h, i) == [c] + Descendants(t, c) + DescendantsFrom(t, h, i + 1);
    if x == c {
    } else if x in Descendants(t, c) {
      DescendantParent(t, c, x);
    } else {
      DescendantsFromParent(t, h, i + 1, x);
    }
  }
}
