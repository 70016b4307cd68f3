/** `select(root, selector)`: the driver that cuts the selector text into
    compound selectors, walks the descendant or child groups of the current
    context, keeps the elements every checker of the compound accepts, and
    concatenates the comma-separated chains. */
module Selector {
  import opened Wrappers
  import opened Strings
  import opened Dom
  import opened SelectorParse
  import opened SelectorMatch

  predicate InTree(t: Tree, hs: seq<Handle>)
  {
    forall h :: h in hs ==> h < |t|
  }

  // ---------------------------------------------------------------------------
  // Candidate groups of one step

  /** The element descendants of every context element, context by context,
      in the order the nested loops of a descendant step visit them. */
  function Candidates(t: Tree, ctx: seq<Handle>): (r: seq<Handle>)
    requires Valid(t) && InTree(t, ctx)
    ensures forall x :: x in r ==> IsTag(t, x)
    ensures forall x :: x in r ==> exists h :: h in ctx && x in Descendants(t, h)
    ensures forall h, x :: h in ctx && x in Descendants(t, h) && IsTag(t, x) ==> x in r
  {
    if ctx == [] then []
    else
      var init := ctx[..|ctx| - 1];
      var h := ctx[|ctx| - 1];
      assert forall x :: x in init ==> x in ctx;
      assert forall x :: x in ctx ==> x in init || x == h;
      assert h in ctx;
      var ds := TagDescendants(t, h);
      assert forall x :: x in ds ==> x in Descendants(t, h);
      Candidates(t, init) + ds
  }

  /** The parents of the elements of `xs` in order of first appearance: the
      keys of the `groups` dict. */
  function ParentKeys(t: Tree, xs: seq<Handle>): (r: seq<Handle>)
    ensures forall i, j :: 0 <= i < j < |r| ==> r[i] != r[j]
    ensures forall x :: x in xs ==> Parent(t, x) in r
  {
    if xs == [] then []
    else
      var ks := ParentKeys(t, xs[..|xs| - 1]);
      var k := Parent(t, xs[|xs| - 1]);
      if k in ks then ks else ks + [k]
  }

  /** The elements of `xs` whose parent is `k`, in order: one value of the
      `groups` dict. */
  function Members(t: Tree, xs: seq<Handle>, k: Handle): (r: seq<Handle>)
    ensures forall x :: x in r <==> x in xs && Parent(t, x) == k
  {
    if xs == [] then []
    else
      var x := xs[|xs| - 1];
      Members(t, xs[..|xs| - 1], k) + (if Parent(t, x) == k then [x] else [])
  }

  /** `list(groups.values())` of a descendant step: the candidates grouped
      by parent, groups in order of their parent's first appearance. */
  function DescendantGroups(t: Tree, ctx: seq<Handle>): (r: seq<seq<Handle>>)
    requires Valid(t) && InTree(t, ctx)
  {
    var xs := Candidates(t, ctx);
    var ks := ParentKeys(t, xs);
    seq(|ks|, i requires 0 <= i < |ks| => Members(t, xs, ks[i]))
  }

  /** The groups of a child step: the element children of each context
      element, one group per context element. */
  function ChildGroups(t: Tree, ctx: seq<Handle>): (r: seq<seq<Handle>>)
    ensures |r| == |ctx|
  {
    seq(|ctx|, i requires 0 <= i < |ctx| => TagChildren(t, ctx[i]))
  }

  /** The groups a step searches, from the elements it searches from. */
  function StepGroups(t: Tree, ctx: seq<Handle>, recursive: bool): seq<seq<Handle>>
    requires Valid(t) && InTree(t, ctx)
  {
    if recursive then DescendantGroups(t, ctx) else ChildGroups(t, ctx)
  }

  /** The elements of `g` that are in `valid`, in group order. */
  function Keep(g: seq<Handle>, valid: set<Handle>): (r: seq<Handle>)
    ensures forall x :: x in r <==> x in g && x in valid
  {
    if g == [] then []
    else
      var x := g[|g| - 1];
      Keep(g[..|g| - 1], valid) + (if x in valid then [x] else [])
  }

  /** The new context: for each group in order, the elements of the group
      that every checker of the compound accepts within that group. */
  function Found(t: Tree, cs: seq<Checker>, groups: seq<seq<Handle>>): (r: seq<Handle>)
    requires cs != [] && AllWellFormed(cs)
    ensures forall x :: x in r <==> exists g :: g in groups && x in g && x in MatchAll(t, cs, g)
  {
    if groups == [] then []
    else
      var init := groups[..|groups| - 1];
      var g := groups[|groups| - 1];
      assert forall h :: h in init ==> h in groups;
      assert forall h :: h in groups ==> h in init || h == g;
      Found(t, cs, init) + Keep(g, MatchAll(t, cs, g))
  }

  lemma GroupsAreTags(t: Tree, ctx: seq<Handle>, recursive: bool)
    requires Valid(t) && InTree(t, ctx)
    ensures forall g, x :: g in StepGroups(t, ctx, recursive) && x in g ==> IsTag(t, x)
  {
    var groups := StepGroups(t, ctx, recursive);
    forall g, x | g in groups && x in g
      ensures IsTag(t, x)
    {
      var i :| 0 <= i < |groups| && groups[i] == g;
    }
  }

  // ---------------------------------------------------------------------------
  // The outer loop

  /** What one pass of the outer loop finds, and the text it leaves. */
  datatype StepOut = StepOut(found: seq<Handle>, rest: string)

  /** One pass of the outer loop up to the comma test: a leading `>` makes
      it a child step; an empty context searches from the root again; an
      empty compound raises `Unknown selector`. */
  function Step(t: Tree, root: Handle, s: string, context: seq<Handle>): (r: Result<StepOut, Error>)
    requires Valid(t) && root < |t| && InTree(t, context) && s != []
    ensures r.Ok? ==> |r.value.rest| < |s|
    ensures r.Ok? ==> forall x :: x in r.value.found ==> IsTag(t, x)
  {
    var recursive := s[0] != '>';
    var text := if recursive then s else Strip(s[1..]);
    StepTextShorter(s);
    var ctx := if context == [] then [root] else context;
    var p :- Compound(text, []);
    if p.checkers == [] then Err(UnknownSelector(p.rest))
    else
      CompoundShortens(text, p);
      GroupsAreTags(t, ctx, recursive);
      FoundAreTags(t, p.checkers, StepGroups(t, ctx, recursive));
      Ok(StepOut(Found(t, p.checkers, StepGroups(t, ctx, recursive)), p.rest))
  }

  lemma StepTextShorter(s: string)
    requires s != []
    ensures |if s[0] != '>' then s else Strip(s[1..])| <= |s|
  {
  }

  /** A compound that built something consumed part of its text. */
  lemma CompoundShortens(text: string, p: Parsed)
    requires Compound(text, []) == Ok(p) && p.checkers != []
    ensures |p.rest| < |text| && AllWellFormed(p.checkers)
  {
    assert Advances(text, [], p);
    SuffixShorter(p.rest, text);
  }

  lemma FoundAreTags(t: Tree, cs: seq<Checker>, groups: seq<seq<Handle>>)
    requires cs != [] && AllWellFormed(cs)
    requires forall g, x :: g in groups && x in g ==> IsTag(t, x)
    ensures forall x :: x in Found(t, cs, groups) ==> IsTag(t, x)
  {
  }

  /** The outer `while selector:` loop from a given state. */
  function SelectFrom(t: Tree, root: Handle, s: string, context: seq<Handle>, selected: seq<Handle>): (r: Result<seq<Handle>, Error>)
    requires Valid(t) && root < |t| && InTree(t, context)
    decreases |s|
  {
    if s == [] then Ok(selected + context)
    else
      var o :- Step(t, root, s, context);
      var rest := Strip(o.rest);
      if rest != [] && rest[0] == ',' then SelectFrom(t, root, Strip(rest[1..]), [], selected + o.found)
      else SelectFrom(t, root, rest, o.found, selected)
  }

  /** `select(root, selector)` */
  function Selection(t: Tree, root: Handle, s: string): (r: Result<seq<Handle>, Error>)
    requires Valid(t) && root < |t|
  {
    SelectFrom(t, root, Strip(s), [], [])
  }

  // ---------------------------------------------------------------------------
  // The imperative driver

  ghost predicate Grouped(t: Tree, xs: seq<Handle>, keys: seq<Handle>, groups: map<Handle, seq<Handle>>)
  {
    && keys == ParentKeys(t, xs)
    && (forall k :: k in groups <==> k in keys)
    && (forall k :: k in groups ==> groups[k] == Members(t, xs, k))
  }

  lemma {:induction false} MembersOfAbsentKey(t: Tree, xs: seq<Handle>, k: Handle)
    requires k !in ParentKeys(t, xs)
    ensures Members(t, xs, k) == []
  {
    if xs != [] {
      MembersOfAbsentKey(t, xs[..|xs| - 1], k);
    }
  }

  lemma GroupedAppend(t: Tree, xs: seq<Handle>, keys: seq<Handle>, groups: map<Handle, seq<Handle>>, x: Handle)
    requires Grouped(t, xs, keys, groups)
    ensures Grouped(t, xs + [x],
                    if Parent(t, x) in groups then keys else keys + [Parent(t, x)],
                    groups[Parent(t, x) := (if Parent(t, x) in groups then groups[Parent(t, x)] else []) + [x]])
  {
    var k := Parent(t, x);
    var groups' := groups[k := (if k in groups then groups[k] else []) + [x]];
    KeysAppend(t, xs, keys, groups, x);
    forall m | m in groups'
      ensures groups'[m] == Members(t, xs + [x], m)
    {
      MembersAppend(t, xs, x, m);
      if m == k && k !in groups {
        MembersOfAbsentKey(t, xs, k);
      }
    }
  }

  lemma KeysAppend(t: Tree, xs: seq<Handle>, keys: seq<Handle>, groups: map<Handle, seq<Handle>>, x: Handle)
    requires Grouped(t, xs, keys, groups)
    ensures ParentKeys(t, xs + [x]) == if Parent(t, x) in groups then keys else keys + [Parent(t, x)]
  {
    var ys := xs + [x];
    assert ys[..|ys| - 1] == xs;
  }

  lemma MembersAppend(t: Tree, xs: seq<Handle>, x: Handle, m: Handle)
    ensures Members(t, xs + [x], m) == Members(t, xs, m) + (if Parent(t, x) == m then [x] else [])
  {
    var ys := xs + [x];
    assert ys[..|ys| - 1] == xs;
  }

  /** The inner loop `for child in tag.descendants: if isinstance(child, Tag):
      groups.setdefault(id(child.parent), []).append(child)`. */
  method AddDescendants(t: Tree, h: Handle, keys: seq<Handle>, groups: map<Handle, seq<Handle>>, ghost xs: seq<Handle>)
    returns (keys': seq<Handle>, groups': map<Handle, seq<Handle>>)
    requires Valid(t) && h < |t| && Grouped(t, xs, keys, groups)
    ensures Grouped(t, xs + TagDescendants(t, h), keys', groups')
  {
    var ds := Descendants(t, h);
    keys', groups' := keys, groups;
    assert xs + TagsOf(t, ds[..0]) == xs;
    for j := 0 to |ds|
      invariant Grouped(t, xs + TagsOf(t, ds[..j]), keys', groups')
    {
      var child := ds[j];
      TagsOfStep(t, xs, ds, j);
      if IsTag(t, child) {
        var k := Parent(t, child);
        GroupedAppend(t, xs + TagsOf(t, ds[..j]), keys', groups', child);
        var group := if k in groups' then groups'[k] else [];
        keys' := if k in groups' then keys' else keys' + [k];
        groups' := groups'[k := group + [child]];
      }
    }
    assert ds[..|ds|] == ds;
  }

  /** One more element of `ds` adds itself to the tags seen when it is a `Tag`. */
  lemma TagsOfStep(t: Tree, xs: seq<Handle>, ds: seq<Handle>, j: nat)
    requires j < |ds|
    ensures IsTag(t, ds[j]) ==> xs + TagsOf(t, ds[..j + 1]) == xs + TagsOf(t, ds[..j]) + [ds[j]]
    ensures !IsTag(t, ds[j]) ==> xs + TagsOf(t, ds[..j + 1]) == xs + TagsOf(t, ds[..j])
  {
    TagsOfAppend(t, ds[..j], [ds[j]]);
    assert ds[..j + 1] == ds[..j] + [ds[j]];
    if !IsTag(t, ds[j]) {
      assert TagsOf(t, [ds[j]]) == [];
      assert TagsOf(t, ds[..j + 1]) == TagsOf(t, ds[..j]);
    }
  }

  lemma CandidatesSnoc(t: Tree, ctx: seq<Handle>, i: nat)
    requires Valid(t) && InTree(t, ctx) && i < |ctx|
    ensures InTree(t, ctx[..i]) && InTree(t, ctx[..i + 1]) && ctx[i] < |t|
    ensures Candidates(t, ctx[..i + 1]) == Candidates(t, ctx[..i]) + TagDescendants(t, ctx[i])
  {
    assert ctx[i] in ctx;
    assert InTree(t, ctx[..i]) by {
      assert forall h :: h in ctx[..i] ==> h in ctx;
    }
    var c := ctx[..i + 1];
    assert InTree(t, c) by {
      assert forall h :: h in c ==> h in ctx;
    }
    assert c[..|c| - 1] == ctx[..i];
    assert c[|c| - 1] == ctx[i];
  }

  lemma GroupedValues(t: Tree, xs: seq<Handle>, keys: seq<Handle>, groups: map<Handle, seq<Handle>>)
    requires Grouped(t, xs, keys, groups)
    ensures forall i :: 0 <= i < |keys| ==> keys[i] in groups
    ensures seq(|keys|, i requires 0 <= i < |keys| && keys[i] in groups => groups[keys[i]])
         == seq(|keys|, i requires 0 <= i < |keys| => Members(t, xs, keys[i]))
  {
  }

  /** The groups of a descendant step, built as the source builds its dict. */
  method BuildDescendantGroups(t: Tree, ctx: seq<Handle>) returns (r: seq<seq<Handle>>)
    requires Valid(t) && InTree(t, ctx)
    ensures r == DescendantGroups(t, ctx)
  {
    var keys: seq<Handle> := [];
    var groups: map<Handle, seq<Handle>> := map[];
    for i := 0 to |ctx|
      invariant InTree(t, ctx[..i])
      invariant Grouped(t, Candidates(t, ctx[..i]), keys, groups)
    {
      CandidatesSnoc(t, ctx, i);
      keys, groups := AddDescendants(t, ctx[i], keys, groups, Candidates(t, ctx[..i]));
    }
    assert ctx[..|ctx|] == ctx;
    GroupedValues(t, Candidates(t, ctx), keys, groups);
    r := seq(|keys|, i requires 0 <= i < |keys| && keys[i] in groups => groups[keys[i]]);
  }

  /** The groups of a child step. */
  method BuildChildGroups(t: Tree, ctx: seq<Handle>) returns (r: seq<seq<Handle>>)
    ensures r == ChildGroups(t, ctx)
  {
    r := [];
    for i := 0 to |ctx|
      invariant r == ChildGroups(t, ctx[..i])
    {
      r := r + [TagChildren(t, ctx[i])];
    }
    assert ctx[..|ctx|] == ctx;
  }

  /** The filter loop: evaluate the compound on every group and extend the
      new context with the accepted elements in group order. */
  method FilterGroups(t: Tree, cs: seq<Checker>, groups: seq<seq<Handle>>) returns (context: seq<Handle>)
    requires cs != [] && AllWellFormed(cs)
    ensures context == Found(t, cs, groups)
  {
    context := [];
    for i := 0 to |groups|
      invariant context == Found(t, cs, groups[..i])
    {
      var tags := groups[i];
      var valid := EvaluateAll(t, cs, tags);
      FoundStep(t, cs, groups, i);
      ghost var before := context;
      for j := 0 to |tags|
        invariant context == before + Keep(tags[..j], valid)
      {
        KeepStep(before, tags, valid, j);
        if tags[j] in valid {
          context := context + [tags[j]];
        }
      }
      assert tags[..|tags|] == tags;
    }
    assert groups[..|groups|] == groups;
  }

  lemma FoundStep(t: Tree, cs: seq<Checker>, groups: seq<seq<Handle>>, i: nat)
    requires cs != [] && AllWellFormed(cs) && i < |groups|
    ensures Found(t, cs, groups[..i + 1]) == Found(t, cs, groups[..i]) + Keep(groups[i], MatchAll(t, cs, groups[i]))
  {
    assert groups[..i + 1][..i] == groups[..i];
  }

  lemma KeepStep(before: seq<Handle>, tags: seq<Handle>, valid: set<Handle>, j: nat)
    requires j < |tags|
    ensures before + Keep(tags[..j + 1], valid) ==
      before + Keep(tags[..j], valid) + (if tags[j] in valid then [tags[j]] else [])
  {
    assert tags[..j + 1][..j] == tags[..j];
  }

  /** One pass of the outer loop up to the comma test. */
  method RunStep(t: Tree, root: Handle, selector: string, context: seq<Handle>) returns (r: Result<StepOut, Error>)
    requires Valid(t) && root < |t| && InTree(t, context) && selector != []
    ensures r == Step(t, root, selector, context)
  {
    var recursive := true;
    var text := selector;
    if selector[0] == '>' {
      recursive := false;
      text := Strip(selector[1..]);
    }
    var ctx := context;
    if ctx == [] {
      ctx := [root];
    }
    var p := BuildCompound(text, []);
    if p.Err? {
      return Err(p.error);
    }
    var checker := p.value.checkers;
    if checker == [] {
      return Err(UnknownSelector(p.value.rest));
    }
    var groups;
    if recursive {
      groups := BuildDescendantGroups(t, ctx);
    } else {
      groups := BuildChildGroups(t, ctx);
    }
    var found := FilterGroups(t, checker, groups);
    r := Ok(StepOut(found, p.value.rest));
  }

  /** `select(root, selector)` */
  method Select(t: Tree, root: Handle, s: string) returns (r: Result<seq<Handle>, Error>)
    requires Valid(t) && root < |t|
    ensures r == Selection(t, root, s)
  {
    var selected: seq<Handle> := [];
    var context: seq<Handle> := [];
    var selector := Strip(s);
    while selector != []
      invariant InTree(t, context)
      invariant Selection(t, root, s) == SelectFrom(t, root, selector, context, selected)
      decreases |selector|
    {
      var o := RunStep(t, root, selector, context);
      if o.Err? {
        return Err(o.error);
      }
      context := o.value.found;
      selector := Strip(o.value.rest);
      if selector != [] && selector[0] == ',' {
        selected := selected + context;
        context := [];
        selector := Strip(selector[1..]);
      }
    }
    r := Ok(selected + context);
  }

  // ---------------------------------------------------------------------------
  // Properties of the driver

  lemma {:induction false} ParentKeysHaveMembers(t: Tree, xs: seq<Handle>, k: Handle)
    requires k in ParentKeys(t, xs)
    ensures Members(t, xs, k) != []
  {
    var init := xs[..|xs| - 1];
    var x := xs[|xs| - 1];
    if Parent(t, x) != k {
      ParentKeysHaveMembers(t, init, k);
    }
  }

  /** A descendant step groups the candidates by parent: every group is
      non-empty and shares one parent, different groups have different
      parents, and every candidate lies in exactly the group of its parent. */
  lemma DescendantGroupsByParent(t: Tree, ctx: seq<Handle>)
    requires Valid(t) && InTree(t, ctx)
    ensures forall i :: 0 <= i < |DescendantGroups(t, ctx)| ==> DescendantGroups(t, ctx)[i] != []
    ensures forall i, x, y :: 0 <= i < |DescendantGroups(t, ctx)| && x in DescendantGroups(t, ctx)[i] && y in DescendantGroups(t, ctx)[i]
              ==> Parent(t, x) == Parent(t, y)
    ensures forall i, j, x, y :: 0 <= i < j < |DescendantGroups(t, ctx)| && x in DescendantGroups(t, ctx)[i] && y in DescendantGroups(t, ctx)[j]
              ==> Parent(t, x) != Parent(t, y)
    ensures forall x :: x in Candidates(t, ctx) <==> exists g :: g in DescendantGroups(t, ctx) && x in g
  {
    var xs := Candidates(t, ctx);
    var ks := ParentKeys(t, xs);
    var groups := DescendantGroups(t, ctx);
    forall i | 0 <= i < |groups|
      ensures groups[i] != []
    {
      ParentKeysHaveMembers(t, xs, ks[i]);
    }
    forall x | x in xs
      ensures exists g :: g in groups && x in g
    {
      var i :| 0 <= i < |ks| && ks[i] == Parent(t, x);
      assert x in groups[i];
    }
  }

  /** A child step makes each context element's element children one group. */
  lemma ChildGroupsAreChildren(t: Tree, ctx: seq<Handle>, i: nat, x: Handle)
    requires i < |ctx|
    ensures x in ChildGroups(t, ctx)[i] <==> x in Children(t, ctx[i]) && IsTag(t, x)
  {
  }

  /** Filtering keeps group order: it distributes over concatenation. */
  lemma {:induction false} KeepAppend(a: seq<Handle>, b: seq<Handle>, valid: set<Handle>)
    ensures Keep(a + b, valid) == Keep(a, valid) + Keep(b, valid)
    decreases |b|
  {
    if b == [] {
      assert a + b == a;
    } else {
      var c := a + b;
      var b', y := b[..|b| - 1], b[|b| - 1];
      var tail := if y in valid then [y] else [];
      assert c[..|c| - 1] == a + b';
      assert c[|c| - 1] == y;
      KeepAppend(a, b', valid);
      SnocRegroup(Keep(c, valid), Keep(a + b', valid), tail, Keep(a, valid), Keep(b', valid), Keep(b, valid));
    }
  }

  /** `(a + b) + tail` regrouped as `a + (b + tail)`, over plain names. */
  lemma SnocRegroup(p: seq<Handle>, q: seq<Handle>, tail: seq<Handle>, a: seq<Handle>, b: seq<Handle>, r: seq<Handle>)
    requires p == q + tail && q == a + b && r == b + tail
    ensures p == a + r
  {
  }

  lemma FoundWithinContext(t: Tree, ctx: seq<Handle>, recursive: bool, cs: seq<Checker>, x: Handle)
    requires Valid(t) && InTree(t, ctx) && cs != [] && AllWellFormed(cs)
    requires x in Found(t, cs, StepGroups(t, ctx, recursive))
    ensures IsTag(t, x)
    ensures exists h :: h in ctx && x in Descendants(t, h)
    ensures !recursive ==> exists h :: h in ctx && x in Children(t, h)
  {
    var groups := StepGroups(t, ctx, recursive);
    var g :| g in groups && x in g;
    var i :| 0 <= i < |groups| && groups[i] == g;
    if recursive {
      DescendantGroupsByParent(t, ctx);
      assert x in Candidates(t, ctx);
    } else {
      assert x in Children(t, ctx[i]) && IsTag(t, x);
      assert ctx[i] in ctx;
      ChildIsDescendant(t, ctx[i], x);
    }
  }

  /** Every element a step finds is a tag below one of the elements it
      searched from (the root when the context was empty), and a child of
      one of them after `>`. */
  lemma StepWithinContext(t: Tree, root: Handle, s: string, context: seq<Handle>, x: Handle)
    requires Valid(t) && root < |t| && InTree(t, context) && s != []
    requires Step(t, root, s, context).Ok? && x in Step(t, root, s, context).value.found
    ensures IsTag(t, x)
    ensures exists h :: h in (if context == [] then [root] else context) && x in Descendants(t, h)
    ensures s[0] == '>' ==> exists h :: h in (if context == [] then [root] else context) && x in Children(t, h)
  {
    var ctx := if context == [] then [root] else context;
    var text := if s[0] != '>' then s else Strip(s[1..]);
    var p := Compound(text, []).value;
    assert Step(t, root, s, context).value.found == Found(t, p.checkers, StepGroups(t, ctx, s[0] != '>'));
    FoundWithinContext(t, ctx, s[0] != '>', p.checkers, x);
  }

  predicate BelowRoot(t: Tree, root: Handle, hs: seq<Handle>)
    requires Valid(t) && root < |t|
  {
    forall x :: x in hs ==> IsTag(t, x) && x in Descendants(t, root)
  }

  /** A step from elements below the root finds only tags below the root. */
  lemma StepBelowRoot(t: Tree, root: Handle, s: string, context: seq<Handle>)
    requires Valid(t) && root < |t| && InTree(t, context) && s != []
    requires BelowRoot(t, root, context) && Step(t, root, s, context).Ok?
    ensures BelowRoot(t, root, Step(t, root, s, context).value.found)
  {
    forall x | x in Step(t, root, s, context).value.found
      ensures IsTag(t, x) && x in Descendants(t, root)
    {
      StepWithinContext(t, root, s, context, x);
      var h :| h in (if context == [] then [root] else context) && x in Descendants(t, h);
      if h != root {
        DescendantsTransitive(t, root, h, x);
      }
    }
  }

  lemma BelowRootAppend(t: Tree, root: Handle, a: seq<Handle>, b: seq<Handle>)
    requires Valid(t) && root < |t| && BelowRoot(t, root, a) && BelowRoot(t, root, b)
    ensures BelowRoot(t, root, a + b)
  {
  }

  lemma {:induction false} SelectFromBelowRoot(t: Tree, root: Handle, s: string, context: seq<Handle>, selected: seq<Handle>)
    requires Valid(t) && root < |t| && InTree(t, context)
    requires BelowRoot(t, root, context) && BelowRoot(t, root, selected)
    requires SelectFrom(t, root, s, context, selected).Ok?
    ensures BelowRoot(t, root, SelectFrom(t, root, s, context, selected).value)
    decreases |s|
  {
    if s != [] {
      var o := Step(t, root, s, context).value;
      StepBelowRoot(t, root, s, context);
      var rest := Strip(o.rest);
      if rest != [] && rest[0] == ',' {
        BelowRootAppend(t, root, selected, o.found);
        SelectFromBelowRoot(t, root, Strip(rest[1..]), [], selected + o.found);
      } else {
        SelectFromBelowRoot(t, root, rest, o.found, selected);
      }
    }
  }

  /** Every selected element is a tag strictly below the root; in particular
      the root itself is never returned. */
  lemma SelectionBelowRoot(t: Tree, root: Handle, s: string)
    requires Valid(t) && root < |t| && Selection(t, root, s).Ok?
    ensures forall x :: x in Selection(t, root, s).value ==> IsTag(t, x) && root < x
  {
    SelectFromBelowRoot(t, root, Strip(s), [], []);
  }

  lemma StripShorter(s: string)
    ensures |Strip(s)| <= |s|
  {
  }

  /** `r` with `selected` in front of its elements. */
  function Prepend(selected: seq<Handle>, r: Result<seq<Handle>, Error>): Result<seq<Handle>, Error>
  {
    if r.Ok? then Ok(selected + r.value) else r
  }

  /** One turn of the outer loop, with the step's result named. */
  lemma SelectFromStep(t: Tree, root: Handle, s: string, context: seq<Handle>, selected: seq<Handle>, o: StepOut)
    requires Valid(t) && root < |t| && InTree(t, context) && s != []
    requires Step(t, root, s, context) == Ok(o)
    ensures InTree(t, o.found)
    ensures var rest := Strip(o.rest);
      SelectFrom(t, root, s, context, selected) ==
        if rest != [] && rest[0] == ',' then SelectFrom(t, root, Strip(rest[1..]), [], selected + o.found)
        else SelectFrom(t, root, rest, o.found, selected)
  {
  }

  lemma SelectFromFails(t: Tree, root: Handle, s: string, context: seq<Handle>, selected: seq<Handle>)
    requires Valid(t) && root < |t| && InTree(t, context) && s != []
    requires Step(t, root, s, context).Err?
    ensures SelectFrom(t, root, s, context, selected) == Err(Step(t, root, s, context).error)
  {
  }

  lemma PrependTwice(a: seq<Handle>, b: seq<Handle>, r: Result<seq<Handle>, Error>)
    ensures Prepend(a + b, r) == Prepend(a, Prepend(b, r))
  {
    if r.Ok? {
      assert a + b + r.value == a + (b + r.value);
    }
  }

  /** Results accumulate: what was selected before is a prefix of the final
      result, and the rest does not depend on it. */
  lemma {:induction false} SelectFromAccumulates(t: Tree, root: Handle, s: string, context: seq<Handle>, selected: seq<Handle>)
    requires Valid(t) && root < |t| && InTree(t, context)
    ensures SelectFrom(t, root, s, context, selected) == Prepend(selected, SelectFrom(t, root, s, context, []))
    decreases |s|
  {
    if s == [] {
      assert [] + context == context;
    } else if Step(t, root, s, context).Ok? {
      var o := Step(t, root, s, context).value;
      var rest := Strip(o.rest);
      StripShorter(o.rest);
      SelectFromStep(t, root, s, context, selected, o);
      if rest != [] && rest[0] == ',' {
        var u := Strip(rest[1..]);
        StripShorter(rest[1..]);
        SelectFromAccumulates(t, root, u, [], selected + o.found);
        SelectFromAccumulates(t, root, u, [], o.found);
        AccumulatesAtComma(t, root, s, context, selected, o);
      } else {
        SelectFromAccumulates(t, root, rest, o.found, selected);
        AccumulatesInChain(t, root, s, context, selected, o);
      }
    } else {
      SelectFromFails(t, root, s, context, selected);
      SelectFromFails(t, root, s, context, []);
    }
  }

  lemma AccumulatesAtComma(t: Tree, root: Handle, s: string, context: seq<Handle>, selected: seq<Handle>, o: StepOut)
    requires Valid(t) && root < |t| && InTree(t, context) && s != []
    requires Step(t, root, s, context) == Ok(o)
    requires Strip(o.rest) != [] && Strip(o.rest)[0] == ','
    requires var u := Strip(Strip(o.rest)[1..]);
      && SelectFrom(t, root, u, [], selected + o.found) == Prepend(selected + o.found, SelectFrom(t, root, u, [], []))
      && SelectFrom(t, root, u, [], o.found) == Prepend(o.found, SelectFrom(t, root, u, [], []))
    ensures SelectFrom(t, root, s, context, selected) == Prepend(selected, SelectFrom(t, root, s, context, []))
  {
    var u := Strip(Strip(o.rest)[1..]);
    CommaFacts(t, root, s, context, selected, o);
    PrependChain(SelectFrom(t, root, s, context, selected), SelectFrom(t, root, u, [], selected + o.found),
                 SelectFrom(t, root, s, context, []), SelectFrom(t, root, u, [], o.found),
                 SelectFrom(t, root, u, [], []), selected, o.found);
  }

  lemma CommaFacts(t: Tree, root: Handle, s: string, context: seq<Handle>, selected: seq<Handle>, o: StepOut)
    requires Valid(t) && root < |t| && InTree(t, context) && s != []
    requires Step(t, root, s, context) == Ok(o)
    requires Strip(o.rest) != [] && Strip(o.rest)[0] == ','
    ensures var u := Strip(Strip(o.rest)[1..]);
      && SelectFrom(t, root, s, context, selected) == SelectFrom(t, root, u, [], selected + o.found)
      && SelectFrom(t, root, s, context, []) == SelectFrom(t, root, u, [], o.found)
  {
    SelectFromComma(t, root, s, context, selected, o, selected + o.found);
    SelectFromComma(t, root, s, context, [], o, o.found);
  }

  lemma PrependChain(a: Result<seq<Handle>, Error>, x: Result<seq<Handle>, Error>,
                     b: Result<seq<Handle>, Error>, y: Result<seq<Handle>, Error>,
                     r: Result<seq<Handle>, Error>, selected: seq<Handle>, found: seq<Handle>)
    requires a == x && x == Prepend(selected + found, r)
    requires b == y && y == Prepend(found, r)
    ensures a == Prepend(selected, b)
  {
    PrependThrough(a, b, r, selected, found);
  }

  lemma PrependThrough(a: Result<seq<Handle>, Error>, b: Result<seq<Handle>, Error>, r: Result<seq<Handle>, Error>,
                       selected: seq<Handle>, found: seq<Handle>)
    requires a == Prepend(selected + found, r) && b == Prepend(found, r)
    ensures a == Prepend(selected, b)
  {
    PrependTwice(selected, found, r);
  }

  /** A step followed by a comma moves its results into the selection. */
  lemma SelectFromComma(t: Tree, root: Handle, s: string, context: seq<Handle>, selected: seq<Handle>, o: StepOut, sel: seq<Handle>)
    requires Valid(t) && root < |t| && InTree(t, context) && s != []
    requires Step(t, root, s, context) == Ok(o)
    requires Strip(o.rest) != [] && Strip(o.rest)[0] == ','
    requires sel == selected + o.found
    ensures SelectFrom(t, root, s, context, selected) == SelectFrom(t, root, Strip(Strip(o.rest)[1..]), [], sel)
  {
    SelectFromStep(t, root, s, context, selected, o);
  }

  lemma AccumulatesInChain(t: Tree, root: Handle, s: string, context: seq<Handle>, selected: seq<Handle>, o: StepOut)
    requires Valid(t) && root < |t| && InTree(t, context) && s != []
    requires Step(t, root, s, context) == Ok(o)
    requires Strip(o.rest) == [] || Strip(o.rest)[0] != ','
    requires InTree(t, o.found)
    requires var rest := Strip(o.rest);
      SelectFrom(t, root, rest, o.found, selected) == Prepend(selected, SelectFrom(t, root, rest, o.found, []))
    ensures SelectFrom(t, root, s, context, selected) == Prepend(selected, SelectFrom(t, root, s, context, []))
  {
    SelectFromStep(t, root, s, context, selected, o);
    SelectFromStep(t, root, s, context, [], o);
  }

  /** A comma ends a chain: its elements come first, followed by whatever
      the next chain selects searching from the root again. */
  lemma ChainsConcatenate(t: Tree, root: Handle, s: string, context: seq<Handle>, o: StepOut)
    requires Valid(t) && root < |t| && InTree(t, context) && s != []
    requires Step(t, root, s, context) == Ok(o)
    requires Strip(o.rest) != [] && Strip(o.rest)[0] == ','
    ensures SelectFrom(t, root, s, context, []) == Prepend(o.found, SelectFrom(t, root, Strip(Strip(o.rest)[1..]), [], []))
  {
    SelectFromComma(t, root, s, context, [], o, o.found);
    SelectFromAccumulates(t, root, Strip(Strip(o.rest)[1..]), [], o.found);
  }

  /** An empty context searches from the root: at the start, after a comma,
      and after a step that found nothing. */
  lemma EmptyContextSearchesRoot(t: Tree, root: Handle, s: string, selected: seq<Handle>)
    requires Valid(t) && root < |t| && s != []
    ensures SelectFrom(t, root, s, [], selected) == SelectFrom(t, root, s, [root], selected)
  {
  }

  /** A step that finds nothing does not end the chain: the next step
      searches from the root again rather than from an empty context. */
  lemma NoMatchRestarts(t: Tree, root: Handle, s: string, context: seq<Handle>, selected: seq<Handle>, rest: string)
    requires Valid(t) && root < |t| && InTree(t, context) && s != []
    requires Step(t, root, s, context) == Ok(StepOut([], rest))
    requires Strip(rest) != [] && Strip(rest)[0] != ','
    ensures SelectFrom(t, root, s, context, selected) == SelectFrom(t, root, Strip(rest), [root], selected)
  {
    SelectFromStep(t, root, s, context, selected, StepOut([], rest));
    EmptyContextSearchesRoot(t, root, Strip(rest), selected);
  }

  /** A compound that builds no checker raises `Unknown selector` with the
      text it could not read. */
  lemma UnknownSelectorRaised(t: Tree, root: Handle, s: string, context: seq<Handle>)
    requires Valid(t) && root < |t| && InTree(t, context) && s != [] && s[0] != '>'
    requires Compound(s, []).Ok? && Compound(s, []).value.checkers == []
    ensures SelectFrom(t, root, s, context, []) == Err(UnknownSelector(Compound(s, []).value.rest))
  {
  }

  /** A lone `>` raises `Unknown selector ''`. */
  lemma LoneChildCombinator(t: Tree, root: Handle, s: string)
    requires Valid(t) && root < |t| && s == ['>']
    ensures Selection(t, root, s) == Err(UnknownSelector(""))
  {
    LoneGreaterText(s);
    StripNoSpace(s);
    ChildStepOnNothing(t, root, s, []);
    SelectFromFails(t, root, s, [], []);
  }

  lemma LoneGreaterText(s: string)
    requires s == ['>']
    ensures s[0] == '>' && !IsSpace(s[0]) && s[1..] == [] && Strip(s[1..]) == []
  {
    assert s[1..] == [];
  }

  /** A child step with nothing after the `>` builds no checker. */
  lemma ChildStepOnNothing(t: Tree, root: Handle, s: string, context: seq<Handle>)
    requires Valid(t) && root < |t| && InTree(t, context) && s != [] && s[0] == '>'
    requires Strip(s[1..]) == []
    ensures Step(t, root, s, context) == Err(UnknownSelector(""))
  {
    CompoundIdleOnEmpty([]);
  }

  /** A blank selector selects nothing. */
  lemma BlankSelectsNothing(t: Tree, root: Handle, s: string)
    requires Valid(t) && root < |t| && forall i :: 0 <= i < |s| ==> IsSpace(s[i])
    ensures Selection(t, root, s) == Ok([])
  {
    AllSpaceStrip(s);
    var none: seq<Handle> := [];
    assert none + none == none;
  }

  /** `select(root, name)` for a type name returns exactly the element
      descendants of the root with that name. */
  lemma {:induction false} TypeSelection(t: Tree, root: Handle, n: string)
    requires Valid(t) && root < |t| && IsTypeName(n)
    ensures Selection(t, root, n).Ok?
    ensures forall x :: x in Selection(t, root, n).value <==> IsTag(t, x) && x in Descendants(t, root) && Name(t, x) == n
  {
    StripNoSpace(n);
    TypeSelectorAlone(n);
    var found := Found(t, [Tag(n)], DescendantGroups(t, [root]));
    TypeStep(t, root, n);
    SelectFromStep(t, root, n, [], [], StepOut(found, ""));
    assert Strip("") == "";
    assert Selection(t, root, n) == Ok([] + found);
    forall x
      ensures x in found <==> IsTag(t, x) && x in Descendants(t, root) && Name(t, x) == n
    {
      FoundByName(t, root, n, x);
    }
  }

  /** A type name as a step from the root finds the named element descendants. */
  lemma TypeStep(t: Tree, root: Handle, n: string)
    requires Valid(t) && root < |t| && IsTypeName(n)
    requires Compound(n, []) == Ok(Parsed("", [Tag(n)]))
    ensures Step(t, root, n, []) == Ok(StepOut(Found(t, [Tag(n)], DescendantGroups(t, [root])), ""))
  {
    assert n[0] != '>';
  }

  lemma FoundByName(t: Tree, root: Handle, n: string, x: Handle)
    requires Valid(t) && root < |t|
    ensures x in Found(t, [Tag(n)], DescendantGroups(t, [root])) <==>
      IsTag(t, x) && x in Descendants(t, root) && Name(t, x) == n
  {
    var groups := DescendantGroups(t, [root]);
    DescendantGroupsByParent(t, [root]);
    assert forall g :: MatchAll(t, [Tag(n)], g) == Match(t, Tag(n), g);
    assert root in [root];
    if x in Candidates(t, [root]) {
      var h :| h in [root] && x in Descendants(t, h);
    }
  }
}
