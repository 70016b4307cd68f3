/** The matching half of the selector engine (bs4_selector.py): what each
    simple selector's `__call__` returns for one group of sibling elements.
    Results are sets of handles, as the source's are sets of `id(tag)`. */
module SelectorMatch {
  import opened Wrappers
  import opened Strings
  import opened Dom
  import opened SelectorParse

  /** `tag.get(key)`: the attribute value, `None` when absent. */
  function Get(t: Tree, h: Handle, key: string): Option<AttrValue>
  {
    if IsTag(t, h) && key in t[h].attrs then Some(t[h].attrs[key]) else None
  }

  /** `tag.name` (empty for a node that is not an element). */
  function Name(t: Tree, h: Handle): string
  {
    if IsTag(t, h) then t[h].name else ""
  }

  /** The value the string operators compare: a missing attribute reads as
      `''` and a token list is joined with single spaces. */
  function AttrText(v: Option<AttrValue>): string
  {
    match v
    case None => ""
    case Some(Str(s)) => s
    case Some(Tokens(items)) => Join(" ", items)
  }

  /** The tokens `~=`, `|=` and the class selector test: a missing attribute
      reads as `[]` and a single string is split on whitespace. */
  function AttrTokens(v: Option<AttrValue>): seq<string>
  {
    match v
    case None => []
    case Some(Str(s)) => Split(s)
    case Some(Tokens(items)) => items
  }

  /** Some token starts with `value` (`|=` as the source implements it). */
  predicate SomeTokenStartsWith(tokens: seq<string>, value: string)
  {
    exists i :: 0 <= i < |tokens| && StartsWith(tokens[i], value)
  }

  /** The `_op_*` method chosen for an operator, applied to one attribute value. */
  predicate OpHolds(op: AttrOp, value: string, v: Option<AttrValue>)
  {
    match op
    case OpExists => v.Some?
    case OpEqual => AttrText(v) == value
    case OpStartsWith => StartsWith(AttrText(v), value)
    case OpEndsWith => EndsWith(AttrText(v), value)
    case OpContains => Contains(AttrText(v), value)
    case OpIn => value in AttrTokens(v)
    case OpInStart => SomeTokenStartsWith(AttrTokens(v), value)
  }

  /** Python's `xs[n]` position for a sequence of length `len`: negative
      indices count from the end; `None` is an `IndexError`. */
  function PyIndex(n: int, len: nat): (r: Option<nat>)
    ensures r.Some? <==> -(len as int) <= n < len
    ensures r.Some? ==> r.value < len && (if n >= 0 then r.value == n else r.value == len + n)
  {
    if 0 <= n < len then Some(n)
    else if -(len as int) <= n < 0 then Some(len + n)
    else None
  }

  /** `xs[n]`, or `None` where Python raises `IndexError`. */
  function Pick(xs: seq<Handle>, n: int): (r: Option<Handle>)
    ensures r.Some? ==> r.value in xs
  {
    match PyIndex(n, |xs|)
    case Some(i) => Some(xs[i])
    case None => None
  }

  /** The elements of `xs` named `name`, in order (one entry of the `types` dict). */
  function SameName(t: Tree, xs: seq<Handle>, name: string): (r: seq<Handle>)
    ensures forall x :: x in r ==> x in xs && Name(t, x) == name
    ensures forall x :: x in xs && Name(t, x) == name ==> x in r
  {
    if xs == [] then []
    else
      var last := xs[|xs| - 1];
      SameName(t, xs[..|xs| - 1], name) + (if Name(t, last) == name then [last] else [])
  }

  /** The sibling combinators restricted to left partners among the first
      `n` elements: `tags[i+1]` (for `+`) or any later `tags[j]` (for `~`)
      that matches `B`, after a `tags[i]` that matches `A`. */
  function Siblings(tags: seq<Handle>, a: set<Handle>, b: set<Handle>, multiple: bool, n: nat): (r: set<Handle>)
    ensures forall x :: x in r ==> x in tags && x in b
  {
    if multiple then
      set i, j | 0 <= i < n && i < j < |tags| && tags[i] in a && tags[j] in b :: tags[j]
    else
      set i | 0 <= i < n && i + 1 < |tags| && tags[i] in a && tags[i + 1] in b :: tags[i + 1]
  }

  /** What the checker `c` returns for the sibling group `tags`. */
  function Match(t: Tree, c: Checker, tags: seq<Handle>): (r: set<Handle>)
    requires WellFormed(c)
    ensures forall x :: x in r ==> x in tags
    decreases c, 1
  {
    match c
    case Tag(name) => set x | x in tags && Name(t, x) == name
    case Attrib(key, op, value) => set x | x in tags && OpHolds(op, value, Get(t, x, key))
    case Id(id) => set x | x in tags && Get(t, x, "id") == Some(Str(id))
    case Class(cls) => set x | x in tags && cls in AttrTokens(Get(t, x, "class"))
    case ChildSlicer(nth) =>
      (match Pick(tags, nth) case Some(x) => {x} case None => {})
    case TypeSlicer(nth) =>
      set x | x in tags && Pick(SameName(t, tags, Name(t, x)), nth) == Some(x)
    case After(first, second, multiple) =>
      Siblings(tags, MatchAll(t, first, tags), MatchAll(t, second, tags), multiple, |tags|)
  }

  /** `valid = checker[0](tags); for c in checker[1:]: valid &= c(tags)`. */
  function MatchAll(t: Tree, cs: seq<Checker>, tags: seq<Handle>): (r: set<Handle>)
    requires cs != [] && AllWellFormed(cs)
    ensures forall x :: x in r ==> x in tags
    decreases cs, 0
  {
    if |cs| == 1 then Match(t, cs[0], tags)
    else MatchAll(t, cs[..|cs| - 1], tags) * Match(t, cs[|cs| - 1], tags)
  }

  // ---------------------------------------------------------------------------
  // The checkers that run loops, as the source runs them

  /** Calls a checker: the type slicer and the sibling combinators run their
      loops, every other checker is a single comprehension. */
  method Evaluate(t: Tree, c: Checker, tags: seq<Handle>) returns (r: set<Handle>)
    requires WellFormed(c)
    ensures r == Match(t, c, tags)
    decreases c, 2
  {
    match c
    case TypeSlicer(nth) =>
      r := TypeSlicerCall(t, nth, tags);
    case After(_, _, _) =>
      r := AfterCall(t, c, tags);
    case _ =>
      r := Match(t, c, tags);
  }

  /** The intersection loop over a compound selector's checkers. */
  method EvaluateAll(t: Tree, cs: seq<Checker>, tags: seq<Handle>) returns (valid: set<Handle>)
    requires cs != [] && AllWellFormed(cs)
    ensures valid == MatchAll(t, cs, tags)
    decreases cs, 3
  {
    valid := Evaluate(t, cs[0], tags);
    assert cs[..1] == [cs[0]];
    for i := 1 to |cs|
      invariant valid == MatchAll(t, cs[..i], tags)
    {
      var v := Evaluate(t, cs[i], tags);
      assert cs[..i + 1][..i] == cs[..i];
      valid := valid * v;
    }
    assert cs[..|cs|] == cs;
  }

  /** The type-slicer picks for the names in `names`. */
  function PickedFor(t: Tree, tags: seq<Handle>, nth: int, names: set<string>): set<Handle>
  {
    set x | x in tags && Name(t, x) in names && Pick(SameName(t, tags, Name(t, x)), nth) == Some(x)
  }

  lemma PickedForAdd(t: Tree, tags: seq<Handle>, nth: int, names: set<string>, n: string)
    ensures PickedFor(t, tags, nth, names + {n}) ==
      PickedFor(t, tags, nth, names) +
      (match Pick(SameName(t, tags, n), nth) case Some(x) => {x} case None => {})
  {
  }

  lemma PickedForStep(t: Tree, tags: seq<Handle>, nth: int, keys: set<string>, remaining: set<string>, n: string)
    requires n in remaining && remaining <= keys
    ensures PickedFor(t, tags, nth, keys - (remaining - {n})) ==
      PickedFor(t, tags, nth, keys - remaining) +
      (match Pick(SameName(t, tags, n), nth) case Some(x) => {x} case None => {})
  {
    assert keys - (remaining - {n}) == (keys - remaining) + {n};
    PickedForAdd(t, tags, nth, keys - remaining, n);
  }

  lemma SameNameSnoc(t: Tree, xs: seq<Handle>, x: Handle, n: string)
    ensures SameName(t, xs + [x], n) == SameName(t, xs, n) + (if Name(t, x) == n then [x] else [])
  {
    assert (xs + [x])[..|xs|] == xs;
  }

  /** `types` maps every name present in `xs` to its elements in order. */
  ghost predicate GroupsOf(t: Tree, types: map<string, seq<Handle>>, xs: seq<Handle>)
  {
    && (forall n :: n in types ==> types[n] == SameName(t, xs, n))
    && (forall n :: n !in types ==> SameName(t, xs, n) == [])
    && (forall x :: x in xs ==> Name(t, x) in types)
  }

  lemma GroupsOfAppend(t: Tree, types: map<string, seq<Handle>>, xs: seq<Handle>, x: Handle, ys: seq<Handle>)
    requires GroupsOf(t, types, xs) && ys == xs + [x]
    ensures GroupsOf(t, types[Name(t, x) := (if Name(t, x) in types then types[Name(t, x)] else []) + [x]], ys)
  {
    var k := Name(t, x);
    var group := if k in types then types[k] else [];
    var types' := types[k := group + [x]];
    assert group == SameName(t, xs, k);
    forall m | m in types'
      ensures types'[m] == SameName(t, xs + [x], m)
    {
      SameNameSnoc(t, xs, x, m);
    }
    forall m | m !in types'
      ensures SameName(t, xs + [x], m) == []
    {
      SameNameSnoc(t, xs, x, m);
    }
    forall y | y in xs + [x]
      ensures Name(t, y) in types'
    {
      if y != x {
        assert y in xs;
      }
    }
  }

  lemma GroupOfName(t: Tree, types: map<string, seq<Handle>>, tags: seq<Handle>, n: string)
    requires GroupsOf(t, types, tags) && n in types
    ensures types[n] == SameName(t, tags, n)
  {
  }

  /** Picking over every name present is what the type slicer selects. */
  lemma PickedForAllNames(t: Tree, tags: seq<Handle>, nth: int, types: map<string, seq<Handle>>)
    requires GroupsOf(t, types, tags)
    ensures PickedFor(t, tags, nth, types.Keys) == Match(t, TypeSlicer(nth), tags)
  {
  }

  /** `for tag in tags: types.setdefault(tag.name, []).append(tag)`: every
      name present gets its elements in order. */
  method GroupByName(t: Tree, tags: seq<Handle>) returns (types: map<string, seq<Handle>>)
    ensures GroupsOf(t, types, tags)
  {
    types := map[];
    for i := 0 to |tags|
      invariant GroupsOf(t, types, tags[..i])
    {
      var n := Name(t, tags[i]);
      var group := if n in types then types[n] else [];
      GroupsOfStep(t, types, tags, i);
      types := types[n := group + [tags[i]]];
    }
    assert tags[..|tags|] == tags;
  }

  lemma GroupsOfStep(t: Tree, types: map<string, seq<Handle>>, tags: seq<Handle>, i: nat)
    requires i < |tags| && GroupsOf(t, types, tags[..i])
    ensures GroupsOf(t, types[Name(t, tags[i]) := (if Name(t, tags[i]) in types then types[Name(t, tags[i])] else []) + [tags[i]]], tags[..i + 1])
  {
    TakeOneMore(tags, i);
    GroupsOfAppend(t, types, tags[..i], tags[i], tags[..i + 1]);
  }

  lemma TakeOneMore(xs: seq<Handle>, i: nat)
    requires i < |xs|
    ensures xs[..i + 1] == xs[..i] + [xs[i]]
  {
  }

  /** `CheckerTypeSlicer.__call__`: group the elements by name in a dict,
      then keep the element at index `nth` of every group that has one. */
  method TypeSlicerCall(t: Tree, nth: int, tags: seq<Handle>) returns (filtered: set<Handle>)
    ensures filtered == Match(t, TypeSlicer(nth), tags)
  {
    var types := GroupByName(t, tags);
    PickedForAllNames(t, tags, nth, types);
    filtered := {};
    var remaining := types.Keys;
    while remaining != {}
      invariant remaining <= types.Keys
      invariant filtered == PickedFor(t, tags, nth, types.Keys - remaining)
      decreases remaining
    {
      var n :| n in remaining;
      PickedForStep(t, tags, nth, types.Keys, remaining, n);
      GroupOfName(t, types, tags, n);
      match Pick(types[n], nth) {
        case Some(x) =>
          filtered := filtered + {x};
        case None =>
      }
      remaining := remaining - {n};
    }
  }

  /** `CheckerAfter.__call__`. */
  method AfterCall(t: Tree, c: Checker, tags: seq<Handle>) returns (filtered: set<Handle>)
    requires c.After? && WellFormed(c)
    ensures filtered == Match(t, c, tags)
    decreases c, 0
  {
    var first := EvaluateAll(t, c.first, tags);
    var second := EvaluateAll(t, c.second, tags);
    filtered := {};
    for i := 0 to |tags|
      invariant filtered == Siblings(tags, first, second, c.multiple, i)
    {
      SiblingsStep(tags, first, second, c.multiple, i);
      if tags[i] in first && i + 1 < |tags| {
        if c.multiple {
          filtered := filtered + LaterIn(tags, second, i + 1);
        } else if tags[i + 1] in second {
          filtered := filtered + {tags[i + 1]};
        }
      }
    }
  }

  /** `[s for s in tags[k:] if s in b]`, as a set. */
  function LaterIn(tags: seq<Handle>, b: set<Handle>, k: nat): set<Handle>
  {
    set j | k <= j < |tags| && tags[j] in b :: tags[j]
  }

  /** What the left partner `tags[i]` adds to the sibling matches. */
  function SiblingsAt(tags: seq<Handle>, a: set<Handle>, b: set<Handle>, multiple: bool, i: nat): set<Handle>
    requires i < |tags|
  {
    if tags[i] in a && i + 1 < |tags| then
      if multiple then LaterIn(tags, b, i + 1)
      else if tags[i + 1] in b then {tags[i + 1]} else {}
    else {}
  }

  lemma SiblingsStep(tags: seq<Handle>, a: set<Handle>, b: set<Handle>, multiple: bool, i: nat)
    requires i < |tags|
    ensures Siblings(tags, a, b, multiple, i + 1) == Siblings(tags, a, b, multiple, i) + SiblingsAt(tags, a, b, multiple, i)
  {
    var lhs := Siblings(tags, a, b, multiple, i + 1);
    var rhs := Siblings(tags, a, b, multiple, i) + SiblingsAt(tags, a, b, multiple, i);
    forall x | x in lhs
      ensures x in rhs
    {
      if multiple {
        var p, q :| 0 <= p < i + 1 && p < q < |tags| && tags[p] in a && tags[q] in b && x == tags[q];
        if p == i {
          assert x in LaterIn(tags, b, i + 1);
        } else {
          assert x in Siblings(tags, a, b, multiple, i);
        }
      } else {
        var p :| 0 <= p < i + 1 && p + 1 < |tags| && tags[p] in a && tags[p + 1] in b && x == tags[p + 1];
        if p < i {
          assert x in Siblings(tags, a, b, multiple, i);
        }
      }
    }
    forall x | x in rhs
      ensures x in lhs
    {
      if multiple && x in SiblingsAt(tags, a, b, multiple, i) {
        var q :| i + 1 <= q < |tags| && tags[q] in b && x == tags[q];
        assert 0 <= i < i + 1 && i < q < |tags| && tags[i] in a;
      }
    }
  }

  // ---------------------------------------------------------------------------
  // Properties of the checkers

  /** An element matches a compound selector iff every checker matches it. */
  lemma {:induction false} MatchAllEvery(t: Tree, cs: seq<Checker>, tags: seq<Handle>, x: Handle)
    requires cs != [] && AllWellFormed(cs)
    ensures x in MatchAll(t, cs, tags) <==> forall i :: 0 <= i < |cs| ==> x in Match(t, cs[i], tags)
    decreases |cs|
  {
    if |cs| > 1 {
      var init := cs[..|cs| - 1];
      var last := cs[|cs| - 1];
      assert forall i :: 0 <= i < |init| ==> init[i] == cs[i];
      assert MatchAll(t, cs, tags) == MatchAll(t, init, tags) * Match(t, last, tags);
      MatchAllEvery(t, init, tags, x);
    }
  }

  /** Every adjacent-sibling match is a general-sibling match. */
  lemma AdjacentWithinGeneral(tags: seq<Handle>, a: set<Handle>, b: set<Handle>)
    ensures Siblings(tags, a, b, false, |tags|) <= Siblings(tags, a, b, true, |tags|)
  {
    forall x | x in Siblings(tags, a, b, false, |tags|)
      ensures x in Siblings(tags, a, b, true, |tags|)
    {
      var i :| 0 <= i < |tags| && i + 1 < |tags| && tags[i] in a && tags[i + 1] in b && x == tags[i + 1];
      assert 0 <= i < |tags| && i < i + 1 < |tags| && tags[i] in a && tags[i + 1] in b;
    }
  }

  /** `.c` and `[class~=c]` select the same elements. */
  lemma ClassIsTokenAttribute(t: Tree, cls: string, tags: seq<Handle>)
    ensures Match(t, Class(cls), tags) == Match(t, Attrib("class", OpIn, cls), tags)
  {
  }

  /** `#i` selects only elements that `[id=i]` selects. */
  lemma IdWithinAttributeEqual(t: Tree, id: string, tags: seq<Handle>)
    ensures Match(t, Id(id), tags) <= Match(t, Attrib("id", OpEqual, id), tags)
  {
  }

  /** `[a~=v]` implies `[a|=v]` and `[a*=v]`. */
  lemma TokenImpliesPrefixAndSubstring(value: string, v: Option<AttrValue>)
    requires OpHolds(OpIn, value, v)
    ensures OpHolds(OpInStart, value, v)
    ensures OpHolds(OpContains, value, v)
  {
    var tokens := AttrTokens(v);
    var i :| 0 <= i < |tokens| && tokens[i] == value;
    assert StartsWith(tokens[i], value);
    match v
    case Some(Str(s)) =>
      SplitWordsOccur(s, value);
    case Some(Tokens(items)) =>
      JoinedPartsOccur(" ", items, value);
  }

  /** `[a=v]` implies `[a^=v]`, `[a$=v]` and `[a*=v]`. */
  lemma EqualImpliesPrefixSuffixSubstring(value: string, v: Option<AttrValue>)
    requires OpHolds(OpEqual, value, v)
    ensures OpHolds(OpStartsWith, value, v)
    ensures OpHolds(OpEndsWith, value, v)
    ensures OpHolds(OpContains, value, v)
  {
    PrefixContains(AttrText(v), value);
  }

  /** A missing attribute reads as `''` for the string operators, so it
      matches exactly the empty value there, and never matches `[a]`, `~=`
      or `|=`. */
  lemma MissingAttribute(op: AttrOp, value: string)
    ensures OpHolds(op, value, None) <==>
      (op in {OpEqual, OpStartsWith, OpEndsWith, OpContains} && value == "")
  {
    if op == OpContains && value == "" {
      assert OccursAt("", "", 0);
    }
  }

  /** A child slicer picks at most one element, at its Python index. */
  lemma ChildSlicerPicksIndex(t: Tree, nth: int, tags: seq<Handle>, x: Handle)
    ensures |Match(t, ChildSlicer(nth), tags)| <= 1
    ensures x in Match(t, ChildSlicer(nth), tags) <==>
      (0 <= nth < |tags| && x == tags[nth]) || (-|tags| <= nth < 0 && x == tags[|tags| + nth])
  {
  }

  /** `:nth-child(0)` reads index `0 - 1`, so it picks the last element. */
  lemma NthChildZeroPicksLast(t: Tree, tags: seq<Handle>)
    requires tags != []
    ensures SliceIndex(Nth, Some("0")) == Ok(-1)
    ensures Match(t, ChildSlicer(-1), tags) == {tags[|tags| - 1]}
  {
    ZeroReadsMinusOne();
    ChildSlicerMinusOne(t, tags);
  }

  lemma ZeroReadsMinusOne()
    ensures SliceIndex(Nth, Some("0")) == Ok(-1)
  {
    ParseIntOfString(0);
    assert IntToString(0) == "0";
  }

  lemma ChildSlicerMinusOne(t: Tree, tags: seq<Handle>)
    requires tags != []
    ensures Match(t, ChildSlicer(-1), tags) == {tags[|tags| - 1]}
  {
    forall x
      ensures x in Match(t, ChildSlicer(-1), tags) <==> x == tags[|tags| - 1]
    {
      ChildSlicerPicksIndex(t, -1, tags, x);
    }
  }

  /** A type slicer picks at most one element per name. */
  lemma TypeSlicerOnePerName(t: Tree, nth: int, tags: seq<Handle>, x: Handle, y: Handle)
    requires x in Match(t, TypeSlicer(nth), tags) && y in Match(t, TypeSlicer(nth), tags)
    requires Name(t, x) == Name(t, y)
    ensures x == y
  {
  }

  lemma {:induction false} SameNameAll(t: Tree, xs: seq<Handle>, name: string)
    requires forall i :: 0 <= i < |xs| ==> Name(t, xs[i]) == name
    ensures SameName(t, xs, name) == xs
  {
    if xs != [] {
      var init := xs[..|xs| - 1];
      var last := xs[|xs| - 1];
      forall i | 0 <= i < |init|
        ensures Name(t, init[i]) == name
      {
        assert init[i] == xs[i];
      }
      SameNameAll(t, init, name);
      assert SameName(t, xs, name) == SameName(t, init, name) + [last];
      assert init + [last] == xs;
    }
  }

  /** Among elements that all share one name, a type slicer is a child slicer. */
  lemma TypeSlicerOfOneName(t: Tree, nth: int, tags: seq<Handle>, name: string)
    requires forall i :: 0 <= i < |tags| ==> Name(t, tags[i]) == name
    ensures Match(t, TypeSlicer(nth), tags) == Match(t, ChildSlicer(nth), tags)
  {
    SameNameAll(t, tags, name);
    forall x
      ensures x in Match(t, TypeSlicer(nth), tags) <==> x in Match(t, ChildSlicer(nth), tags)
    {
      if x in tags {
        var i :| 0 <= i < |tags| && tags[i] == x;
        assert Name(t, x) == name;
      }
    }
  }
}
