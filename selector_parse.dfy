/** The tokenizer half of the selector engine (bs4_selector.py): one builder per
    simple-selector kind, each consuming a prefix of the selector text, and the
    fixpoint loop that assembles them into a compound selector. The regular
    expressions of the source are replaced by explicit prefix scanners. */
module SelectorParse {
  import opened Wrappers
  import opened Strings

  /** The attribute operators, one per `_op_*` method of `CheckerAttrib`. */
  datatype AttrOp =
    | OpExists      // `[a]`
    | OpEqual       // `[a=v]`
    | OpIn          // `[a~=v]`
    | OpInStart     // `[a|=v]`
    | OpStartsWith  // `[a^=v]`
    | OpEndsWith    // `[a$=v]`
    | OpContains    // `[a*=v]`

  /** One simple selector; the constructors follow the `CHECKERS` classes. */
  datatype Checker =
    | Tag(tagName: string)
    | Attrib(attrib: string, op: AttrOp, value: string)
    | Id(tagId: string)
    | ChildSlicer(nth: int)
    | TypeSlicer(nth: int)
    | After(first: seq<Checker>, second: seq<Checker>, multiple: bool)
    | Class(tagClass: string)

  /** What a `select` call can raise. The first four are `SelectorError`; the
      last two are the `TypeError` and `ValueError` that `int()` raises inside
      `CheckerChildSlicer`, which nothing converts. */
  datatype Error =
    | UnknownSelector(rest: string)
    | MissingBefore(op: char)
    | MissingAfter(op: char)
    | InvalidNth(arg: Option<string>)
    | IntTypeError
    | IntValueError(text: string)
  {
    predicate IsSelectorError()
    {
      !IntTypeError? && !IntValueError?
    }
  }

  /** The remaining selector text and the simple selectors built so far. */
  datatype Parsed = Parsed(rest: string, checkers: seq<Checker>)

  predicate IsSuffix(a: string, b: string)
  {
    |a| <= |b| && b[|b| - |a|..] == a
  }

  /** A builder step either leaves the text and the list alone or consumes a
      non-empty prefix of the text. */
  predicate Advances(s: string, acc: seq<Checker>, p: Parsed)
  {
    IsSuffix(p.rest, s) && (p.rest == s ==> p.checkers == acc)
  }

  predicate AdvancesOk(s: string, acc: seq<Checker>, r: Result<Parsed, Error>)
  {
    r.Ok? ==> Advances(s, acc, r.value)
  }

  // ---------------------------------------------------------------------------
  // Character classes of the source's patterns

  /** `[-.a-zA-Z0-9_]`, the name characters of the tag, id and class patterns. */
  predicate IsNameChar(c: char)
  {
    IsAsciiLetter(c) || IsAsciiDigit(c) || c == '-' || c == '.' || c == '_'
  }

  /** `[a-zA-Z_]`, the first character of a type selector. */
  predicate IsNameStart(c: char)
  {
    IsAsciiLetter(c) || c == '_'
  }

  /** `[\w-]`, the attribute-name characters. */
  predicate IsAttribChar(c: char)
  {
    IsAsciiLetter(c) || IsAsciiDigit(c) || c == '_' || c == '-'
  }

  /** Length of the leading run of name characters. */
  function NameLen(s: string): (n: nat)
    ensures n <= |s|
    ensures forall i :: 0 <= i < n ==> IsNameChar(s[i])
    ensures n == |s| || !IsNameChar(s[n])
  {
    if s == [] || !IsNameChar(s[0]) then 0 else 1 + NameLen(s[1..])
  }

  /** End of the run of attribute-name characters (`[\w-]*`) starting at `p`. */
  function AttribEnd(s: string, p: nat): (n: nat)
    requires p <= |s|
    ensures p <= n <= |s|
    ensures forall i :: p <= i < n ==> IsAttribChar(s[i])
    ensures n == |s| || !IsAttribChar(s[n])
    decreases |s| - p
  {
    if p == |s| || !IsAttribChar(s[p]) then p else AttribEnd(s, p + 1)
  }

  /** Length of the leading run of whitespace (`\s*`). */
  function SpaceLen(s: string): (n: nat)
    ensures n <= |s|
    ensures forall i :: 0 <= i < n ==> IsSpace(s[i])
    ensures n == |s| || !IsSpace(s[n])
  {
    if s == [] || !IsSpace(s[0]) then 0 else 1 + SpaceLen(s[1..])
  }

  /** End of the run of characters other than `]` and `"` (`[^\]"]*`) starting at `p`. */
  function ValueEnd(s: string, p: nat): (n: nat)
    requires p <= |s|
    ensures p <= n <= |s|
    ensures forall i :: p <= i < n ==> s[i] != ']' && s[i] != '"'
    ensures n == |s| || s[n] == ']' || s[n] == '"'
    decreases |s| - p
  {
    if p == |s| || s[p] == ']' || s[p] == '"' then p else ValueEnd(s, p + 1)
  }

  /** Length of the leading run of characters other than `)`. */
  function ArgLen(s: string): (n: nat)
    ensures n <= |s|
    ensures forall i :: 0 <= i < n ==> s[i] != ')'
    ensures n == |s| || s[n] == ')'
  {
    if s == [] || s[0] == ')' then 0 else 1 + ArgLen(s[1..])
  }

  // ---------------------------------------------------------------------------
  // Builders that cannot fail: type, id, class and attribute selectors

  /** `CheckerTag.build`: `[a-zA-Z_][-.a-zA-Z0-9_]*` names the element type.
      The name absorbs `.`, and the trailing delimiter is not consumed. */
  function BuildTag(s: string, acc: seq<Checker>): (r: Parsed)
    ensures Advances(s, acc, r)
    ensures s != [] && IsNameStart(s[0]) ==>
      && r.checkers == acc + [Tag(s[..|s| - |r.rest|])]
      && |r.rest| < |s|
      && (forall i :: 0 <= i < |s| - |r.rest| ==> IsNameChar(s[i]))
      && (r.rest == [] || !IsNameChar(r.rest[0]))
    ensures !(s != [] && IsNameStart(s[0])) ==> r == Parsed(s, acc)
  {
    if s != [] && IsNameStart(s[0]) then
      var n := 1 + NameLen(s[1..]);
      Parsed(s[n..], acc + [Tag(s[..n])])
    else
      Parsed(s, acc)
  }

  /** The name after a one-character `lead` (`#` for ids, `.` for classes),
      with the number of characters consumed; `None` when there is no name. */
  function ScanLeadName(s: string, lead: char): (r: Option<(string, nat)>)
    ensures r.Some? ==>
      && 1 < r.value.1 <= |s| && s[0] == lead
      && r.value.0 == s[1..r.value.1]
      && (forall i :: 1 <= i < r.value.1 ==> IsNameChar(s[i]))
      && (r.value.1 == |s| || !IsNameChar(s[r.value.1]))
    ensures r.None? <==> !(|s| >= 2 && s[0] == lead && IsNameChar(s[1]))
  {
    if |s| >= 2 && s[0] == lead && IsNameChar(s[1]) then
      var n := NameLen(s[1..]);
      Some((s[1..1 + n], 1 + n))
    else
      None
  }

  /** `CheckerId.build`: `#` followed by `[-.a-zA-Z0-9_]+`. */
  function BuildId(s: string, acc: seq<Checker>): (r: Parsed)
    ensures Advances(s, acc, r)
  {
    match ScanLeadName(s, '#')
    case Some((name, n)) => Parsed(s[n..], acc + [Id(name)])
    case None => Parsed(s, acc)
  }

  /** `CheckerClass.build`: `.` followed by `[-.a-zA-Z0-9_]+`. */
  function BuildClass(s: string, acc: seq<Checker>): (r: Parsed)
    ensures Advances(s, acc, r)
  {
    match ScanLeadName(s, '.')
    case Some((name, n)) => Parsed(s[n..], acc + [Class(name)])
    case None => Parsed(s, acc)
  }

  /** The source text of an operator; `[a]` has none. */
  function OpText(op: AttrOp): string
  {
    match op
    case OpExists => ""
    case OpEqual => "="
    case OpIn => "~="
    case OpInStart => "|="
    case OpStartsWith => "^="
    case OpEndsWith => "$="
    case OpContains => "*="
  }

  /** The characters of operator `o` stand at position `p` of `s`. */
  predicate OpCharsAt(s: string, p: nat, o: AttrOp)
  {
    match o
    case OpExists => p <= |s|
    case OpEqual => p < |s| && s[p] == '='
    case OpIn => p + 1 < |s| && s[p] == '~' && s[p + 1] == '='
    case OpInStart => p + 1 < |s| && s[p] == '|' && s[p + 1] == '='
    case OpStartsWith => p + 1 < |s| && s[p] == '^' && s[p + 1] == '='
    case OpEndsWith => p + 1 < |s| && s[p] == '$' && s[p + 1] == '='
    case OpContains => p + 1 < |s| && s[p] == '*' && s[p + 1] == '='
  }

  /** The text of `o` is at `p` iff its characters are. */
  lemma OpTextAt(s: string, p: nat, o: AttrOp)
    requires p <= |s|
    ensures StartsWithAt(s, p, OpText(o)) <==> OpCharsAt(s, p, o)
  {
    var w := OpText(o);
    if p + |w| <= |s| && |w| == 2 {
      assert s[p..p + 2] == w <==> s[p] == w[0] && s[p + 1] == w[1] by {
        if s[p] == w[0] && s[p + 1] == w[1] {
          assert s[p..p + 2] == [s[p], s[p + 1]];
        }
      }
    } else if p + |w| <= |s| && |w| == 1 {
      assert s[p..p + 1] == w <==> s[p] == w[0] by {
        if s[p] == w[0] {
          assert s[p..p + 1] == [s[p]];
        }
      }
    }
  }

  /** The operator after the attribute name at position `p`, and where the
      value part starts: the operator whose characters are there, if any
      (`[~|^$*]?=`; a lone operator character without `=` is no operator). */
  function ScanOp(s: string, p: nat): (r: (AttrOp, nat))
    requires p <= |s|
    ensures p <= r.1 <= |s|
    ensures r.0 == OpExists <==> r.1 == p
    ensures OpCharsAt(s, p, r.0) && r.1 == p + |OpText(r.0)|
    ensures forall o :: o != OpExists && OpCharsAt(s, p, o) ==> r.0 == o
  {
    if p + 1 < |s| && s[p + 1] == '=' && s[p] == '~' then (OpIn, p + 2)
    else if p + 1 < |s| && s[p + 1] == '=' && s[p] == '|' then (OpInStart, p + 2)
    else if p + 1 < |s| && s[p + 1] == '=' && s[p] == '^' then (OpStartsWith, p + 2)
    else if p + 1 < |s| && s[p + 1] == '=' && s[p] == '$' then (OpEndsWith, p + 2)
    else if p + 1 < |s| && s[p + 1] == '=' && s[p] == '*' then (OpContains, p + 2)
    else if p < |s| && s[p] == '=' then (OpEqual, p + 1)
    else (OpExists, p)
  }

  /** The operator `ScanOp` finds is the one whose text stands at `p`: its
      text is there, and no other operator's text is. */
  lemma ScanOpText(s: string, p: nat)
    requires p <= |s|
    ensures StartsWithAt(s, p, OpText(ScanOp(s, p).0))
    ensures forall o :: o != OpExists && StartsWithAt(s, p, OpText(o)) ==> ScanOp(s, p).0 == o
  {
    OpTextAt(s, p, ScanOp(s, p).0);
    forall o | o != OpExists && StartsWithAt(s, p, OpText(o))
      ensures ScanOp(s, p).0 == o
    {
      OpTextAt(s, p, o);
    }
  }

  /** The parts of an attribute selector: name, operator, value and the number
      of characters consumed. This is the first match of the pattern
      `\[([\w-]+)([~|^$*]?=)?"?([^\]"]*)"?\s*\]`: the greedy choices are the
      only ones that can succeed, so no backtracking is modelled. */
  function ScanAttrib(s: string): (r: Option<(string, AttrOp, string, nat)>)
    ensures r.Some? ==> 3 <= r.value.3 <= |s| && s[0] == '[' && s[r.value.3 - 1] == ']'
    ensures r.Some? ==> r.value.0 != [] && forall i :: 0 <= i < |r.value.0| ==> IsAttribChar(r.value.0[i])
    ensures r.Some? ==> forall i :: 0 <= i < |r.value.2| ==> r.value.2[i] != ']' && r.value.2[i] != '"'
    ensures r.Some? ==> r.value.0 == s[1..AttribEnd(s, 1)]
  {
    if |s| < 2 || s[0] != '[' then None
    else
      var p := AttribEnd(s, 1);
      if p == 1 then None
      else
        var op := ScanOp(s, p);
        var v := ScanValue(s, op.1);
        if v.None? then None
        else
          AttribSlice(s, p);
          Some((s[1..p], op.0, v.value.0, v.value.1))
  }

  /** What `ScanAttrib` reads after the name that ends at `p`: the operator
      `ScanOp` finds at `p` and the value `ScanValue` finds right after the
      operator's text. */
  lemma ScanAttribParts(s: string)
    ensures ScanAttrib(s).Some? ==>
      var p := AttribEnd(s, 1);
      var (name, op, value, n) := ScanAttrib(s).value;
      && p == 1 + |name|
      && ScanOp(s, p).0 == op
      && ScanValue(s, p + |OpText(op)|) == Some((value, n))
  {
    if |s| >= 2 && s[0] == '[' && AttribEnd(s, 1) > 1 {
      var p := AttribEnd(s, 1);
      var op := ScanOp(s, p);
      var v := ScanValue(s, op.1);
      if v.Some? {
        assert |s[1..p]| == p - 1;
        assert ScanAttrib(s) == Some((s[1..p], op.0, v.value.0, v.value.1));
      }
    }
  }

  /** `ScanAttrib` fails exactly when there is no `[`, no name, or no closed
      value after the operator. */
  lemma ScanAttribFails(s: string)
    ensures ScanAttrib(s).None? <==>
      || |s| < 2 || s[0] != '[' || AttribEnd(s, 1) == 1
      || ScanValue(s, ScanOp(s, AttribEnd(s, 1)).1).None?
  {
    if |s| >= 2 && s[0] == '[' && AttribEnd(s, 1) > 1 {
      var p := AttribEnd(s, 1);
      var v := ScanValue(s, ScanOp(s, p).1);
      assert ScanAttrib(s).None? <==> v.None?;
    }
  }

  /** The name between `[` and `p` consists of attribute-name characters. */
  lemma AttribSlice(s: string, p: nat)
    requires 1 <= p <= |s| && forall i :: 1 <= i < p ==> IsAttribChar(s[i])
    ensures |s[1..p]| == p - 1 && forall i :: 0 <= i < p - 1 ==> IsAttribChar(s[1..p][i])
  {
    forall i | 0 <= i < p - 1
      ensures IsAttribChar(s[1..p][i])
    {
      assert s[1..p][i] == s[1 + i];
    }
  }

  /** Where the value of an attribute selector starts: after the opening `"`, if any. */
  function ValueStart(s: string, q: nat): nat
  {
    if q < |s| && s[q] == '"' then q + 1 else q
  }

  /** `"?\s*\]` closes a value ending at `e` and the match ends at `n`: a `]`
      right after the value, or a `"`, any whitespace, and the `]`. */
  predicate Closes(s: string, e: nat, n: nat)
  {
    && e < n <= |s| && s[n - 1] == ']'
    && (n == e + 1 || (s[e] == '"' && forall i :: e < i < n - 1 ==> IsSpace(s[i])))
  }

  /** `"?([^\]"]*)"?\s*\]` at position `q`: the value and where the match
      ends. The value is the longest run without `]` or `"` after the
      optional opening quote, and the match succeeds iff that run is closed. */
  function ScanValue(s: string, q: nat): (r: Option<(string, nat)>)
    requires q <= |s|
    ensures r.Some? ==> q < r.value.1 <= |s| && s[r.value.1 - 1] == ']'
    ensures r.Some? ==> forall i :: 0 <= i < |r.value.0| ==> r.value.0[i] != ']' && r.value.0[i] != '"'
    ensures var v0 := ValueStart(s, q);
      v0 <= |s| && (r.Some? ==> r.value.0 == s[v0..ValueEnd(s, v0)])
    ensures var e := ValueEnd(s, ValueStart(s, q));
      && (r.Some? ==> Closes(s, e, r.value.1))
      && (r.None? ==> forall n :: !Closes(s, e, n))
  {
    var v0 := ValueStart(s, q);
    var e := ValueEnd(s, v0);
    var n := CloseEnd(s, e);
    if n.None? then None
    else
      var value := s[v0..e];
      assert forall i :: 0 <= i < |value| ==> value[i] == s[v0 + i];
      Some((value, n.value))
  }

  /** Where `"?\s*\]` ends after a value ending at `e`, if it matches there. */
  function CloseEnd(s: string, e: nat): (r: Option<nat>)
    ensures r.Some? ==> Closes(s, e, r.value)
    ensures r.None? ==> forall n :: !Closes(s, e, n)
  {
    if e < |s| && s[e] == ']' then Some(e + 1)
    else if e < |s| && s[e] == '"' then
      var f: nat := e + 1 + SpaceLen(s[e + 1..]);
      SpacesAfterQuote(s, e, f);
      if f < |s| && s[f] == ']' then Some(f + 1) else None
    else
      NoClose(s, e);
      None
  }

  /** After a closing quote at `e`, the whitespace run ends at `f`: the value
      is closed iff a `]` is there, and then the match ends just after it. */
  lemma SpacesAfterQuote(s: string, e: nat, f: nat)
    requires e < |s| && s[e] == '"' && f == e + 1 + SpaceLen(s[e + 1..])
    ensures f <= |s| && forall i :: e < i < f ==> IsSpace(s[i])
    ensures f < |s| && s[f] == ']' ==> Closes(s, e, f + 1)
    ensures !(f < |s| && s[f] == ']') ==> forall n :: !Closes(s, e, n)
  {
    var u := s[e + 1..];
    assert forall i :: e < i < f ==> s[i] == u[i - e - 1];
    assert f < |s| ==> s[f] == u[f - e - 1];
  }

  /** Without `]` or `"` after the value there is nothing to close it. */
  lemma NoClose(s: string, e: nat)
    requires !(e < |s| && (s[e] == ']' || s[e] == '"'))
    ensures forall n :: !Closes(s, e, n)
  {
  }

  /** A slice agrees with the suffix it starts. */
  lemma SliceOfSuffix(s: string, a: nat, b: nat)
    requires a <= b <= |s|
    ensures forall i :: 0 <= i < b - a ==> s[a..b][i] == s[a..][i]
  {
  }

  /** `CheckerAttrib.build`. */
  function BuildAttrib(s: string, acc: seq<Checker>): (r: Parsed)
    ensures Advances(s, acc, r)
  {
    match ScanAttrib(s)
    case Some((name, op, value, n)) => Parsed(s[n..], acc + [Attrib(name, op, value)])
    case None => Parsed(s, acc)
  }

  // ---------------------------------------------------------------------------
  // Python's int() on a string

  /** A decimal literal as `int()` accepts it: digits, single `_` between digits. */
  predicate IsDigitBody(b: string)
  {
    && b != []
    && IsAsciiDigit(b[0]) && IsAsciiDigit(b[|b| - 1])
    && forall i :: 0 <= i < |b| ==> DigitOrJoin(b, i)
  }

  /** Position `i` of a digit body holds a digit, or a single `_` between digits. */
  predicate DigitOrJoin(b: string, i: nat)
    requires i < |b|
  {
    IsAsciiDigit(b[i]) || (b[i] == '_' && 0 < i < |b| - 1 && IsAsciiDigit(b[i + 1]))
  }

  /** `int(s)` for a `str` argument: `None` where Python raises `ValueError`. */
  function ParseInt(s: string): (r: Option<int>)
  {
    var t := Strip(s);
    if t == [] then None
    else
      var neg := t[0] == '-';
      var body := if t[0] == '-' || t[0] == '+' then t[1..] else t;
      var v: int := DigitsValue(body);
      if IsDigitBody(body) then Some(if neg then -v else v)
      else None
  }

  function IntToString(n: int): string
  {
    if n < 0 then "-" + NatToString(-n) else NatToString(n)
  }

  /** `int(str(n)) == n` for a natural number. */
  lemma ParseIntOfNat(m: nat)
    ensures ParseInt(NatToString(m)) == Some(m)
  {
    var d := NatToString(m);
    NatToStringValue(m);
    StripNoSpace(d);
  }

  /** `int(str(n)) == n` for a negative number. */
  lemma ParseIntOfNegative(m: nat)
    requires m > 0
    ensures ParseInt("-" + NatToString(m)) == Some(-(m as int))
  {
    NatToStringValue(m);
    NegativeDigitsRead(NatToString(m));
  }

  /** A `-` and then a run of digits reads as the negated value of the digits. */
  lemma NegativeDigitsRead(d: string)
    requires d != [] && forall i :: 0 <= i < |d| ==> IsAsciiDigit(d[i])
    ensures ParseInt("-" + d) == Some(-(DigitsValue(d) as int))
  {
    var s := "-" + d;
    assert s[|s| - 1] == d[|d| - 1];
    StripNoSpace(s);
    assert s[1..] == d;
    DigitsAreBody(d);
    ParseIntNegativeText(s, d);
  }

  /** A digit string is a digit body. */
  lemma DigitsAreBody(d: string)
    requires d != [] && forall i :: 0 <= i < |d| ==> IsAsciiDigit(d[i])
    ensures IsDigitBody(d)
  {
  }

  /** Text already stripped, a `-` and then a digit body reads as the negated body. */
  lemma ParseIntNegativeText(s: string, d: string)
    requires s != [] && Strip(s) == s && s[0] == '-' && s[1..] == d && IsDigitBody(d)
    ensures ParseInt(s) == Some(-(DigitsValue(d) as int))
  {
  }

  /** `int(str(n)) == n`: the integer reader inverts the decimal writer. */
  lemma ParseIntOfString(n: int)
    ensures ParseInt(IntToString(n)) == Some(n)
  {
    if n < 0 {
      var m: nat := -n;
      assert IntToString(n) == "-" + NatToString(m);
      ParseIntOfNegative(m);
    } else {
      assert IntToString(n) == NatToString(n);
      ParseIntOfNat(n);
    }
  }

  lemma StripNoSpace(s: string)
    requires s != [] && !IsSpace(s[0]) && !IsSpace(s[|s| - 1])
    ensures Strip(s) == s
  {
    assert LStrip(s, Spaces) == s;
    assert RStrip(s, Spaces) == s;
  }

  // ---------------------------------------------------------------------------
  // Structural pseudo-classes

  /** Which position a slicer names. */
  datatype SliceOp = First | Last | Nth | NthLast

  function SliceOpName(op: SliceOp, kind: string): string
  {
    match op
    case First => "first-" + kind
    case Last => "last-" + kind
    case Nth => "nth-" + kind
    case NthLast => "nth-last-" + kind
  }

  predicate StartsWithAt(s: string, p: nat, w: string)
  {
    p + |w| <= |s| && s[p..p + |w|] == w
  }

  /** The first alternative of `first-K|last-K|nth-K|nth-last-K` after `:`. */
  function ScanSliceOp(s: string, kind: string): (r: Option<SliceOp>)
    ensures r.Some? ==> |s| > 0 && s[0] == ':' && StartsWithAt(s, 1, SliceOpName(r.value, kind))
  {
    if s == [] || s[0] != ':' then None
    else if StartsWithAt(s, 1, SliceOpName(First, kind)) then Some(First)
    else if StartsWithAt(s, 1, SliceOpName(Last, kind)) then Some(Last)
    else if StartsWithAt(s, 1, SliceOpName(Nth, kind)) then Some(Nth)
    else if StartsWithAt(s, 1, SliceOpName(NthLast, kind)) then Some(NthLast)
    else None
  }

  /** The optional `(arg)` at position `p`: `[^)]+` between parentheses. */
  function ScanArg(s: string, p: nat): (r: (Option<string>, nat))
    requires p <= |s|
    ensures p <= r.1 <= |s|
    ensures r.0.Some? ==> r.1 == p + |r.0.value| + 2 && r.0.value != [] && s[p] == '(' && s[r.1 - 1] == ')'
    ensures r.0.None? ==> r.1 == p
  {
    if p < |s| && s[p] == '(' then
      var n := ArgLen(s[p + 1..]);
      if n > 0 && p + 1 + n < |s| then (Some(s[p + 1..p + 1 + n]), p + n + 2) else (None, p)
    else (None, p)
  }

  /** The slicer pattern for `kind`: operation, argument, characters consumed. */
  function ScanSlicer(s: string, kind: string): (r: Option<(SliceOp, Option<string>, nat)>)
    ensures r.Some? ==> 1 < r.value.2 <= |s|
  {
    match ScanSliceOp(s, kind)
    case None => None
    case Some(op) =>
      var p := 1 + |SliceOpName(op, kind)|;
      var (arg, n) := ScanArg(s, p);
      Some((op, arg, n))
  }

  /** The Python index a slicer uses: `0`, `-1`, `n-1` or `-n`. The argument
      is read with `int()`; `None` is a missing argument (`int(None)`). */
  function SliceIndex(op: SliceOp, arg: Option<string>): (r: Result<int, Error>)
    ensures r.Err? ==> r.error == (if arg.None? then IntTypeError else IntValueError(arg.value))
  {
    match op
    case First => Ok(0)
    case Last => Ok(-1)
    case Nth =>
      if arg.None? then Err(IntTypeError)
      else if ParseInt(arg.value).None? then Err(IntValueError(arg.value))
      else Ok(ParseInt(arg.value).value - 1)
    case NthLast =>
      if arg.None? then Err(IntTypeError)
      else if ParseInt(arg.value).None? then Err(IntValueError(arg.value))
      else Ok(-ParseInt(arg.value).value)
  }

  /** `CheckerChildSlicer.build`: a failing `int()` escapes unconverted. */
  function BuildChildSlicer(s: string, acc: seq<Checker>): (r: Result<Parsed, Error>)
    ensures AdvancesOk(s, acc, r)
    ensures r.Err? ==> !r.error.IsSelectorError()
  {
    match ScanSlicer(s, "child")
    case None => Ok(Parsed(s, acc))
    case Some((op, arg, n)) =>
      var nth :- SliceIndex(op, arg);
      Ok(Parsed(s[n..], acc + [ChildSlicer(nth)]))
  }

  /** `CheckerTypeSlicer.build`: the same failure becomes a `SelectorError`. */
  function BuildTypeSlicer(s: string, acc: seq<Checker>): (r: Result<Parsed, Error>)
    ensures AdvancesOk(s, acc, r)
    ensures r.Err? ==> r.error.InvalidNth?
  {
    match ScanSlicer(s, "of-type")
    case None => Ok(Parsed(s, acc))
    case Some((op, arg, n)) =>
      match SliceIndex(op, arg)
      case Err(_) => Err(InvalidNth(arg))
      case Ok(nth) => Ok(Parsed(s[n..], acc + [TypeSlicer(nth)]))
  }

  // ---------------------------------------------------------------------------
  // Sibling combinators and the fixpoint loop


  /** `\s*([+~])\s*`: the operator and the number of characters consumed. */
  function ScanAfter(s: string): (r: Option<(char, nat)>)
    ensures r.Some? ==> (r.value.0 == '+' || r.value.0 == '~') && 0 < r.value.1 <= |s|
  {
    var k := SpaceLen(s);
    if k < |s| && (s[k] == '+' || s[k] == '~') then
      Some((s[k], k + 1 + SpaceLen(s[k + 1..])))
    else None
  }

  /** The builder classes, and `CHECKERS`, the order every pass runs them in. */
  datatype Builder = BuildsTag | BuildsAttrib | BuildsId | BuildsChildSlicer
                   | BuildsTypeSlicer | BuildsAfter | BuildsClass

  const Checkers: seq<Builder> :=
    [BuildsTag, BuildsAttrib, BuildsId, BuildsChildSlicer, BuildsTypeSlicer, BuildsAfter, BuildsClass]

  /** A checker the matcher can evaluate: both operands of a sibling
      combinator are non-empty (the matcher reads `first[0]` and `second[0]`). */
  predicate WellFormed(c: Checker)
    decreases c
  {
    c.After? ==>
      && c.first != [] && c.second != []
      && (forall x :: x in c.first ==> WellFormed(x))
      && (forall x :: x in c.second ==> WellFormed(x))
  }

  predicate AllWellFormed(cs: seq<Checker>)
  {
    forall x :: x in cs ==> WellFormed(x)
  }

  /** The `build` class method of one builder. */
  function Build(b: Builder, s: string, acc: seq<Checker>): (r: Result<Parsed, Error>)
    ensures AdvancesOk(s, acc, r)
    ensures r.Ok? && AllWellFormed(acc) ==> AllWellFormed(r.value.checkers)
    decreases |s|, 1, 0
  {
    match b
    case BuildsTag => Ok(BuildTag(s, acc))
    case BuildsAttrib => Ok(BuildAttrib(s, acc))
    case BuildsId => Ok(BuildId(s, acc))
    case BuildsChildSlicer => BuildChildSlicer(s, acc)
    case BuildsTypeSlicer => BuildTypeSlicer(s, acc)
    case BuildsAfter => BuildAfter(s, acc)
    case BuildsClass => Ok(BuildClass(s, acc))
  }

  /** `CheckerAfter.build`: the right operand is a whole compound parsed by a
      nested fixpoint loop (so `a + b + c` is `a + (b + c)`); the checkers
      built so far become the left operand. Errors of the nested loop come
      first, then the constructor's two checks in order. */
  function BuildAfter(s: string, acc: seq<Checker>): (r: Result<Parsed, Error>)
    ensures AdvancesOk(s, acc, r)
    ensures r.Ok? && AllWellFormed(acc) ==> AllWellFormed(r.value.checkers)
    decreases |s|, 0, 0
  {
    match ScanAfter(s)
    case None => Ok(Parsed(s, acc))
    case Some((op, n)) =>
      var second :- Compound(s[n..], []);
      if acc == [] then Err(MissingBefore(op))
      else if second.checkers == [] then Err(MissingAfter(op))
      else
        SuffixTrans(second.rest, s[n..], s);
        Ok(Parsed(second.rest, [After(acc, second.checkers, op == '~')]))
  }

  /** One pass of the fixpoint loop from position `i` of `Checkers` on. */
  function PassFrom(s: string, acc: seq<Checker>, i: nat): (r: Result<Parsed, Error>)
    requires i <= |Checkers|
    ensures AdvancesOk(s, acc, r)
    ensures r.Ok? && AllWellFormed(acc) ==> AllWellFormed(r.value.checkers)
    decreases |s|, 2, |Checkers| - i
  {
    if i == |Checkers| then Ok(Parsed(s, acc))
    else
      var p :- Build(Checkers[i], s, acc);
      var q :- PassFrom(p.rest, p.checkers, i + 1);
      AdvancesTrans(s, acc, p, q);
      Ok(q)
  }

  /** One pass: every builder once, in the `CHECKERS` order. */
  function Pass(s: string, acc: seq<Checker>): (r: Result<Parsed, Error>)
    ensures AdvancesOk(s, acc, r)
    decreases |s|, 3, 0
  {
    PassFrom(s, acc, 0)
  }

  /** The compound-selector fixpoint: passes repeat until one consumes
      nothing, so the result is a fixpoint of `Pass`. */
  function Compound(s: string, acc: seq<Checker>): (r: Result<Parsed, Error>)
    ensures AdvancesOk(s, acc, r)
    ensures r.Ok? && AllWellFormed(acc) ==> AllWellFormed(r.value.checkers)
    decreases |s|, 4, 0
  {
    var p :- Pass(s, acc);
    if p.rest == s then Ok(p)
    else
      SuffixShorter(p.rest, s);
      var q :- Compound(p.rest, p.checkers);
      AdvancesTrans(s, acc, p, q);
      Ok(q)
  }

  /** The loop stops only at a fixpoint: one more pass changes nothing. */
  lemma {:induction false} CompoundIsFixpoint(s: string, acc: seq<Checker>)
    requires Compound(s, acc).Ok?
    ensures Pass(Compound(s, acc).value.rest, Compound(s, acc).value.checkers) == Compound(s, acc)
    decreases |s|
  {
    var p := Pass(s, acc).value;
    if p.rest == s {
      assert p.checkers == acc;
    } else {
      SuffixShorter(p.rest, s);
      CompoundIsFixpoint(p.rest, p.checkers);
    }
  }

  lemma SuffixShorter(a: string, b: string)
    requires IsSuffix(a, b) && a != b
    ensures |a| < |b|
  {
  }

  lemma SuffixTrans(a: string, b: string, c: string)
    requires IsSuffix(a, b)
    requires |b| <= |c| && c[|c| - |b|..] == b
    ensures IsSuffix(a, c)
  {
    assert c[|c| - |a|..] == b[|b| - |a|..];
  }

  lemma AdvancesTrans(s: string, acc: seq<Checker>, p: Parsed, q: Parsed)
    requires Advances(s, acc, p) && Advances(p.rest, p.checkers, q)
    ensures Advances(s, acc, q)
  {
    SuffixTrans(q.rest, p.rest, s);
    if q.rest == s {
      assert |p.rest| == |s|;
      assert p.rest == s[|s| - |p.rest|..];
    }
  }

  // ---------------------------------------------------------------------------
  // The fixpoint loop as the source runs it

  /** The `while old_sel != selector` loop, shared by `select` and by
      `CheckerAfter.build`; an exception raised by a builder ends it. */
  method BuildCompound(s: string, acc: seq<Checker>) returns (r: Result<Parsed, Error>)
    ensures r == Compound(s, acc)
    decreases |s|, 4, 0
  {
    var selector, checker := s, acc;
    var oldSel: Option<string> := None;
    while oldSel != Some(selector)
      invariant IsSuffix(selector, s)
      invariant oldSel.Some? ==> IsSuffix(selector, oldSel.value)
      invariant Compound(s, acc) ==
        (if oldSel == Some(selector) then Ok(Parsed(selector, checker)) else Compound(selector, checker))
      decreases if oldSel.None? then |selector| + 1 else |oldSel.value|
    {
      if oldSel.Some? {
        SuffixShorter(selector, oldSel.value);
      }
      oldSel := Some(selector);
      var p := RunPass(selector, checker);
      if p.Err? {
        return p;
      }
      SuffixTrans(p.value.rest, selector, s);
      selector, checker := p.value.rest, p.value.checkers;
    }
    r := Ok(Parsed(selector, checker));
  }

  /** `for c in CHECKERS: selector, checker = c.build(selector, checker)`. */
  method RunPass(s: string, acc: seq<Checker>) returns (r: Result<Parsed, Error>)
    ensures r == Pass(s, acc)
    decreases |s|, 3, 0
  {
    var p := Parsed(s, acc);
    for i := 0 to |Checkers|
      invariant Advances(s, acc, p)
      invariant PassFrom(s, acc, 0) == PassFrom(p.rest, p.checkers, i)
    {
      var q := RunBuild(Checkers[i], p.rest, p.checkers);
      if q.Err? {
        PassFromErr(p.rest, p.checkers, i, q.error);
        return q;
      }
      PassFromOk(p.rest, p.checkers, i, q.value);
      AdvancesTrans(s, acc, p, q.value);
      p := q.value;
    }
    r := Ok(p);
  }

  /** Dispatches to one builder; only the sibling combinator runs a loop. */
  method RunBuild(b: Builder, s: string, acc: seq<Checker>) returns (r: Result<Parsed, Error>)
    ensures r == Build(b, s, acc)
    decreases |s|, 1, 0
  {
    if b == BuildsAfter {
      r := RunAfter(s, acc);
    } else {
      r := Build(b, s, acc);
    }
  }

  /** `CheckerAfter.build` with its nested loop. */
  method RunAfter(s: string, acc: seq<Checker>) returns (r: Result<Parsed, Error>)
    ensures r == BuildAfter(s, acc)
    decreases |s|, 0, 0
  {
    match ScanAfter(s)
    case None =>
      r := Ok(Parsed(s, acc));
    case Some((op, n)) =>
      var second := BuildCompound(s[n..], []);
      if second.Err? {
        r := Err(second.error);
      } else if acc == [] {
        r := Err(MissingBefore(op));
      } else if second.value.checkers == [] {
        r := Err(MissingAfter(op));
      } else {
        r := Ok(Parsed(second.value.rest, [After(acc, second.value.checkers, op == '~')]));
      }
  }

  // ---------------------------------------------------------------------------
  // How particular selectors tokenize

  /** On an exhausted selector every builder does nothing. */
  lemma BuildIdleOnEmpty(b: Builder, acc: seq<Checker>)
    ensures Build(b, "", acc) == Ok(Parsed("", acc))
  {
  }

  lemma {:induction false} PassFromIdleOnEmpty(acc: seq<Checker>, i: nat)
    requires i <= |Checkers|
    ensures PassFrom("", acc, i) == Ok(Parsed("", acc))
    decreases |Checkers| - i
  {
    if i < |Checkers| {
      BuildIdleOnEmpty(Checkers[i], acc);
      PassFromIdleOnEmpty(acc, i + 1);
    }
  }

  /** The fixpoint loop stops at once on an exhausted selector. */
  lemma CompoundIdleOnEmpty(acc: seq<Checker>)
    ensures Compound("", acc) == Ok(Parsed("", acc))
  {
    PassFromIdleOnEmpty(acc, 0);
  }

  /** A type-selector name: `[a-zA-Z_][-.a-zA-Z0-9_]*`. */
  predicate IsTypeName(x: string)
  {
    x != [] && IsNameStart(x[0]) && forall i :: 0 <= i < |x| ==> IsNameChar(x[i])
  }

  /** The type scanner takes a whole name and stops at the first character
      that cannot continue it. */
  lemma BuildTagTakesName(x: string, t: string, acc: seq<Checker>)
    requires IsTypeName(x) && (t == [] || !IsNameChar(t[0]))
    ensures BuildTag(x + t, acc) == Parsed(t, acc + [Tag(x)])
  {
    var s := x + t;
    var u := s[1..];
    assert forall i :: 0 <= i < |x| - 1 ==> u[i] == x[i + 1];
    assert |x| - 1 < |u| ==> u[|x| - 1] == t[0];
    NameLenExact(u, |x| - 1);
  }

  /** `NameLen` is the length of the name-character run. */
  lemma NameLenExact(u: string, k: nat)
    requires k <= |u| && forall i :: 0 <= i < k ==> IsNameChar(u[i])
    requires k == |u| || !IsNameChar(u[k])
    ensures NameLen(u) == k
  {
  }

  /** A type selector on its own is one `Tag` checker, dots included. */
  lemma {:induction false} TypeSelectorAlone(x: string)
    requires IsTypeName(x)
    ensures Compound(x, []) == Ok(Parsed("", [Tag(x)]))
  {
    var p := Parsed("", [Tag(x)]);
    BuildTagTakesName(x, "", []);
    assert x + "" == x;
    assert BuildTag(x, []) == p;
    assert Build(BuildsTag, x, []) == Ok(p);
    PassFromIdleOnEmpty(p.checkers, 1);
    assert Pass(x, []) == Ok(p);
    CompoundIdleOnEmpty(p.checkers);
  }

  /** `div.x` is one type selector, not a type and a class. */
  lemma TypeNameAbsorbsDot()
    ensures Compound("div.x", []) == Ok(Parsed("", [Tag("div.x")]))
  {
    TypeSelectorAlone("div.x");
  }

  /** The id scanner takes the whole name after `#`. */
  lemma BuildIdTakesName(x: string)
    requires x != [] && forall i :: 0 <= i < |x| ==> IsNameChar(x[i])
    ensures BuildId("#" + x, []) == Parsed("", [Id(x)])
  {
    var s := "#" + x;
    assert s[1..] == x && s[1..1 + |x|] == x && s[1 + |x|..] == "";
    NameLenExact(x, |x|);
    assert ScanLeadName(s, '#') == Some((x, 1 + |x|));
  }

  /** An id selector on its own is one `Id` checker, dots included. */
  lemma {:induction false} IdSelectorAlone(x: string)
    requires x != [] && forall i :: 0 <= i < |x| ==> IsNameChar(x[i])
    ensures Compound("#" + x, []) == Ok(Parsed("", [Id(x)]))
  {
    var s := "#" + x;
    var p := Parsed("", [Id(x)]);
    BuildIdTakesName(x);
    assert s[0] == '#';
    CheckersOrder();
    PassFromSkip(s, [], 0, 2);
    BuildThird(s, []);
    PassFromOk(s, [], 2, p);
    PassFromIdleOnEmpty(p.checkers, 3);
    CompoundStep(s, [], p);
    CompoundIdleOnEmpty(p.checkers);
  }

  /** The class scanner takes the whole name after `.`. */
  lemma BuildClassTakesName(x: string)
    requires x != [] && forall i :: 0 <= i < |x| ==> IsNameChar(x[i])
    ensures BuildClass("." + x, []) == Parsed("", [Class(x)])
  {
    var s := "." + x;
    assert s[1..] == x && s[1..1 + |x|] == x && s[1 + |x|..] == "";
    NameLenExact(x, |x|);
    assert ScanLeadName(s, '.') == Some((x, 1 + |x|));
  }

  /** A class selector on its own is one `Class` checker: the six builders
      before the class scanner leave a leading `.` alone. */
  lemma {:induction false} ClassSelectorAlone(x: string)
    requires x != [] && forall i :: 0 <= i < |x| ==> IsNameChar(x[i])
    ensures Compound("." + x, []) == Ok(Parsed("", [Class(x)]))
  {
    var s := "." + x;
    var p := Parsed("", [Class(x)]);
    BuildClassTakesName(x);
    assert s[0] == '.';
    DotNotAfter(s);
    CheckersOrder();
    PassFromSkip(s, [], 0, 6);
    BuildSeventh(s, []);
    PassFromOk(s, [], 6, p);
    PassFromIdleOnEmpty(p.checkers, 7);
    CompoundStep(s, [], p);
    CompoundIdleOnEmpty(p.checkers);
  }

  /** Text that starts with `.` holds no sibling combinator at its head. */
  lemma DotNotAfter(s: string)
    requires s != [] && s[0] == '.'
    ensures ScanAfter(s).None?
  {
    assert SpaceLen(s) == 0;
  }

  lemma BuildSeventh(s: string, acc: seq<Checker>)
    ensures Build(Checkers[6], s, acc) == Ok(BuildClass(s, acc))
  {
    CheckersOrder();
  }

  /** `#a.b` is the id `a.b`, not an id and a class. */
  lemma IdAbsorbsDot()
    ensures Compound("#a.b", []) == Ok(Parsed("", [Id("a.b")]))
  {
    var x := "a.b";
    assert "#a.b" == "#" + x;
    assert IsNameChar(x[0]) && IsNameChar(x[1]) && IsNameChar(x[2]);
    IdSelectorAlone(x);
  }

  /** The first character of `s` cannot start what builder `b` scans. */
  predicate StartsOutside(b: Builder, s: string)
  {
    match b
    case BuildsTag => s == [] || !IsNameStart(s[0])
    case BuildsAttrib => s == [] || s[0] != '['
    case BuildsId => s == [] || s[0] != '#'
    case BuildsChildSlicer => s == [] || s[0] != ':'
    case BuildsTypeSlicer => s == [] || s[0] != ':'
    case BuildsAfter => ScanAfter(s).None?
    case BuildsClass => s == [] || s[0] != '.'
  }

  lemma BuildIdle(b: Builder, s: string, acc: seq<Checker>)
    requires StartsOutside(b, s)
    ensures Build(b, s, acc) == Ok(Parsed(s, acc))
  {
  }

  /** One step of a pass: the builder at position `i` runs, then the rest. */
  lemma PassFromOk(s: string, acc: seq<Checker>, i: nat, p: Parsed)
    requires i < |Checkers| && Build(Checkers[i], s, acc) == Ok(p)
    ensures PassFrom(s, acc, i) == PassFrom(p.rest, p.checkers, i + 1)
  {
  }

  /** A builder that raises ends the pass with its error. */
  lemma PassFromErr(s: string, acc: seq<Checker>, i: nat, e: Error)
    requires i < |Checkers| && Build(Checkers[i], s, acc) == Err(e)
    ensures PassFrom(s, acc, i) == Err(e)
  {
  }

  /** Builders that cannot start on `s` leave a pass where it was. */
  lemma {:induction false} PassFromSkip(s: string, acc: seq<Checker>, i: nat, j: nat)
    requires i <= j <= |Checkers|
    requires forall k :: i <= k < j ==> StartsOutside(Checkers[k], s)
    ensures PassFrom(s, acc, i) == PassFrom(s, acc, j)
    decreases j - i
  {
    if i < j {
      PassFromIdle(s, acc, i);
      PassFromSkip(s, acc, i + 1, j);
    }
  }

  /** A builder that cannot start on `s` passes it on to the next one. */
  lemma PassFromIdle(s: string, acc: seq<Checker>, i: nat)
    requires i < |Checkers| && StartsOutside(Checkers[i], s)
    ensures PassFrom(s, acc, i) == PassFrom(s, acc, i + 1)
  {
    BuildIdle(Checkers[i], s, acc);
    PassFromOk(s, acc, i, Parsed(s, acc));
  }

  /** An error in a pass ends the fixpoint loop with that error. */
  lemma CompoundErr(s: string, acc: seq<Checker>, e: Error)
    requires PassFrom(s, acc, 0) == Err(e)
    ensures Compound(s, acc) == Err(e)
  {
  }

  /** A pass that changes nothing ends the fixpoint loop. */
  lemma CompoundStep(s: string, acc: seq<Checker>, p: Parsed)
    requires Pass(s, acc) == Ok(p)
    ensures Compound(s, acc) == if p.rest == s then Ok(p) else Compound(p.rest, p.checkers)
  {
  }

  /** Where the builders this file reasons about sit in `CHECKERS`. */
  lemma CheckersOrder()
    ensures Checkers[0] == BuildsTag && Checkers[1] == BuildsAttrib && Checkers[2] == BuildsId
    ensures Checkers[3] == BuildsChildSlicer && Checkers[4] == BuildsTypeSlicer
    ensures Checkers[5] == BuildsAfter && Checkers[6] == BuildsClass
  {
  }

  lemma BuildThird(s: string, acc: seq<Checker>)
    ensures Build(Checkers[2], s, acc) == Ok(BuildId(s, acc))
  {
    CheckersOrder();
  }

  lemma BuildFirst(s: string, acc: seq<Checker>)
    ensures Build(Checkers[0], s, acc) == Ok(BuildTag(s, acc))
  {
    CheckersOrder();
  }

  lemma BuildSixth(s: string, acc: seq<Checker>)
    ensures Build(Checkers[5], s, acc) == BuildAfter(s, acc)
  {
    CheckersOrder();
  }

  /** The five builders before the sibling combinator cannot start on text
      that begins with neither a name character nor `[`, `#` or `:`. */
  lemma PassFromSkipToSibling(s: string, acc: seq<Checker>)
    requires s == [] || (!IsNameStart(s[0]) && s[0] != '[' && s[0] != '#' && s[0] != ':')
    ensures PassFrom(s, acc, 0) == PassFrom(s, acc, 5)
  {
    PassFromSkip(s, acc, 0, 5);
  }

  /** The four builders between the type scanner and the sibling combinator
      cannot start on text that begins with a space. */
  lemma PassFromSkipMiddle(s: string, acc: seq<Checker>)
    requires s == [] || (s[0] != '[' && s[0] != '#' && s[0] != ':')
    ensures PassFrom(s, acc, 1) == PassFrom(s, acc, 5)
  {
    PassFromSkip(s, acc, 1, 5);
  }

  /** ` + u`: the combinator scanner takes the operator and one space each side. */
  lemma ScanAfterSpaced(op: char, u: string)
    requires (op == '+' || op == '~') && u != [] && !IsSpace(u[0])
    ensures ScanAfter([' ', op, ' '] + u) == Some((op, 3))
    ensures ([' ', op, ' '] + u)[3..] == u
  {
    var t := [' ', op, ' '] + u;
    assert t[1..][0] == op;
    assert t[2..][1..] == u;
  }

  /** ` +` at the end: the scanner takes both characters. */
  lemma ScanAfterTrailing(op: char)
    requires op == '+' || op == '~'
    ensures ScanAfter([' ', op]) == Some((op, 2)) && [' ', op][2..] == []
  {
    var t := [' ', op];
    assert t[1..][0] == op;
    assert SpaceLen(t[2..]) == 0;
  }

  lemma BuildAfterSpaced(op: char, u: string, acc: seq<Checker>, cs: seq<Checker>)
    requires (op == '+' || op == '~') && u != [] && !IsSpace(u[0])
    requires Compound(u, []) == Ok(Parsed("", cs)) && cs != [] && acc != []
    ensures BuildAfter([' ', op, ' '] + u, acc) == Ok(Parsed("", [After(acc, cs, op == '~')]))
  {
    ScanAfterSpaced(op, u);
  }

  lemma {:induction false} PassSiblingAfterName(x: string, op: char, u: string, cs: seq<Checker>)
    requires IsTypeName(x) && (op == '+' || op == '~')
    requires u != [] && !IsSpace(u[0])
    requires Compound(u, []) == Ok(Parsed("", cs)) && cs != []
    ensures Pass(x + ([' ', op, ' '] + u), []) == Ok(Parsed("", [After([Tag(x)], cs, op == '~')]))
  {
    var t := [' ', op, ' '] + u;
    var a1 := [Tag(x)];
    var p := Parsed("", [After(a1, cs, op == '~')]);
    BuildTagTakesName(x, t, []);
    assert [] + [Tag(x)] == a1;
    BuildFirst(x + t, []);
    PassFromOk(x + t, [], 0, Parsed(t, a1));
    PassFromSkipMiddle(t, a1);
    BuildAfterSpaced(op, u, a1, cs);
    BuildSixth(t, a1);
    PassFromOk(t, a1, 5, p);
    PassFromIdleOnEmpty(p.checkers, 6);
  }

  /** `x op u` with a type name `x` on the left: the left operand is `[Tag(x)]`
      and the right operand is the whole compound `u` parses to. */
  lemma {:induction false} SiblingAfterName(x: string, op: char, u: string, cs: seq<Checker>)
    requires IsTypeName(x) && (op == '+' || op == '~')
    requires u != [] && !IsSpace(u[0])
    requires Compound(u, []) == Ok(Parsed("", cs)) && cs != []
    ensures Compound(x + ([' ', op, ' '] + u), []) == Ok(Parsed("", [After([Tag(x)], cs, op == '~')]))
  {
    var p := Parsed("", [After([Tag(x)], cs, op == '~')]);
    PassSiblingAfterName(x, op, u, cs);
    CompoundStep(x + ([' ', op, ' '] + u), [], p);
    CompoundIdleOnEmpty(p.checkers);
  }

  /** Sibling combinators nest to the right: `x + y + z` is `x + (y + z)`,
      for any type names and either operator. */
  lemma SiblingsNestRight(x: string, op1: char, y: string, op2: char, z: string)
    requires IsTypeName(x) && IsTypeName(y) && IsTypeName(z)
    requires (op1 == '+' || op1 == '~') && (op2 == '+' || op2 == '~')
    ensures Compound(x + ([' ', op1, ' '] + (y + ([' ', op2, ' '] + z))), []) ==
      Ok(Parsed("", [After([Tag(x)], [After([Tag(y)], [Tag(z)], op2 == '~')], op1 == '~')]))
  {
    TypeSelectorAlone(z);
    SiblingAfterName(y, op2, z, [Tag(z)]);
    var u := y + ([' ', op2, ' '] + z);
    assert u[0] == y[0];
    SiblingAfterName(x, op1, u, [After([Tag(y)], [Tag(z)], op2 == '~')]);
  }

  /** Text that starts with `+` or `~` is a sibling combinator. */
  lemma ScanAfterLeading(s: string)
    requires s != [] && (s[0] == '+' || s[0] == '~')
    ensures ScanAfter(s) == Some((s[0], 1 + SpaceLen(s[1..])))
  {
    assert SpaceLen(s) == 0;
  }

  lemma BuildAfterNoLeft(s: string, op: char, n: nat)
    requires ScanAfter(s) == Some((op, n)) && Compound(s[n..], []).Ok?
    ensures BuildAfter(s, []) == Err(MissingBefore(op))
  {
  }

  lemma BuildAfterNothingBefore(s: string)
    requires s != [] && (s[0] == '+' || s[0] == '~')
    requires Compound(s[1 + SpaceLen(s[1..])..], []).Ok?
    ensures BuildAfter(s, []) == Err(MissingBefore(s[0]))
  {
    ScanAfterLeading(s);
    BuildAfterNoLeft(s, s[0], 1 + SpaceLen(s[1..]));
  }

  /** A pass over text starting with a sibling combinator fails as the
      combinator's builder does. */
  lemma PassSiblingErr(s: string, e: Error)
    requires s != [] && (s[0] == '+' || s[0] == '~')
    requires BuildAfter(s, []) == Err(e)
    ensures PassFrom(s, [], 0) == Err(e)
  {
    BuildSixth(s, []);
    PassFromErr(s, [], 5, e);
    PassFromSkipToSibling(s, []);
  }

  /** A sibling combinator with nothing before it is an error. */
  lemma {:induction false} NothingBeforeSibling(s: string)
    requires s != [] && (s[0] == '+' || s[0] == '~')
    requires Compound(s[1 + SpaceLen(s[1..])..], []).Ok?
    ensures Compound(s, []) == Err(MissingBefore(s[0]))
  {
    BuildAfterNothingBefore(s);
    PassSiblingErr(s, MissingBefore(s[0]));
    CompoundErr(s, [], MissingBefore(s[0]));
  }

  /** A sibling combinator with nothing after it is an error. */
  lemma {:induction false} NothingAfterSibling(x: string, op: char)
    requires IsTypeName(x) && (op == '+' || op == '~')
    ensures Compound(x + [' ', op], []) == Err(MissingAfter(op))
  {
    var t := [' ', op];
    var a1 := [Tag(x)];
    BuildTagTakesName(x, t, []);
    assert [] + [Tag(x)] == a1;
    BuildFirst(x + t, []);
    PassFromOk(x + t, [], 0, Parsed(t, a1));
    PassFromSkipMiddle(t, a1);
    ScanAfterTrailing(op);
    CompoundIdleOnEmpty([]);
    BuildSixth(t, a1);
    PassFromErr(t, a1, 5, MissingAfter(op));
  }

  /** The `j`-th character of a word standing at `p`. */
  lemma StartsWithChar(s: string, p: nat, w: string, j: nat)
    requires StartsWithAt(s, p, w) && j < |w|
    ensures s[p + j] == w[j]
  {
    assert s[p + j] == s[p..p + |w|][j];
  }

  lemma NotStartsWithAt(s: string, p: nat, w: string, k: nat)
    requires k < |w| && p + k < |s| && s[p + k] != w[k]
    ensures !StartsWithAt(s, p, w)
  {
  }

  /** The builders before the slicers cannot start on a `:`. */
  lemma PassFromSkipToSlicers(s: string, acc: seq<Checker>)
    requires s != [] && s[0] == ':'
    ensures PassFrom(s, acc, 0) == PassFrom(s, acc, 3)
  {
    PassFromSkip(s, acc, 0, 3);
  }

  lemma BuildFourth(s: string, acc: seq<Checker>)
    ensures Build(Checkers[3], s, acc) == BuildChildSlicer(s, acc)
  {
    CheckersOrder();
  }

  lemma BuildFifth(s: string, acc: seq<Checker>)
    ensures Build(Checkers[4], s, acc) == BuildTypeSlicer(s, acc)
  {
    CheckersOrder();
  }

  /** A pseudo-class argument without `)` is read up to the closing `)`. */
  lemma ScanArgTakes(pre: string, arg: string)
    requires arg != [] && forall i :: 0 <= i < |arg| ==> arg[i] != ')'
    ensures ScanArg(pre + "(" + arg + ")", |pre|) == (Some(arg), |pre| + |arg| + 2)
  {
    var s := pre + "(" + arg + ")";
    var u := s[|pre| + 1..];
    assert forall i :: 0 <= i < |arg| ==> u[i] == arg[i];
    assert |u| == |arg| + 1 && u[|arg|] == ')';
    var n := ArgLen(u);
    assert s[|pre| + 1..|pre| + 1 + n] == arg;
  }

  /** `:nth-child` with an argument `int()` rejects fails with `ValueError`. */
  lemma BuildChildSlicerBad(s: string, arg: string, n: nat)
    requires ScanSlicer(s, "child") == Some((Nth, Some(arg), n)) && ParseInt(arg).None?
    ensures BuildChildSlicer(s, []) == Err(IntValueError(arg))
  {
    assert SliceIndex(Nth, Some(arg)) == Err(IntValueError(arg));
  }

  /** A pass fails as soon as the child slicer does on text starting with `:`. */
  lemma CompoundChildSlicerErr(s: string, e: Error)
    requires s != [] && s[0] == ':' && BuildChildSlicer(s, []) == Err(e)
    ensures Compound(s, []) == Err(e)
  {
    BuildFourth(s, []);
    PassFromErr(s, [], 3, e);
    PassFromSkipToSlicers(s, []);
    CompoundErr(s, [], e);
  }

  /** `:nth-child(arg)` with an argument `int()` rejects: the `ValueError`
      escapes, it is not a `SelectorError`. */
  lemma {:induction false} ChildSlicerBadArgument(arg: string)
    requires arg != [] && forall i :: 0 <= i < |arg| ==> arg[i] != ')'
    requires ParseInt(arg).None?
    ensures Compound(":nth-child(" + arg + ")", []) == Err(IntValueError(arg))
  {
    var s := SlicerText(Nth, "child", Some(arg));
    NthChildPrefix();
    SlicerTextArg(Nth, "child", arg, ":nth-child(");
    SlicerTextStarts(Nth, "child", Some(arg));
    ScanSlicerReads(Nth, "child", Some(arg));
    BuildChildSlicerBad(s, arg, |s|);
    CompoundChildSlicerErr(s, IntValueError(arg));
  }

  /** `:nth-of-type` with an argument `int()` rejects raises `SelectorError`. */
  lemma BuildTypeSlicerBad(s: string, arg: string, n: nat)
    requires ScanSlicer(s, "of-type") == Some((Nth, Some(arg), n)) && ParseInt(arg).None?
    ensures BuildTypeSlicer(s, []) == Err(InvalidNth(Some(arg)))
  {
    assert SliceIndex(Nth, Some(arg)).Err?;
  }

  /** On text starting with `:` that the child slicer leaves alone, a pass
      fails as soon as the type slicer does. */
  lemma CompoundTypeSlicerErr(s: string, e: Error)
    requires s != [] && s[0] == ':' && ScanSlicer(s, "child") == None
    requires BuildTypeSlicer(s, []) == Err(e)
    ensures Compound(s, []) == Err(e)
  {
    assert BuildChildSlicer(s, []) == Ok(Parsed(s, []));
    BuildFourth(s, []);
    BuildFifth(s, []);
    PassFromSkipToSlicers(s, []);
    PassFromOk(s, [], 3, Parsed(s, []));
    PassFromErr(s, [], 4, e);
    CompoundErr(s, [], e);
  }

  /** `:nth-of-type(arg)` with an argument `int()` rejects raises a
      `SelectorError` naming the argument. */
  lemma {:induction false} TypeSlicerBadArgument(arg: string)
    requires arg != [] && forall i :: 0 <= i < |arg| ==> arg[i] != ')'
    requires ParseInt(arg).None?
    ensures Compound(":nth-of-type(" + arg + ")", []) == Err(InvalidNth(Some(arg)))
  {
    var s := SlicerText(Nth, "of-type", Some(arg));
    NthOfTypePrefix();
    SlicerTextArg(Nth, "of-type", arg, ":nth-of-type(");
    SlicerTextStarts(Nth, "of-type", Some(arg));
    ScanSlicerReads(Nth, "of-type", Some(arg));
    OfTypeNotChild(Nth, Some(arg));
    BuildTypeSlicerBad(s, arg, |s|);
    CompoundTypeSlicerErr(s, InvalidNth(Some(arg)));
  }

  // ---------------------------------------------------------------------------
  // Slicers on their own

  /** The text of a slicer pseudo-class: `:op-kind` or `:op-kind(arg)`. */
  function SlicerText(op: SliceOp, kind: string, arg: Option<string>): string
  {
    if arg.Some? then ":" + SliceOpName(op, kind) + "(" + arg.value + ")"
    else ":" + SliceOpName(op, kind)
  }

  /** An argument the pattern accepts: `[^)]+`, or none at all. */
  predicate IsSlicerArg(arg: Option<string>)
  {
    arg.Some? ==> arg.value != [] && forall i :: 0 <= i < |arg.value| ==> arg.value[i] != ')'
  }

  /** The operation scanner picks the operation the text was written with:
      no earlier alternative of the pattern is a prefix of a later one. */
  lemma ScanSliceOpReads(s: string, op: SliceOp, kind: string)
    requires kind == "child" || kind == "of-type"
    requires s != [] && s[0] == ':' && StartsWithAt(s, 1, SliceOpName(op, kind))
    ensures ScanSliceOp(s, kind) == Some(op)
  {
    var w := SliceOpName(op, kind);
    StartsWithChar(s, 1, w, 0);
    match op
    case First =>
    case Last =>
      NotStartsWithAt(s, 1, SliceOpName(First, kind), 0);
    case Nth =>
      NotStartsWithAt(s, 1, SliceOpName(First, kind), 0);
      NotStartsWithAt(s, 1, SliceOpName(Last, kind), 0);
    case NthLast =>
      NotStartsWithAt(s, 1, SliceOpName(First, kind), 0);
      NotStartsWithAt(s, 1, SliceOpName(Last, kind), 0);
      StartsWithChar(s, 1, w, 4);
      NotStartsWithAt(s, 1, SliceOpName(Nth, kind), 4);
  }

  /** The text of a slicer starts with `:` and the operation's name. */
  lemma SlicerTextStarts(op: SliceOp, kind: string, arg: Option<string>)
    ensures var s := SlicerText(op, kind, arg);
      s != [] && s[0] == ':' && StartsWithAt(s, 1, SliceOpName(op, kind))
  {
    var w := SliceOpName(op, kind);
    var s := SlicerText(op, kind, arg);
    assert s[1..1 + |w|] == w;
  }

  /** The slicer scanner reads back operation and argument and consumes the
      whole text: `:op-kind` ... */
  lemma ScanSlicerReadsBare(op: SliceOp, kind: string)
    requires kind == "child" || kind == "of-type"
    ensures ScanSlicer(SlicerText(op, kind, None), kind) == Some((op, None, |SlicerText(op, kind, None)|))
  {
    SlicerTextStarts(op, kind, None);
    ScanSliceOpReads(SlicerText(op, kind, None), op, kind);
  }

  /** ... and `:op-kind(arg)`. */
  lemma ScanSlicerReadsArg(op: SliceOp, kind: string, arg: string)
    requires kind == "child" || kind == "of-type"
    requires IsSlicerArg(Some(arg))
    ensures ScanSlicer(SlicerText(op, kind, Some(arg)), kind) ==
      Some((op, Some(arg), |SlicerText(op, kind, Some(arg))|))
  {
    SlicerTextStarts(op, kind, Some(arg));
    ScanSliceOpReads(SlicerText(op, kind, Some(arg)), op, kind);
    ScanArgTakes(":" + SliceOpName(op, kind), arg);
  }

  lemma ScanSlicerReads(op: SliceOp, kind: string, arg: Option<string>)
    requires kind == "child" || kind == "of-type"
    requires IsSlicerArg(arg)
    ensures ScanSlicer(SlicerText(op, kind, arg), kind) == Some((op, arg, |SlicerText(op, kind, arg)|))
  {
    if arg.Some? {
      ScanSlicerReadsArg(op, kind, arg.value);
    } else {
      ScanSlicerReadsBare(op, kind);
    }
  }

  /** An `-of-type` slicer is not a `-child` one. */
  lemma OfTypeNotChild(op: SliceOp, arg: Option<string>)
    ensures ScanSlicer(SlicerText(op, "of-type", arg), "child") == None
  {
    var s := SlicerText(op, "of-type", arg);
    SlicerTextStarts(op, "of-type", arg);
    OfTypeNotChildAt(s, op);
  }

  lemma OfTypeNotChildAt(s: string, op: SliceOp)
    requires StartsWithAt(s, 1, SliceOpName(op, "of-type"))
    ensures ScanSliceOp(s, "child") == None
  {
    var w := SliceOpName(op, "of-type");
    StartsWithChar(s, 1, w, 0);
    match op
    case First =>
      StartsWithChar(s, 1, w, 6);
      NotStartsWithAt(s, 1, SliceOpName(First, "child"), 6);
      NotStartsWithAt(s, 1, SliceOpName(Last, "child"), 0);
      NotStartsWithAt(s, 1, SliceOpName(Nth, "child"), 0);
      NotStartsWithAt(s, 1, SliceOpName(NthLast, "child"), 0);
    case Last =>
      StartsWithChar(s, 1, w, 5);
      NotStartsWithAt(s, 1, SliceOpName(First, "child"), 0);
      NotStartsWithAt(s, 1, SliceOpName(Last, "child"), 5);
      NotStartsWithAt(s, 1, SliceOpName(Nth, "child"), 0);
      NotStartsWithAt(s, 1, SliceOpName(NthLast, "child"), 0);
    case Nth =>
      StartsWithChar(s, 1, w, 4);
      NotStartsWithAt(s, 1, SliceOpName(First, "child"), 0);
      NotStartsWithAt(s, 1, SliceOpName(Last, "child"), 0);
      NotStartsWithAt(s, 1, SliceOpName(Nth, "child"), 4);
      NotStartsWithAt(s, 1, SliceOpName(NthLast, "child"), 4);
    case NthLast =>
      StartsWithChar(s, 1, w, 4);
      StartsWithChar(s, 1, w, 9);
      NotStartsWithAt(s, 1, SliceOpName(First, "child"), 0);
      NotStartsWithAt(s, 1, SliceOpName(Last, "child"), 0);
      NotStartsWithAt(s, 1, SliceOpName(Nth, "child"), 4);
      NotStartsWithAt(s, 1, SliceOpName(NthLast, "child"), 9);
  }

  /** `int(k) - 1` for an `nth` slicer ... */
  lemma SliceIndexNth(k: string, n: int)
    requires ParseInt(k) == Some(n)
    ensures SliceIndex(Nth, Some(k)) == Ok(n - 1)
  {
  }

  /** ... and `-int(k)` for an `nth-last` one. */
  lemma SliceIndexNthLast(k: string, n: int)
    requires ParseInt(k) == Some(n)
    ensures SliceIndex(NthLast, Some(k)) == Ok(-n)
  {
  }

  /** The text of a slicer with an argument, given the text up to `(`. */
  lemma SlicerTextArg(op: SliceOp, kind: string, k: string, open: string)
    requires ":" + SliceOpName(op, kind) + "(" == open
    ensures SlicerText(op, kind, Some(k)) == open + k + ")"
  {
  }

  /** A selector the child slicer consumes whole is that one checker. */
  lemma CompoundOfChildSlicer(s: string, c: Checker)
    requires s != [] && s[0] == ':' && BuildChildSlicer(s, []) == Ok(Parsed("", [c]))
    ensures Compound(s, []) == Ok(Parsed("", [c]))
  {
    var p := Parsed("", [c]);
    PassFromSkipToSlicers(s, []);
    BuildFourth(s, []);
    PassFromOk(s, [], 3, p);
    PassFromIdleOnEmpty(p.checkers, 4);
    CompoundStep(s, [], p);
    CompoundIdleOnEmpty(p.checkers);
  }

  /** A selector the child slicer leaves alone and the type slicer consumes
      whole is that one checker. */
  lemma CompoundOfTypeSlicer(s: string, c: Checker)
    requires s != [] && s[0] == ':' && ScanSlicer(s, "child") == None
    requires BuildTypeSlicer(s, []) == Ok(Parsed("", [c]))
    ensures Compound(s, []) == Ok(Parsed("", [c]))
  {
    var p := Parsed("", [c]);
    assert BuildChildSlicer(s, []) == Ok(Parsed(s, []));
    PassFromSkipToSlicers(s, []);
    BuildFourth(s, []);
    BuildFifth(s, []);
    PassFromOk(s, [], 3, Parsed(s, []));
    PassFromOk(s, [], 4, p);
    PassFromIdleOnEmpty(p.checkers, 5);
    CompoundStep(s, [], p);
    CompoundIdleOnEmpty(p.checkers);
  }

  /** A scanned slicer whose index `int()` accepts is appended to the checkers. */
  lemma BuildChildSlicerOk(s: string, acc: seq<Checker>, op: SliceOp, arg: Option<string>, n: nat, i: int)
    requires ScanSlicer(s, "child") == Some((op, arg, n)) && SliceIndex(op, arg) == Ok(i)
    ensures n <= |s| && BuildChildSlicer(s, acc) == Ok(Parsed(s[n..], acc + [ChildSlicer(i)]))
  {
  }

  lemma BuildTypeSlicerOk(s: string, acc: seq<Checker>, op: SliceOp, arg: Option<string>, n: nat, i: int)
    requires ScanSlicer(s, "of-type") == Some((op, arg, n)) && SliceIndex(op, arg) == Ok(i)
    ensures n <= |s| && BuildTypeSlicer(s, acc) == Ok(Parsed(s[n..], acc + [TypeSlicer(i)]))
  {
  }

  /** A child slicer on its own is one `ChildSlicer` at the index `SliceIndex`
      computes. */
  lemma ChildSlicerAlone(op: SliceOp, arg: Option<string>, i: int)
    requires IsSlicerArg(arg) && SliceIndex(op, arg) == Ok(i)
    ensures Compound(SlicerText(op, "child", arg), []) == Ok(Parsed("", [ChildSlicer(i)]))
  {
    var s := SlicerText(op, "child", arg);
    ScanSlicerReads(op, "child", arg);
    BuildChildSlicerOk(s, [], op, arg, |s|, i);
    assert s[|s|..] == "" && [] + [ChildSlicer(i)] == [ChildSlicer(i)];
    CompoundOfChildSlicer(s, ChildSlicer(i));
  }

  /** An `-of-type` slicer on its own is one `TypeSlicer` at the index
      `SliceIndex` computes. */
  lemma TypeSlicerAlone(op: SliceOp, arg: Option<string>, i: int)
    requires IsSlicerArg(arg) && SliceIndex(op, arg) == Ok(i)
    ensures Compound(SlicerText(op, "of-type", arg), []) == Ok(Parsed("", [TypeSlicer(i)]))
  {
    var s := SlicerText(op, "of-type", arg);
    ScanSlicerReads(op, "of-type", arg);
    OfTypeNotChild(op, arg);
    BuildTypeSlicerOk(s, [], op, arg, |s|, i);
    assert s[|s|..] == "" && [] + [TypeSlicer(i)] == [TypeSlicer(i)];
    CompoundOfTypeSlicer(s, TypeSlicer(i));
  }

  /** The index an `nth` or `nth-last` slicer computes from `int(k) == n`. */
  function IntSliceIndex(op: SliceOp, n: int): int
  {
    if op == Nth then n - 1 else -n
  }

  /** `:nth-child(k)` and `:nth-last-child(k)` on their own. */
  lemma ChildSlicerIntAlone(op: SliceOp, k: string, n: int)
    requires op == Nth || op == NthLast
    requires IsSlicerArg(Some(k)) && ParseInt(k) == Some(n)
    ensures Compound(SlicerText(op, "child", Some(k)), []) == Ok(Parsed("", [ChildSlicer(IntSliceIndex(op, n))]))
  {
    if op == Nth {
      SliceIndexNth(k, n);
    } else {
      SliceIndexNthLast(k, n);
    }
    ChildSlicerAlone(op, Some(k), IntSliceIndex(op, n));
  }

  /** `:nth-of-type(k)` and `:nth-last-of-type(k)` on their own. */
  lemma TypeSlicerIntAlone(op: SliceOp, k: string, n: int)
    requires op == Nth || op == NthLast
    requires IsSlicerArg(Some(k)) && ParseInt(k) == Some(n)
    ensures Compound(SlicerText(op, "of-type", Some(k)), []) == Ok(Parsed("", [TypeSlicer(IntSliceIndex(op, n))]))
  {
    if op == Nth {
      SliceIndexNth(k, n);
    } else {
      SliceIndexNthLast(k, n);
    }
    TypeSlicerAlone(op, Some(k), IntSliceIndex(op, n));
  }

  /** `:first-child` selects index 0. */
  lemma FirstChildAlone()
    ensures Compound(":first-child", []) == Ok(Parsed("", [ChildSlicer(0)]))
  {
    assert SlicerText(First, "child", None) == ":first-child";
    ChildSlicerAlone(First, None, 0);
  }

  /** `:last-child` selects index -1, the last child. */
  lemma LastChildAlone()
    ensures Compound(":last-child", []) == Ok(Parsed("", [ChildSlicer(-1)]))
  {
    assert SlicerText(Last, "child", None) == ":last-child";
    ChildSlicerAlone(Last, None, -1);
  }

  lemma NthChildPrefix()
    ensures ":" + SliceOpName(Nth, "child") + "(" == ":nth-child("
  {
  }

  /** `:nth-child(k)` selects index `int(k) - 1`. */
  lemma NthChildAlone(k: string, n: int)
    requires k != [] && forall i :: 0 <= i < |k| ==> k[i] != ')'
    requires ParseInt(k) == Some(n)
    ensures Compound(":nth-child(" + k + ")", []) == Ok(Parsed("", [ChildSlicer(n - 1)]))
  {
    NthChildPrefix();
    SlicerTextArg(Nth, "child", k, ":nth-child(");
    ChildSlicerIntAlone(Nth, k, n);
  }

  lemma NthLastChildPrefix()
    ensures ":" + SliceOpName(NthLast, "child") + "(" == ":nth-last-child("
  {
  }

  /** `:nth-last-child(k)` selects index `-int(k)`. */
  lemma NthLastChildAlone(k: string, n: int)
    requires k != [] && forall i :: 0 <= i < |k| ==> k[i] != ')'
    requires ParseInt(k) == Some(n)
    ensures Compound(":nth-last-child(" + k + ")", []) == Ok(Parsed("", [ChildSlicer(-n)]))
  {
    NthLastChildPrefix();
    SlicerTextArg(NthLast, "child", k, ":nth-last-child(");
    ChildSlicerIntAlone(NthLast, k, n);
  }

  /** `:first-of-type` selects index 0. */
  lemma FirstOfTypeAlone()
    ensures Compound(":first-of-type", []) == Ok(Parsed("", [TypeSlicer(0)]))
  {
    assert SlicerText(First, "of-type", None) == ":first-of-type";
    TypeSlicerAlone(First, None, 0);
  }

  /** `:last-of-type` selects index -1. */
  lemma LastOfTypeAlone()
    ensures Compound(":last-of-type", []) == Ok(Parsed("", [TypeSlicer(-1)]))
  {
    assert SlicerText(Last, "of-type", None) == ":last-of-type";
    TypeSlicerAlone(Last, None, -1);
  }

  lemma NthOfTypePrefix()
    ensures ":" + SliceOpName(Nth, "of-type") + "(" == ":nth-of-type("
  {
  }

  /** `:nth-of-type(k)` selects index `int(k) - 1`. */
  lemma NthOfTypeAlone(k: string, n: int)
    requires k != [] && forall i :: 0 <= i < |k| ==> k[i] != ')'
    requires ParseInt(k) == Some(n)
    ensures Compound(":nth-of-type(" + k + ")", []) == Ok(Parsed("", [TypeSlicer(n - 1)]))
  {
    NthOfTypePrefix();
    SlicerTextArg(Nth, "of-type", k, ":nth-of-type(");
    TypeSlicerIntAlone(Nth, k, n);
  }

  lemma NthLastOfTypePrefix()
    ensures ":" + SliceOpName(NthLast, "of-type") + "(" == ":nth-last-of-type("
  {
  }

  /** `:nth-last-of-type(k)` selects index `-int(k)`. */
  lemma NthLastOfTypeAlone(k: string, n: int)
    requires k != [] && forall i :: 0 <= i < |k| ==> k[i] != ')'
    requires ParseInt(k) == Some(n)
    ensures Compound(":nth-last-of-type(" + k + ")", []) == Ok(Parsed("", [TypeSlicer(-n)]))
  {
    NthLastOfTypePrefix();
    SlicerTextArg(NthLast, "of-type", k, ":nth-last-of-type(");
    TypeSlicerIntAlone(NthLast, k, n);
  }

  // ---------------------------------------------------------------------------
  // Attribute selectors on their own

  /** `"` around a quoted value, nothing around a bare one. */
  function Quote(quoted: bool): string
  {
    if quoted then "\"" else ""
  }

  /** The text of an attribute selector: `[a]`, `[a op v]` or `[a op "v"]`. */
  function AttribText(a: string, op: AttrOp, v: string, quoted: bool): string
  {
    "[" + a + OpText(op) + Quote(quoted) + v + Quote(quoted) + "]"
  }

  /** An attribute name the pattern accepts: `[\w-]+`. */
  predicate IsAttribName(a: string)
  {
    a != [] && forall i :: 0 <= i < |a| ==> IsAttribChar(a[i])
  }

  /** A value the pattern accepts: `[^\]"]*`. */
  predicate IsAttribValue(v: string)
  {
    forall i :: 0 <= i < |v| ==> v[i] != ']' && v[i] != '"'
  }

  /** `[` and the name `a` open `s`. */
  predicate NameAt(s: string, a: string)
  {
    && 1 + |a| <= |s| && s[0] == '['
    && forall i :: 1 <= i < 1 + |a| ==> s[i] == a[i - 1]
  }

  /** The text of `op` stands at `p`. */
  predicate OpAt(s: string, p: nat, op: AttrOp)
  {
    && p + |OpText(op)| <= |s|
    && forall i :: p <= i < p + |OpText(op)| ==> s[i] == OpText(op)[i - p]
  }

  /** From `q` on, `s` is the value `v`, quoted or not, and the closing `]`. */
  predicate ValueAt(s: string, q: nat, v: string, quoted: bool)
  {
    var v0 := q + |Quote(quoted)|;
    var e := v0 + |v|;
    && |s| == e + 1 + |Quote(quoted)|
    && (forall i :: v0 <= i < e ==> s[i] == v[i - v0])
    && (quoted ==> s[q] == '"' && s[e] == '"' && s[e + 1] == ']')
    && (!quoted ==> s[e] == ']')
  }

  /** Where the parts of `AttribText` sit, character by character. */
  predicate LaidOut(s: string, a: string, op: AttrOp, v: string, quoted: bool)
  {
    NameAt(s, a) && OpAt(s, 1 + |a|, op) && ValueAt(s, 1 + |a| + |OpText(op)|, v, quoted)
  }

  lemma AttribTextLayout(a: string, op: AttrOp, v: string, quoted: bool)
    ensures LaidOut(AttribText(a, op, v, quoted), a, op, v, quoted)
  {
    AttribTextName(a, op, v, quoted);
    AttribTextOp(a, op, v, quoted);
    AttribTextValue(a, op, v, quoted);
  }

  lemma AttribTextName(a: string, op: AttrOp, v: string, quoted: bool)
    ensures NameAt(AttribText(a, op, v, quoted), a)
  {
    var s := AttribText(a, op, v, quoted);
    assert s[1..1 + |a|] == a;
    assert forall i :: 1 <= i < 1 + |a| ==> s[i] == s[1..1 + |a|][i - 1];
  }

  lemma AttribTextOp(a: string, op: AttrOp, v: string, quoted: bool)
    ensures OpAt(AttribText(a, op, v, quoted), 1 + |a|, op)
  {
    var s := AttribText(a, op, v, quoted);
    var p := 1 + |a|;
    var q := p + |OpText(op)|;
    assert s[p..q] == OpText(op);
    assert forall i :: p <= i < q ==> s[i] == s[p..q][i - p];
  }

  lemma AttribTextValue(a: string, op: AttrOp, v: string, quoted: bool)
    ensures ValueAt(AttribText(a, op, v, quoted), 1 + |a| + |OpText(op)|, v, quoted)
  {
    var s := AttribText(a, op, v, quoted);
    var pre := "[" + a + OpText(op) + Quote(quoted);
    var post := Quote(quoted) + "]";
    assert s == pre + v + post;
    MiddleAt(pre, v, post);
  }

  /** The characters of the middle piece of a concatenation. */
  lemma MiddleAt(pre: string, v: string, post: string)
    ensures forall i :: |pre| <= i < |pre| + |v| ==> (pre + v + post)[i] == v[i - |pre|]
    ensures forall i :: 0 <= i < |post| ==> (pre + v + post)[|pre| + |v| + i] == post[i]
  {
  }

  /** `AttribEnd` is the end of the attribute-character run. */
  lemma {:induction false} AttribEndExact(s: string, p: nat, k: nat)
    requires p <= k <= |s| && forall i :: p <= i < k ==> IsAttribChar(s[i])
    requires k == |s| || !IsAttribChar(s[k])
    ensures AttribEnd(s, p) == k
    decreases k - p
  {
    if p < k {
      AttribEndExact(s, p + 1, k);
    }
  }

  /** `ValueEnd` is the end of the run of characters other than `]` and `"`. */
  lemma {:induction false} ValueEndExact(s: string, p: nat, k: nat)
    requires p <= k <= |s| && forall i :: p <= i < k ==> s[i] != ']' && s[i] != '"'
    requires k == |s| || s[k] == ']' || s[k] == '"'
    ensures ValueEnd(s, p) == k
    decreases k - p
  {
    if p < k {
      ValueEndExact(s, p + 1, k);
    }
  }

  /** The operator scanner reads back the operator an attribute selector was
      written with, given what follows it cannot start another one. */
  lemma ScanOpReads(s: string, p: nat, op: AttrOp)
    requires p + |OpText(op)| < |s| && OpAt(s, p, op)
    requires op == OpExists ==> s[p] == '"' || s[p] == ']'
    ensures ScanOp(s, p) == (op, p + |OpText(op)|)
  {
    assert OpCharsAt(s, p, op);
  }

  /** The value scanner takes the whole value, quoted or not, and the match
      runs to the closing `]`. */
  lemma ScanValueReads(s: string, q: nat, v: string, quoted: bool, n: nat)
    requires n == |s| && IsAttribValue(v) && ValueAt(s, q, v, quoted)
    ensures ScanValue(s, q) == Some((v, n))
  {
    var v0 := q + |Quote(quoted)|;
    var e := v0 + |v|;
    assert !quoted ==> q == e || s[q] == v[0];
    assert ValueStart(s, q) == v0;
    ValueEndExact(s, v0, e);
    assert s[v0..e] == v;
    if quoted {
      assert s[e + 1..][0] == ']';
      assert SpaceLen(s[e + 1..]) == 0;
    }
    assert CloseEnd(s, e) == Some(e + 1 + |Quote(quoted)|);
  }

  /** The first character of an operator ends the name and is no quote. */
  lemma OpTextHead(op: AttrOp)
    ensures op != OpExists ==> |OpText(op)| > 0 && !IsAttribChar(OpText(op)[0]) && OpText(op)[0] != '"'
  {
  }

  /** In text laid out as an attribute selector the name runs to `1 + |a|`. */
  lemma LaidOutName(s: string, a: string, op: AttrOp, v: string, quoted: bool)
    requires IsAttribName(a) && LaidOut(s, a, op, v, quoted)
    requires quoted || op != OpExists || v == []
    ensures 1 + |a| < |s| && s[0] == '[' && AttribEnd(s, 1) == 1 + |a| && s[1..1 + |a|] == a
    ensures op == OpExists ==> s[1 + |a|] == '"' || s[1 + |a|] == ']'
  {
    var p := 1 + |a|;
    OpTextHead(op);
    assert op != OpExists ==> s[p] == OpText(op)[0];
    AttribEndExact(s, 1, p);
    assert s[1..p] == a;
  }

  /** ... the operator is read back after it ... */
  lemma LaidOutOp(s: string, a: string, op: AttrOp, v: string, quoted: bool)
    requires IsAttribName(a) && LaidOut(s, a, op, v, quoted)
    requires quoted || op != OpExists || v == []
    ensures ScanOp(s, 1 + |a|) == (op, 1 + |a| + |OpText(op)|)
  {
    LaidOutName(s, a, op, v, quoted);
    ScanOpReads(s, 1 + |a|, op);
  }

  /** ... and the value after that, up to the end of the text. */
  lemma LaidOutValue(s: string, a: string, op: AttrOp, v: string, quoted: bool)
    requires IsAttribValue(v) && LaidOut(s, a, op, v, quoted)
    ensures ScanValue(s, 1 + |a| + |OpText(op)|) == Some((v, |s|))
  {
    ScanValueReads(s, 1 + |a| + |OpText(op)|, v, quoted, |s|);
  }

  /** The attribute scanner reads back name, operator and value of text laid
      out as an attribute selector and consumes all of it. A bare value after
      no operator would run into the name, so it is left out. */
  lemma ScanAttribLaidOut(s: string, a: string, op: AttrOp, v: string, quoted: bool)
    requires IsAttribName(a) && IsAttribValue(v) && LaidOut(s, a, op, v, quoted)
    requires quoted || op != OpExists || v == []
    ensures ScanAttrib(s) == Some((a, op, v, |s|))
  {
    LaidOutName(s, a, op, v, quoted);
    LaidOutOp(s, a, op, v, quoted);
    LaidOutValue(s, a, op, v, quoted);
    ScanAttribFromParts(s, a, op, v, |s|);
  }

  /** Name end, operator and value found in turn make the scanner's result. */
  lemma ScanAttribFromParts(s: string, a: string, op: AttrOp, v: string, n: nat)
    requires a != [] && 1 + |a| < |s| && s[0] == '[' && AttribEnd(s, 1) == 1 + |a| && s[1..1 + |a|] == a
    requires ScanOp(s, 1 + |a|) == (op, 1 + |a| + |OpText(op)|)
    requires ScanValue(s, 1 + |a| + |OpText(op)|) == Some((v, n))
    ensures ScanAttrib(s) == Some((a, op, v, n))
  {
    var p := AttribEnd(s, 1);
    var r := ScanOp(s, p);
    assert r == (op, p + |OpText(op)|);
    assert ScanValue(s, r.1) == Some((v, n));
  }

  /** `ScanAttribLaidOut` for the text of an attribute selector. */
  lemma ScanAttribReads(a: string, op: AttrOp, v: string, quoted: bool)
    requires IsAttribName(a) && IsAttribValue(v)
    requires quoted || op != OpExists || v == []
    ensures ScanAttrib(AttribText(a, op, v, quoted)) ==
      Some((a, op, v, |AttribText(a, op, v, quoted)|))
  {
    AttribTextLayout(a, op, v, quoted);
    ScanAttribLaidOut(AttribText(a, op, v, quoted), a, op, v, quoted);
  }

  /** A selector the attribute scanner consumes whole is that one checker:
      the type scanner leaves a leading `[` alone. */
  lemma CompoundOfAttrib(s: string, c: Checker)
    requires s != [] && s[0] == '[' && BuildAttrib(s, []) == Parsed("", [c])
    ensures Compound(s, []) == Ok(Parsed("", [c]))
  {
    var p := Parsed("", [c]);
    CheckersOrder();
    PassFromSkip(s, [], 0, 1);
    PassFromOk(s, [], 1, p);
    PassFromIdleOnEmpty(p.checkers, 2);
    CompoundStep(s, [], p);
    CompoundIdleOnEmpty(p.checkers);
  }

  /** `[a]`, `[a op v]` and `[a op "v"]` on their own are one `Attrib`
      checker with that name, operator and value. */
  lemma {:induction false} AttribSelectorAlone(a: string, op: AttrOp, v: string, quoted: bool)
    requires IsAttribName(a) && IsAttribValue(v)
    requires quoted || op != OpExists || v == []
    ensures Compound(AttribText(a, op, v, quoted), []) == Ok(Parsed("", [Attrib(a, op, v)]))
  {
    var s := AttribText(a, op, v, quoted);
    ScanAttribReads(a, op, v, quoted);
    assert s[|s|..] == "";
    assert BuildAttrib(s, []) == Parsed("", [Attrib(a, op, v)]);
    CompoundOfAttrib(s, Attrib(a, op, v));
  }
}
