# A verified model of the comic viewer's selector engine, wrappers and movers

This project models the core of a comic and image viewer. It covers four
source files:

- **bs4_selector.py.** A small CSS selector engine over a BeautifulSoup tree.
  The selector text is cut into simple selectors, each kind by its own
  checker class. The checkers are assembled into compound selectors by a
  fixpoint loop, and then the tree is walked step by step.
- **wrapper/base.py.** The helpers shared by every archive wrapper:
  - `pull` interleaves several iterators;
  - `split_filename` is the natural sort key of a file name;
  - filtering a file list by extension;
  - testing whether a file name is in the list.
- **wrapper/web.py.** Reading comics from web pages:
  - completing relative links against the page;
  - sorting the images of a page into eight priority buckets while the
    HTML is read;
  - choosing the image to show;
  - building an image entry from an `img` tag.
- **movers.py.** How a mover snaps a scroll step to the segment borders
  found in the image.

The modules follow the source:

| module | file | what it holds |
|---|---|---|
| `Wrappers` | | `Option` and `Result` |
| `Strings` | | the Python string operations the source uses, with ASCII case folding and Python's whitespace set |
| `Dom` | | the tree as an arena of nodes addressed by handles, standing in for `id(tag)` |
| `SelectorParse` | bs4_selector.py | the builders and the compound-selector fixpoint |
| `SelectorMatch` | bs4_selector.py | what each checker's `__call__` returns |
| `Selector` | bs4_selector.py | the `select` driver |
| `Base` | wrapper/base.py | `pull`, `split_filename`, filtering and membership |
| `Web` | wrapper/web.py | URL completion, the `ImageParser` class, `find_image` and `_builditem` |
| `Movers` | movers.py | the `Mover` class |

Code that works by updating state is modelled imperatively: `select`'s
loops, the `ImageParser` object, `pull`, `filter_file_extension`,
`find_image`, and the movers' segment scans. Each such method or class
member is proved equal to a specification function. The properties are
proved about those functions.

## How the code behaves where a reader might expect otherwise

The model follows the code in each of these cases:

- **Missing attributes.** `[a=v]`, `[a^=v]`, `[a$=v]` and `[a*=v]` read a
  missing attribute as `''`. So `[a=""]`, `[a^=""]`, `[a$=""]` and `[a*=""]`
  match elements without the attribute (`SelectorMatch.MissingAttribute`).
- **`:nth-child(0)` and `:nth-of-type(0)`.** These compute the index `-1`.
  `:nth-child(0)` picks the last element of the group
  (`SelectorMatch.NthChildZeroPicksLast`). `:nth-of-type(0)` applies the
  index within each same-name subsequence, so it picks the last element of
  each name (`SelectorMatch.TypeSlicerOnePerName`,
  `SelectorMatch.TypeSlicerOfOneName`).
- **Bad `:nth-child` arguments.** A non-numeric argument raises the
  `ValueError` of `int()`, not `SelectorError`. `:nth-of-type` converts the
  same failure into `SelectorError('Invalid nth element ...')`.
- **Scanner names.** The tag, id and class scanners accept `.` inside a
  name. So `div.x` is the type selector `div.x`, and `#a.b` is the id
  `a.b`.
- **Steps that match nothing.** A step whose matches are empty leaves an
  empty context, and the next step searches from the root again
  (`Selector.NoMatchRestarts`).
- **`basestring` and `int()`.** The attribute operators and the class
  selector (bs4_selector.py:142) test `isinstance(value, basestring)`, a
  Python 2 name. The model takes the Python 2 reading, where a value is a
  string or a token list. Under Python 3 those operators and every class
  selector would raise `NameError`. `int()`, on the other hand, is read the
  Python 3 way: since Python 3.6 it accepts single `_` between digits
  (`SelectorParse.ParseInt`). Dictionary order is read the Python 3.7+
  way too: `list(groups.values())` (bs4_selector.py:297) lists the groups
  in the order their parents were first inserted
  (`Selector.DescendantGroups`).
- **Regular expressions in `split_filename`.** Digits are the ASCII
  `[0-9]`, and `lower()` folds ASCII letters only.

## Model

| member | source | states |
|---|---|---|
| SelectorParse.NameLen | bs4_selector.py:20 | the longest prefix of name characters `[-.a-zA-Z0-9_]`: all of it is name characters and the next character is not |
| SelectorParse.AttribEnd | bs4_selector.py:37 | `[\w-]+` from a position: every character before the end is a name character and the one at the end is not (or the text ends) |
| SelectorParse.ValueEnd | bs4_selector.py:38 | `[^\]"]*` from a position: no `]` or `"` before the end, and the end is a `]`, a `"` or the end of the text |
| SelectorParse.ArgLen | bs4_selector.py:149 | the longest prefix without `)` |
| SelectorParse.BuildTag | bs4_selector.py:19-28 | a selector starting with a letter or `_` loses exactly its maximal name prefix, which becomes a `Tag` checker; otherwise text and checkers are unchanged |
| SelectorParse.BuildTagTakesName | bs4_selector.py:24-27 | a type name followed by a non-name character is taken whole, and the rest is left |
| SelectorParse.ScanLeadName | bs4_selector.py:109-116 | `#name` and `.name` give the maximal name after the lead character, and there is a match iff a name character follows the lead |
| SelectorParse.BuildId | bs4_selector.py:111-117 | either leaves text and checkers alone or consumes a non-empty prefix |
| SelectorParse.IdSelectorAlone | bs4_selector.py:108-117 | `#x` for any name `x` compiles to the single checker `Id(x)` |
| SelectorParse.IdAbsorbsDot | bs4_selector.py:109 | `#a.b` is the id `a.b`, not an id and a class |
| SelectorParse.ClassSelectorAlone | bs4_selector.py:125-134 | `.x` for any name `x` compiles to the single checker `Class(x)`: the six builders tried before the class builder leave a leading `.` alone |
| SelectorParse.BuildClass | bs4_selector.py:128-134 | either leaves text and checkers alone or consumes a non-empty prefix |
| SelectorParse.ScanOp | bs4_selector.py:37 | `([~\|\^\$\*]?=)?`: the operator taken is one whose characters stand at the position, the scan advances by exactly that operator's length, it advances iff some operator stands there, and no other operator standing there is passed over |
| SelectorParse.ScanOpText | bs4_selector.py:37 | the same in terms of the texts `=`, `~=`, `\|=`, `^=`, `$=`, `*=`: the text of the operator taken stands at the position, and any operator whose text stands there is the one taken |
| SelectorParse.ScanValue | bs4_selector.py:38 | `"?([^\]"]*)"?\s*\]`: the value is the maximal run without `]` or `"` after an optional opening quote; the match ends just after a `]` that follows the value directly or after a quote and whitespace, and fails iff no such `]` is there |
| SelectorParse.CloseEnd | bs4_selector.py:38 | `"?\s*\]` after a value: the end it finds closes the value, and it finds none iff nothing closes it |
| SelectorParse.ScanAttrib | bs4_selector.py:37-38 | a match starts with `[`, ends with `]`, takes as attribute name the whole maximal `[\w-]` run after `[` (never empty), and a value holding no `]` or `"` |
| SelectorParse.ScanAttribParts | bs4_selector.py:37-38 | a match reads the operator `ScanOp` finds right after the maximal name, and the value and end `ScanValue` finds right after that operator's text |
| SelectorParse.ScanAttribFails | bs4_selector.py:37-42 | there is no match iff the text is shorter than two characters, does not open with `[`, has no name character after it, or has no closed value after the operator |
| SelectorParse.ScanAttribReads | bs4_selector.py:37-38 | `[a]`, `[a op v]` and `[a op "v"]`, for any name `a` and value `v` the pattern admits, are read back as `a`, `op` and `v`, consuming the whole text |
| SelectorParse.AttribSelectorAlone | bs4_selector.py:36-46 | `[a]`, `[a op v]` and `[a op "v"]` on their own compile to exactly `[Attrib(a, op, v)]`, for every operator, name and admitted value (an unquoted value right after the name, with no operator, would run into the name and is not one of these texts) |
| SelectorParse.BuildAttrib | bs4_selector.py:40-46 | either leaves text and checkers alone or consumes a non-empty prefix; `AttribSelectorAlone` states the `Attrib` checker it appends |
| SelectorParse.ParseIntOfString | bs4_selector.py:165 | the model of `int()` reads back every integer written in decimal |
| SelectorParse.ParseInt | bs4_selector.py:165 | `int(s)`: surrounding whitespace stripped, an optional sign, then digits with single `_` between them; any other text is the `ValueError` (`None`); `ParseIntOfString` proves it reads back every decimal integer |
| SelectorParse.ScanArg | bs4_selector.py:149 | an argument is a non-empty text in parentheses, and without one nothing is consumed |
| SelectorParse.ScanSliceOpReads | bs4_selector.py:148-177 | the four operation names are tried in order and none of them is a prefix of a later one, so `:` followed by the name of `op` is read as `op` |
| SelectorParse.ScanSlicerReads | bs4_selector.py:148-178 | `:name` and `:name(arg)`, with an argument matching `[^\)]+`, are read back as that operation and argument, consuming the whole text |
| SelectorParse.OfTypeNotChild | bs4_selector.py:148-177 | no `-of-type` slicer matches the child slicer's pattern, which is tried first |
| SelectorParse.SliceIndexNth | bs4_selector.py:164-195 | for an argument `k` with `int(k) == n`, `nth-child` and `nth-of-type` give index `n - 1` |
| SelectorParse.SliceIndexNthLast | bs4_selector.py:166-197 | for an argument `k` with `int(k) == n`, `nth-last-child` and `nth-last-of-type` give index `-n` |
| SelectorParse.ScanSlicer | bs4_selector.py:148-178 | the child and type slicer patterns: `:` and one of the four operator names, then an optional `(arg)`; a match consumes more than one character and no more than the text |
| SelectorParse.SliceIndex | bs4_selector.py:159-168 | an error is `int()`'s `TypeError` for a missing argument and its `ValueError` for a non-numeric one |
| SelectorParse.BuildChildSlicer | bs4_selector.py:151-174 | consumes a prefix or nothing, and its errors are never `SelectorError`; `ChildSlicerAlone` states the index it builds |
| SelectorParse.ChildSlicerAlone | bs4_selector.py:148-174 | a child slicer with an admitted argument (or none) compiles on its own to exactly `[ChildSlicer(i)]`, where `i` is the index `SliceIndex` gives |
| SelectorParse.FirstChildAlone | bs4_selector.py:148-161 | `:first-child` compiles to `[ChildSlicer(0)]` |
| SelectorParse.LastChildAlone | bs4_selector.py:148-163 | `:last-child` compiles to `[ChildSlicer(-1)]` |
| SelectorParse.NthChildAlone | bs4_selector.py:148-165 | `:nth-child(k)` with `int(k) == n` compiles to `[ChildSlicer(n - 1)]` |
| SelectorParse.NthLastChildAlone | bs4_selector.py:148-167 | `:nth-last-child(k)` with `int(k) == n` compiles to `[ChildSlicer(-n)]` |
| SelectorParse.ChildSlicerBadArgument | bs4_selector.py:165 | `:nth-child(arg)` with a non-numeric `arg` fails with `ValueError(arg)` |
| SelectorParse.BuildTypeSlicer | bs4_selector.py:180-200 | consumes a prefix or nothing, and its only error is `Invalid nth element`; `TypeSlicerAlone` states the index it builds |
| SelectorParse.TypeSlicerAlone | bs4_selector.py:177-200 | a type slicer with an admitted argument (or none) compiles on its own to exactly `[TypeSlicer(i)]`, where `i` is the index `SliceIndex` gives |
| SelectorParse.FirstOfTypeAlone | bs4_selector.py:177-191 | `:first-of-type` compiles to `[TypeSlicer(0)]` |
| SelectorParse.LastOfTypeAlone | bs4_selector.py:177-193 | `:last-of-type` compiles to `[TypeSlicer(-1)]` |
| SelectorParse.NthOfTypeAlone | bs4_selector.py:177-195 | `:nth-of-type(k)` with `int(k) == n` compiles to `[TypeSlicer(n - 1)]` |
| SelectorParse.NthLastOfTypeAlone | bs4_selector.py:177-197 | `:nth-last-of-type(k)` with `int(k) == n` compiles to `[TypeSlicer(-n)]` |
| SelectorParse.TypeSlicerBadArgument | bs4_selector.py:188-199 | `:nth-of-type(arg)` with a non-numeric `arg` raises `SelectorError('Invalid nth element ...')` |
| SelectorParse.ScanAfter | bs4_selector.py:216 | a sibling combinator is `+` or `~` and consumes a non-empty prefix |
| SelectorParse.BuildAfter | bs4_selector.py:218-239 | consumes a prefix or nothing, and keeps every checker well formed (an `After` has both sides non-empty) |
| SelectorParse.NothingBeforeSibling | bs4_selector.py:233-234 | a compound starting with `+` or `~` raises `Missing selector before` |
| SelectorParse.NothingAfterSibling | bs4_selector.py:235-236 | `x +` and `x ~` with nothing after raise `Missing selector after` |
| SelectorParse.SiblingAfterName | bs4_selector.py:220-229 | `x + u` (or `~`) builds one `After([Tag(x)], cs, ~)` where `cs` is what `u` alone compiles to |
| SelectorParse.SiblingsNestRight | bs4_selector.py:225-229 | `x + y ~ z` nests to the right: `After([x], [After([y], [z])])` |
| SelectorParse.Build | bs4_selector.py:258-259 | each of the seven builders consumes a prefix or nothing and keeps checkers well formed |
| SelectorParse.PassFrom | bs4_selector.py:281-282 | one pass over the builders, in the order Tag, Attrib, Id, ChildSlicer, TypeSlicer, After, Class, consumes a prefix or nothing |
| SelectorParse.Pass | bs4_selector.py:281-282 | the `for c_t in CHECKERS` pass from the first builder: it consumes a prefix or nothing |
| SelectorParse.Compound | bs4_selector.py:277-282 | the fixpoint loop consumes a prefix or nothing and yields well-formed checkers |
| SelectorParse.CompoundIsFixpoint | bs4_selector.py:279-282 | the loop's result is a fixpoint: one more pass changes nothing |
| SelectorParse.CompoundIdleOnEmpty | bs4_selector.py:279-282 | the empty selector compiles to nothing |
| SelectorParse.TypeSelectorAlone | bs4_selector.py:20-28 | any type name compiles to exactly `[Tag(x)]` and is consumed entirely |
| SelectorParse.TypeNameAbsorbsDot | bs4_selector.py:20 | `div.x` is the type selector `div.x`, not a type and a class |
| SelectorParse.BuildCompound | bs4_selector.py:277-282 | the `while old_selected != selector` loop computes `Compound` |
| SelectorParse.RunPass | bs4_selector.py:281-282 | the `for c_t in CHECKERS` loop computes one pass |
| SelectorParse.RunBuild | bs4_selector.py:22-28 | dispatching to a builder computes `Build` |
| SelectorParse.RunAfter | bs4_selector.py:218-230 | `CheckerAfter.build`'s inner fixpoint loop computes `BuildAfter` |
| SelectorMatch.PyIndex | bs4_selector.py:172 | Python indexing: defined iff `-len <= n < len`, counting negative indices from the end |
| SelectorMatch.Pick | bs4_selector.py:172 | `tags[nth]` is an element of `tags` when defined |
| SelectorMatch.SameName | bs4_selector.py:203-205 | a `types` entry holds exactly the elements of that name |
| SelectorMatch.AttrText | bs4_selector.py:72-94 | the text `=`, `^=`, `$=` and `*=` compare: `''` for a missing attribute, a token list joined with single spaces (`' '.join`) |
| SelectorMatch.AttrTokens | bs4_selector.py:96-106 | the tokens `~=` and the prefix-token operator test: none for a missing attribute, a string split on whitespace |
| SelectorMatch.OpHolds | bs4_selector.py:48-106 | the `_op_*` method `__init__` picks for each operator, applied to one attribute value; `MissingAttribute`, `TokenImpliesPrefixAndSubstring` and `EqualImpliesPrefixSuffixSubstring` prove its properties |
| SelectorMatch.Siblings | bs4_selector.py:248-256 | sibling matches are elements of the group that match the second compound |
| SelectorMatch.Match | bs4_selector.py:33-256 | every checker returns a subset of the group it is given |
| SelectorMatch.MatchAll | bs4_selector.py:305-307 | the intersection of the checkers' sets is a subset of the group |
| SelectorMatch.MatchAllEvery | bs4_selector.py:305-307 | an element is in the compound's result iff every checker keeps it |
| SelectorMatch.Evaluate | bs4_selector.py:33-256 | the checkers' `__call__` loops compute `Match` |
| SelectorMatch.EvaluateAll | bs4_selector.py:305-307 | the `valid &= c(tags)` loop computes `MatchAll` |
| SelectorMatch.GroupByName | bs4_selector.py:203-205 | the `setdefault` loop builds, for every name, the group's elements of that name in order |
| SelectorMatch.TypeSlicerCall | bs4_selector.py:202-213 | the `types` loops compute `Match` for a type slicer |
| SelectorMatch.AfterCall | bs4_selector.py:241-256 | the sibling loop computes `Match` for `+` and `~` |
| SelectorMatch.AdjacentWithinGeneral | bs4_selector.py:250-254 | what `+` finds, `~` finds too |
| SelectorMatch.ClassIsTokenAttribute | bs4_selector.py:96-100 | `.c` selects exactly what `[class~=c]` selects |
| SelectorMatch.IdWithinAttributeEqual | bs4_selector.py:72-76 | `#x` selects only elements `[id=x]` selects |
| SelectorMatch.TokenImpliesPrefixAndSubstring | bs4_selector.py:96-106 | `~=` implies `|=` and `*=` |
| SelectorMatch.EqualImpliesPrefixSuffixSubstring | bs4_selector.py:72-94 | `=` implies `^=`, `$=` and `*=` |
| SelectorMatch.MissingAttribute | bs4_selector.py:69-106 | on a missing attribute an operator holds iff it is `=`, `^=`, `$=` or `*=` with the empty value |
| SelectorMatch.ChildSlicerPicksIndex | bs4_selector.py:170-174 | a child slicer selects at most one element, exactly `tags[nth]` with Python's negative indexing |
| SelectorMatch.NthChildZeroPicksLast | bs4_selector.py:164-172 | `nth-child(0)` yields index -1 and selects the last element |
| SelectorMatch.TypeSlicerOnePerName | bs4_selector.py:202-213 | a type slicer selects at most one element of each name |
| SelectorMatch.TypeSlicerOfOneName | bs4_selector.py:202-213 | on a group of one name, a type slicer is the child slicer |
| Dom.Descendants | bs4_selector.py:294 | every node of `tag.descendants` has a larger handle than `tag` and lies in the tree |
| Dom.TagsOf | bs4_selector.py:301 | keeps exactly the `Tag` nodes of a list |
| Dom.DescendantsTransitive | bs4_selector.py:294 | a descendant of a descendant is a descendant |
| Selector.Candidates | bs4_selector.py:293-296 | the candidates of a descendant step are exactly the `Tag`s below some context element: every candidate is one, and every one is a candidate |
| Selector.ParentKeys | bs4_selector.py:296-297 | one key per parent, without repeats, covering every candidate |
| Selector.Members | bs4_selector.py:296 | a group holds exactly the candidates with that parent |
| Selector.DescendantGroups | bs4_selector.py:291-297 | `list(groups.values())`: the candidates grouped by parent, groups in order of their parent's first appearance; `DescendantGroupsByParent` states the grouping and `BuildDescendantGroups` computes it |
| Selector.ChildGroups | bs4_selector.py:299-301 | a child step has one group per context element |
| Selector.ChildGroupsAreChildren | bs4_selector.py:300-301 | group `i` of a child step is exactly the `Tag` children of context element `i` |
| Selector.StepGroups | bs4_selector.py:291-301 | the descendant groups for a step without `>`, the child groups after `>` |
| Selector.DescendantGroupsByParent | bs4_selector.py:291-297 | descendant groups are non-empty, share a parent within a group, differ in parent across groups, and together hold exactly the candidates |
| Selector.Keep | bs4_selector.py:308 | keeps exactly the group's elements that are valid, in order |
| Selector.Found | bs4_selector.py:303-308 | an element is found iff it is in a group and the compound keeps it there |
| Selector.GroupsAreTags | bs4_selector.py:295 | only `Tag` nodes reach a group |
| Selector.FoundWithinContext | bs4_selector.py:291-308 | everything found is a `Tag` below a context element, and for a child step a child of one |
| Selector.Step | bs4_selector.py:266-308 | a step consumes text and finds only `Tag`s |
| Selector.StepWithinContext | bs4_selector.py:266-308 | a step's results lie below the context (the root when the context is empty), as children after `>` |
| Selector.SelectFrom | bs4_selector.py:266-319 | the outer loop run from a given text, context and `selected` list; `SelectFromBelowRoot`, `SelectFromStep`, `SelectFromFails` and `SelectFromAccumulates` state how it proceeds |
| Selector.Selection | bs4_selector.py:261-320 | `select(root, selector)`: the outer loop on the stripped selector with nothing selected and an empty context; `SelectionBelowRoot` and `ChainsConcatenate` are about it |
| Selector.SelectionBelowRoot | bs4_selector.py:261-320 | every selected element is a `Tag` strictly below the root |
| Selector.TypeSelection | bs4_selector.py:261-308 | `select(root, n)` for a type name `n` succeeds and returns exactly the `Tag` descendants of the root named `n`, both directions |
| Selector.FoundByName | bs4_selector.py:291-308 | a descendant step from the root with the one checker `Tag(n)` finds an element iff it is a `Tag` descendant of the root named `n` |
| Selector.TypeStep | bs4_selector.py:266-296 | a type name as the first step searches the root's descendants with the single checker `Tag(n)` and leaves no text |
| Selector.SelectFromBelowRoot | bs4_selector.py:266-319 | the outer loop only ever adds elements strictly below the root |
| Selector.SelectFromStep | bs4_selector.py:313-317 | after a step, a comma moves the results into `selected` and restarts; otherwise they become the context |
| Selector.SelectFromFails | bs4_selector.py:288-289 | a failing step fails the whole selection with its error |
| Selector.SelectFromAccumulates | bs4_selector.py:315-319 | what was selected before stays first, in order, ahead of what the rest selects |
| Selector.ChainsConcatenate | bs4_selector.py:313-319 | `a, b` selects what `a` selects followed by what `b` selects |
| Selector.EmptyContextSearchesRoot | bs4_selector.py:275-276 | an empty context searches from the root |
| Selector.NoMatchRestarts | bs4_selector.py:275-276 | after a step that found nothing, the next step searches from the root |
| Selector.UnknownSelectorRaised | bs4_selector.py:288-289 | text that no builder accepts raises `Unknown selector` |
| Selector.LoneChildCombinator | bs4_selector.py:267-289 | the selector `>` alone raises `Unknown selector ''` |
| Selector.BlankSelectsNothing | bs4_selector.py:265-266 | a blank selector selects nothing |
| Selector.AddDescendants | bs4_selector.py:294-296 | the inner loop adds one element's `Tag` descendants to the parent groups |
| Selector.BuildDescendantGroups | bs4_selector.py:291-297 | the grouping loops compute the descendant groups |
| Selector.BuildChildGroups | bs4_selector.py:298-301 | the child loop computes the child groups |
| Selector.FilterGroups | bs4_selector.py:303-308 | the filtering loop computes `Found` |
| Selector.RunStep | bs4_selector.py:266-308 | one round of the outer loop computes `Step` |
| Selector.Select | bs4_selector.py:261-320 | `select` computes `Selection` |
| Base.Pull | wrapper/base.py:31-47 | the generator yields `Interleave(args)` |
| Base.Heads | wrapper/base.py:39-44 | one round of `pull`: the next element of each iterator that still has one, in argument order; `PullRound` and `Tails` are about it |
| Base.Interleave | wrapper/base.py:31-47 | everything `pull(*args)` yields: a round of heads, then the same on what is left; `PullIsRounds`, `PullYieldsAll`, `PullPlaces` and `PullKeepsOrder` characterise it |
| Base.PullRound | wrapper/base.py:39-47 | one round yields each live iterator's next element and keeps the iterators not yet exhausted |
| Base.Tails | wrapper/base.py:42-47 | a round removes exactly one element from each live iterator |
| Base.PullIsRounds | wrapper/base.py:38-46 | the output is round 0, round 1, ... up to the longest argument |
| Base.PullYieldsAll | wrapper/base.py:31-47 | every element of every argument is yielded exactly once (a permutation of the concatenation) |
| Base.PullPlaces | wrapper/base.py:38-46 | element `i` of argument `k` appears at position `PullIndex(k, i)` |
| Base.PullKeepsOrder | wrapper/base.py:38-46 | each argument's elements come out in their own order |
| Base.NonDigitEnd | wrapper/base.py:148 | the end of a non-digit run is at the end or at a digit |
| Base.DigitEnd | wrapper/base.py:149 | the end of a digit run is at the end or at a non-digit, past at least one digit |
| Base.DigitSplit | wrapper/base.py:148-149 | `re.split(r'\d+', name)` and `re.findall(r'\d+', name)` of a name; `SplitFrom`, `DigitSplitPieces`, `DigitSplitRejoins` and `DigitSplitRun` pin it down |
| Base.SplitFrom | wrapper/base.py:148-149 | `re.split` gives one more text than `re.findall` gives numbers |
| Base.DigitSplitPieces | wrapper/base.py:148-149 | the texts hold no digits, and the numbers are non-empty digit runs |
| Base.DigitSplitRejoins | wrapper/base.py:148-149 | interleaving the texts and numbers gives back the file name |
| Base.DigitSplitRun | wrapper/base.py:148-149 | a name `a d b` with a maximal digit run `d` splits into `a`, `d` and the split of `b` |
| Base.SplitFilename | wrapper/base.py:138-150 | the sort key `pull(lowered texts, int numbers)`; `SplitFilenameAlternates`, `SplitFilenameIgnoresCase`, `ZeroPaddingIgnored` and `NumberInKey` are about it |
| Base.SplitFilenameAlternates | wrapper/base.py:150 | a key has odd length, with texts exactly at the even positions and integers at the odd ones |
| Base.SplitFilenameIgnoresCase | wrapper/base.py:150 | names equal up to ASCII case have equal keys |
| Base.ZeroPaddingIgnored | wrapper/base.py:150 | a leading zero on a number does not change the key (`a01` sorts with `a1`) |
| Base.NumberInKey | wrapper/base.py:144-150 | for `a n b`, the key starts with `lower(a)` and then the integer `n` |
| Base.RFind | wrapper/base.py:84 | the last index of a character, or -1 |
| Base.SplitExt | wrapper/base.py:84 | POSIX `os.path.splitext`; `SplitExtParts` and `NoDotNoExt` state its result |
| Base.SplitExtParts | wrapper/base.py:84 | `splitext` parts concatenate to the path, and the extension is empty or a `.` followed by no `/` and no further `.` |
| Base.NoDotNoExt | wrapper/base.py:84 | a name without `.` has no extension |
| Base.HasExt | wrapper/base.py:84-85 | the lower-cased extension of a file is one of `exts` |
| Base.Wanted | wrapper/base.py:82-88 | the listed files with a wanted extension, in order; `WantedMembers`, `WantedCounts`, `WantedTwice` and `WantedAppend` state it, and `FilterFileExtension` computes it |
| Base.FilterFileExtension | wrapper/base.py:82-88 | the loop returns `Wanted(filelist, exts)` |
| Base.WantedAppend | wrapper/base.py:82-88 | filtering distributes over concatenation, so order is kept |
| Base.WantedMembers | wrapper/base.py:82-88 | a file is kept iff it is listed and its lower-cased extension is wanted |
| Base.WantedCounts | wrapper/base.py:82-88 | a kept file keeps its multiplicity, and every other file disappears |
| Base.WantedTwice | wrapper/base.py:82-88 | filtering twice is filtering once |
| Base.HasFile | wrapper/base.py:158-159 | true iff some listed file has exactly that name |
| Strings.Lower | wrapper/base.py:85 | `lower()` keeps the length and maps each character through ASCII folding |
| Strings.StripSet | wrapper/web.py:244 | `strip(chars)` returns the slice of the input left once every leading and every trailing stripped character is removed: all characters cut off are in the set, and the slice neither starts nor ends with one |
| Web.SplitJoin | wrapper/web.py:53 | `split('/')` undoes `'/'.join` of parts without `/` |
| Web.BasePath | wrapper/web.py:53-57 | `'/%s/' % part` of the non-empty path segments before the last, or `/` without any; `BasePathSlashes` and `BasePathOfPage` state it |
| Web.BasePathSlashes | wrapper/web.py:53-57 | a base path starts and ends with `/` |
| Web.BasePathOfPage | wrapper/web.py:53-57 | the base path of `/d1/.../dn/name` is `/d1/.../dn/`, and `/` when there is no directory |
| Web.Resolve | wrapper/web.py:263-269 | a URL's components completed from a parent's components and base path; `ResolveFields` states each component |
| Web.ImageParser.FullPath | wrapper/web.py:122-132 | `self._fullpath(url)`: the parsed URL completed against the page and its base path |
| Web.ResolveFields | wrapper/web.py:122-132 | a missing scheme or netloc is the page's, params, query and fragment are kept, and a relative path without netloc goes under the base path |
| Web.ResolveTwice | wrapper/web.py:122-132 | completing an already completed URL changes nothing |
| Web.ResolvedPathAbsolute | wrapper/web.py:127-130 | a URL that borrows the page's netloc ends up with an absolute path |
| Web.WebFullPath | wrapper/web.py:250-271 | the static `_fullpath`: `''` for an empty URL, otherwise the completed components written by `geturl`; `WebFullPathCases` states it |
| Web.WebFullPathCases | wrapper/web.py:250-271 | an empty URL gives `''`; any other is written from components with the right netloc and, when borrowed, an absolute path |
| Web.Basename | wrapper/web.py:31 | the last path component has no `/` and ends the path |
| Web.NewWebImage | wrapper/web.py:29-36 | fails iff there is no address; the image URL is the first address; the file name is the address or a `/`-free tail of it |
| Web.WebImageFilename | wrapper/web.py:31-36 | the file name is the last component unless the address is empty or ends with `/` |
| Web.Lookup | wrapper/web.py:77 | `dict(attrs)[key]` is the value of the last pair with that key, and it is missing iff no pair has it |
| Web.Priority | wrapper/web.py:100 | the bucket is below 8, and it encodes the three flags so that each can be read back |
| Web.ImageParser.constructor | wrapper/web.py:46-57 | eight empty buckets, no saved link, and the page's base path |
| Web.ImageParser.FedAsWritten | wrapper/web.py:46-64 | the state the constructor leaves as written: no saved link and eight empty buckets, whatever the page holds |
| Web.ImageParser.AsWrittenFindsNothing | wrapper/web.py:46-64 | as written, `find_image` raises `No Image found` for every page and every content length |
| Web.ImageParser.ImageOnPageFound | wrapper/web.py:66-120 | once tags reach the handlers, a page whose one `img` has a known content length gives that image, completed and stripped |
| Web.ImageParser.ImagePriority | wrapper/web.py:95-100 | an image's bucket is one of the eight |
| Web.ImageParser.StartA | wrapper/web.py:76-87 | `start_a` sets the saved link to `LinkAfterStart` and leaves the buckets alone |
| Web.ImageParser.EndA | wrapper/web.py:89-90 | `end_a` clears the saved link and leaves the buckets alone |
| Web.ImageParser.LinkAfterStart | wrapper/web.py:76-87 | the saved link after `start_a`; `LinkNeverPage`, `LinkFromHref` and `LinkKeptWithoutHref` state it |
| Web.ImageParser.DoImg | wrapper/web.py:92-101 | `do_img` files the image as `FiledImage` says and keeps the saved link |
| Web.ImageParser.FiledImage | wrapper/web.py:92-101 | the buckets after `do_img`; `FiledImageBucket` and `FiledImageNoSrc` state them |
| Web.ImageParser.HandleStartTag | wrapper/web.py:66-70 | an opening tag moves the state one `Step` |
| Web.ImageParser.HandleEndTag | wrapper/web.py:72-74 | a closing tag moves the state one `Step` |
| Web.ImageParser.Step | wrapper/web.py:66-74 | the state after one opening or closing tag; `StepGrows` states that buckets only grow at their end |
| Web.ImageParser.Run | wrapper/web.py:66-101 | over any sequence of tags, every bucket only grows at its end |
| Web.ImageParser.StepGrows | wrapper/web.py:66-101 | no tag removes or reorders a filed image |
| Web.ImageParser.LinkNeverPage | wrapper/web.py:86-87 | the saved link is never the page itself |
| Web.ImageParser.LinkFromHref | wrapper/web.py:78-81 | a newly saved link is the tag's completed `href`, on the page's host |
| Web.ImageParser.LinkKeptWithoutHref | wrapper/web.py:77-87 | an `a` tag without `href` keeps the saved link |
| Web.ImageParser.FiledImageBucket | wrapper/web.py:92-101 | an image goes at the end of exactly one bucket, whose number says: unknown extension (4-7), no link open (2, 3, 6, 7), `.gif` (odd) |
| Web.ImageParser.FiledImageNoSrc | wrapper/web.py:93 | an `img` without `src` changes nothing |
| Web.ImageParser.FindImage | wrapper/web.py:103-120 | the nested loops with `break` return `Chosen(Scan(buckets))` |
| Web.ImageParser.Chosen | wrapper/web.py:117-120 | `No Image found at "page"` when nothing was picked, otherwise the image with the stripped address, the page and the saved link |
| Web.ScanList | wrapper/web.py:108-113 | the inner loop over one bucket; `ScanListBound` and `ScanListFirst` state it |
| Web.Scan | wrapper/web.py:105-116 | the outer loop with its `break`, carrying `maxsize` from bucket to bucket; `ScanMax`, `ScanPicked`, `ScanNothing`, `ScanAllWhenSmall`, `ScanStopsBy`, `ScanRises` and `ScanFirst` state it |
| Web.ScanListBound | wrapper/web.py:108-113 | within a bucket the best size bounds every candidate, stays put iff none is larger, and changes only to a strictly larger candidate of the bucket |
| Web.ScanListFirst | wrapper/web.py:111-113 | of several equally large candidates the first is kept |
| Web.ScanMax | wrapper/web.py:106-116 | the best size stays at its start iff no candidate in any bucket is larger |
| Web.ScanPicked | wrapper/web.py:106-116 | nothing is picked iff the best size is still -1, and a pick is a candidate of some bucket with the best size |
| Web.ScanNothing | wrapper/web.py:103-118 | `find_image` raises iff every size is -1 or less |
| Web.ScanAllWhenSmall | wrapper/web.py:106-116 | when no size exceeds `minlength`, the pick is a largest image over all buckets |
| Web.ScanStopsBy | wrapper/web.py:115-116 | once bucket `k0` holds an image larger than `minlength`, the pick comes from bucket `k0` or an earlier one |
| Web.ScanRises | wrapper/web.py:105-116 | across the buckets the best is either unchanged or replaced by a strictly larger size |
| Web.ScanFirst | wrapper/web.py:105-116 | a new pick is the candidate read first among the largest: every candidate in an earlier bucket, and every earlier one in its own bucket, is strictly smaller, so ties across buckets go to the earlier bucket |
| Web.ItemUrlsLayout | wrapper/web.py:237-246 | the collected addresses are the `src` (else `data-src`) address followed by the `onerror` fallback exactly when the handler starts with `this.src=` |
| Web.BuildItemSources | wrapper/web.py:235-248 | `src` wins over `data-src`; an `onerror="this.src=..."` fallback comes last; with none of the three the item fails |
| Web.BuildItemBlankSrc | wrapper/web.py:237-238 | a blank `src` gives an empty image address |
| Web.ItemUrls | wrapper/web.py:236-246 | the addresses `_builditem` collects; `ItemUrlsLayout` states them |
| Web.BuildItem | wrapper/web.py:235-248 | `_builditem`: a `WebImage` of those addresses; `BuildItemSources` and `BuildItemBlankSrc` state it |
| Movers.Reversed | movers.py:185 | `tops[::-1]` has the same length with the elements in reverse |
| Movers.ReversedDescending | movers.py:185 | ascending tops are stored descending, with the same elements |
| Movers.Mover.constructor | movers.py:67-73 | a new mover has its name and no segments |
| Movers.Mover.SetSegments | movers.py:184-186 | stores `tops` reversed and `bottoms` as given |
| Movers.Mover.NextSegment | movers.py:216-243 | the two loops with `break` return `NextStep` |
| Movers.NextBottoms | movers.py:223-229 | the bottom loop of `next_segment`; `NextBottomsLargest` states it |
| Movers.NextTops | movers.py:231-236 | the top loop of `next_segment`; `NextTopsFound` states it |
| Movers.NextStep | movers.py:216-243 | the step `next_segment` returns; `NextStepCases` states it |
| Movers.NextBottomsLargest | movers.py:223-229 | over ascending bottoms, the bottom target is the largest bottom in `(viewBottom, viewBottom+dy]`, or none when there is none |
| Movers.NextTopsFound | movers.py:231-236 | a top target is a top above `minTop`, which is itself beyond `viewTop` |
| Movers.NextStepCases | movers.py:216-243 | a top target wins with a positive step; failing that the step reaches the largest bottom in range and lies in `(0, dy]`; failing both it is `dy` |
| Movers.Mover.PrevSegment | movers.py:245-274 | the two loops with `break` return `PrevStep` |
| Movers.PrevTops | movers.py:254-260 | the top loop of `prev_segment`; `PrevTopsSmallest` states it |
| Movers.PrevBottoms | movers.py:262-267 | the bottom loop of `prev_segment`; `PrevBottomsFound` states it |
| Movers.PrevStep | movers.py:245-274 | the step `prev_segment` returns; `PrevStepCases` states it |
| Movers.PrevTopsSmallest | movers.py:254-260 | over descending tops, the top target is the smallest top in `[viewTop-dy, viewTop)`, or none when there is none |
| Movers.PrevBottomsFound | movers.py:263-267 | a bottom target is a bottom below `maxBottom`, which is itself short of `viewBottom` |
| Movers.PrevStepCases | movers.py:245-274 | a bottom target wins with a positive step; failing that the step reaches the smallest top in range and lies in `(0, dy]`; failing both it is `dy` |
| Movers.MoverEquality | movers.py:276-283 | mover equality is an equivalence on names, and equal movers hash alike |
| Movers.Mover.Equals | movers.py:282-283 | `__eq__`: the names are equal; `MoverEquality` proves it an equivalence |
| Movers.Mover.Hash | movers.py:279-280 | `__hash__`: the hash of the name; `MoverEquality` proves equal movers hash alike |

## Left out

- The tree builder: the model takes the parsed tree as an arena of nodes (`Dom`).
- Regular expressions: each pattern is replaced by an explicit scanner with the same greedy behaviour.
- Unicode: `\d`, `\w` and `lower()` are modelled for ASCII only, as is `int()` of Unicode digits.
- The `debug` prints of `select`.
- `pull`: its laziness and infinite iterators; each iterator is the finite sequence it still has to yield.
- Paths: `os.path.splitext` and `os.path.split` follow POSIX separators only.
- The file system: `folderlist` and `list_archives`, and all of wrapper/archive.py and wrapper/pdf.py.
- URL parsing: `urlparse` and `ParseResult.geturl` are parameters of the model, not an RFC 3986 parser.
- Web.WebFullPathCases: states the components handed to `geturl`, not the text it writes, because `geturl` is a parameter.
- The network, in `ImageParser.__init__`, `get_content_length` and `WebWrapper` `open`, `load_next` and `_parse_url`:
  - the HTML feed becomes a sequence of tag events;
  - content lengths become the parameter `size`.
  - `ImageParser.__init__` builds a `WebIOError` without raising it, so fetch errors are swallowed; this path is not modelled.
  - the tag handlers are driven by tag events that the constructor as written never delivers (see Findings); `FedAsWritten` is what it does deliver.
- Web.ImageParser.FindImage: `size` is any integer-valued parameter; `get_content_length` (wrapper/web.py:136-141) itself gives 0 on every fetch or parse failure, so the source never fails there either.
- Attributes written without a value, which `HTMLParser` reports as `None`: attribute values are strings.
- `Image.EXTENSION`: it is the parameter `known`. `filter_images` (wrapper/base.py:90-91) is `filter_file_extension(Image.EXTENSION)`, so it is `Base.FilterFileExtension` and `Base.Wanted` with that parameter.
- `WebImage.__hash__`: not modelled.
- Views: they are given by their integer top and bottom rows, so `int(view.top())` truncation of floats is outside the model.
- The other mover methods: image segmentation (`crop_image`, `segment_image`), step sizes and view alignment are numpy, scipy and Qt floating-point code.
- Movers.MoverEquality: compares movers with movers only; `__eq__` against a non-mover, which returns false, is not modelled. The string hash is a parameter.
- Movers.NextStepCases and Movers.PrevStepCases: the largest-bottom and smallest-top statements assume sorted borders, as `segment_image` produces them; for unsorted borders only `NextBottoms`/`PrevTops` themselves describe the result.
- ScanAttrib: its own contract ties the name to the text; the operator and the value are tied to the text by `ScanAttribParts` and `ScanAttribFails`, and the whole reading by `ScanAttribReads`.
- BuildAttrib: its own contract states only that it advances or idles; the checker it appends is stated by `AttribSelectorAlone` for every attribute selector standing alone (whitespace between a closing quote and `]`, which the pattern also accepts, is not among those texts).
- BuildChildSlicer: its own contract states the advance and the errors; the index it builds is stated by `ChildSlicerAlone` and its four instances for a slicer standing alone.
- BuildTypeSlicer: its own contract states the advance and the error; the index it builds is stated by `TypeSlicerAlone` and its four instances for a slicer standing alone.

## Findings

| source | as written | input that shows it | evidently intended | confidence | as-written member | corrected member |
|---|---|---|---|---|---|---|
| wrapper/web.py:47 | `super(HTMLParser, self).__init__()` skips `HTMLParser.__init__` and its `reset()`, so `feed` (line 62) fails on the missing `rawdata`, lines 63-64 swallow the error, no tag reaches the handlers and `find_image` always raises `No Image found` (under Python 2 the old-style class makes `super` itself raise `TypeError`) | any page holding one `img` whose address has a known content length | `super(ImageParser, self).__init__()`, so that the page is parsed and its image found | not executed | Web.ImageParser.AsWrittenFindsNothing | Web.ImageParser.ImageOnPageFound |
