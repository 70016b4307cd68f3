/** `wrapper/base.py`: interleaving iterators (`pull`), the natural sort key
    of file names (`split_filename`), filtering a file list by extension and
    membership of a file name. */
module Base {
  import opened Strings

  // ---------------------------------------------------------------------------
  // pull: an iterator is modelled by the elements it has still to yield

  function Total<T>(xs: seq<seq<T>>): nat
  {
    if xs == [] then 0 else Total(xs[..|xs| - 1]) + |xs[|xs| - 1]|
  }

  /** All arguments one after the other. */
  function Concat<T>(xs: seq<seq<T>>): (r: seq<T>)
    ensures |r| == Total(xs)
  {
    if xs == [] then [] else Concat(xs[..|xs| - 1]) + xs[|xs| - 1]
  }

  /** What one round of `pull` yields: the next element of every live
      iterator, in argument order. */
  function Heads<T>(xs: seq<seq<T>>): seq<T>
  {
    if xs == [] then []
    else
      var last := xs[|xs| - 1];
      Heads(xs[..|xs| - 1]) + (if last == [] then [] else [last[0]])
  }

  /** `niters` after a round: every iterator that yielded, advanced by one;
      the exhausted ones are dropped. */
  function Tails<T>(xs: seq<seq<T>>): (r: seq<seq<T>>)
    ensures |r| == |Heads(xs)| <= |xs|
    ensures Total(r) + |Heads(xs)| == Total(xs)
  {
    if xs == [] then []
    else
      var init, last := xs[..|xs| - 1], xs[|xs| - 1];
      var ts := Tails(init);
      if last == [] then ts
      else
        TotalSnoc(ts, last[1..]);
        ts + [last[1..]]
  }

  lemma Assoc<T>(a: seq<T>, b: seq<T>, c: seq<T>)
    ensures a + b + c == a + (b + c)
  {
  }

  lemma TotalSnoc<T>(a: seq<seq<T>>, y: seq<T>)
    ensures Total(a + [y]) == Total(a) + |y|
  {
    assert (a + [y])[..|a|] == a;
  }

  /** The snoc forms of the definitions above, for the proofs below. */
  lemma Snoc<T>(a: seq<seq<T>>, y: seq<T>, r: nat)
    ensures Heads(a + [y]) == Heads(a) + (if y == [] then [] else [y[0]])
    ensures Tails(a + [y]) == Tails(a) + (if y == [] then [] else [y[1..]])
    ensures Concat(a + [y]) == Concat(a) + y
    ensures Round(a + [y], r) == Round(a, r) + (if r < |y| then [y[r]] else [])
    ensures MaxLen(a + [y]) == if |y| > MaxLen(a) then |y| else MaxLen(a)
  {
    assert (a + [y])[..|a|] == a;
  }

  /** Everything `pull(*xs)` yields, in order. */
  function Interleave<T>(xs: seq<seq<T>>): seq<T>
    decreases Total(xs) + |xs|
  {
    if xs == [] then [] else Heads(xs) + Interleave(Tails(xs))
  }

  /** `pull(*args)`, collecting what the generator yields. */
  method Pull<T>(args: seq<seq<T>>) returns (out: seq<T>)
    ensures out == Interleave(args)
  {
    var iters := args;
    out := [];
    while iters != []
      invariant out + Interleave(iters) == Interleave(args)
      decreases Total(iters) + |iters|
    {
      var yielded, niters := PullRound(iters);
      YieldStep(out, yielded, Interleave(niters), Interleave(iters), Interleave(args));
      out := out + yielded;
      iters := niters;
    }
  }

  lemma YieldStep<T>(out: seq<T>, yielded: seq<T>, rest: seq<T>, now: seq<T>, all: seq<T>)
    requires out + now == all && now == yielded + rest
    ensures (out + yielded) + rest == all
  {
    Assoc(out, yielded, rest);
  }

  /** One round of the `while iters:` loop: `next` on every iterator in
      turn, keeping those that yielded. */
  method PullRound<T>(iters: seq<seq<T>>) returns (yielded: seq<T>, niters: seq<seq<T>>)
    ensures yielded == Heads(iters) && niters == Tails(iters)
  {
    yielded, niters := [], [];
    for i := 0 to |iters|
      invariant yielded == Heads(iters[..i])
      invariant niters == Tails(iters[..i])
    {
      var cur := iters[i];
      assert iters[..i + 1] == iters[..i] + [cur];
      Snoc(iters[..i], cur, 0);
      if cur != [] {
        yielded := yielded + [cur[0]];
        niters := niters + [cur[1..]];
      }
    }
    assert iters[..|iters|] == iters;
  }

  /** Round `r`: element `r` of every argument that has one, in argument order. */
  function Round<T>(xs: seq<seq<T>>, r: nat): seq<T>
  {
    if xs == [] then []
    else
      var last := xs[|xs| - 1];
      Round(xs[..|xs| - 1], r) + (if r < |last| then [last[r]] else [])
  }

  /** Rounds `0` to `n - 1`, one after the other. */
  function Rounds<T>(xs: seq<seq<T>>, n: nat): seq<T>
  {
    if n == 0 then [] else Rounds(xs, n - 1) + Round(xs, n - 1)
  }

  /** The length of the longest argument. */
  function MaxLen<T>(xs: seq<seq<T>>): (m: nat)
    ensures forall k :: 0 <= k < |xs| ==> |xs[k]| <= m
  {
    if xs == [] then 0
    else
      var m := MaxLen(xs[..|xs| - 1]);
      var last := xs[|xs| - 1];
      if |last| > m then |last| else m
  }

  lemma {:induction false} HeadsIsFirstRound<T>(xs: seq<seq<T>>)
    ensures Heads(xs) == Round(xs, 0)
  {
    if xs != [] {
      var init, last := xs[..|xs| - 1], xs[|xs| - 1];
      assert xs == init + [last];
      HeadsIsFirstRound(init);
      Snoc(init, last, 0);
    }
  }

  lemma {:induction false} RoundOfTails<T>(xs: seq<seq<T>>, r: nat)
    requires r > 0
    ensures Round(Tails(xs), r - 1) == Round(xs, r)
  {
    if xs != [] {
      var init, last := xs[..|xs| - 1], xs[|xs| - 1];
      assert xs == init + [last];
      RoundOfTails(init, r);
      Snoc(init, last, r);
      if last != [] {
        Snoc(Tails(init), last[1..], r - 1);
      }
    }
  }

  lemma {:induction false} MaxLenOfTails<T>(xs: seq<seq<T>>)
    ensures MaxLen(xs) == 0 ==> Tails(xs) == []
    ensures MaxLen(xs) > 0 ==> MaxLen(Tails(xs)) == MaxLen(xs) - 1
  {
    if xs != [] {
      var init, last := xs[..|xs| - 1], xs[|xs| - 1];
      assert xs == init + [last];
      MaxLenOfTails(init);
      Snoc(init, last, 0);
      if last != [] {
        Snoc(Tails(init), last[1..], 0);
      }
    }
  }

  lemma {:induction false} RoundsShift<T>(xs: seq<seq<T>>, n: nat)
    requires n > 0
    ensures Rounds(xs, n) == Round(xs, 0) + Rounds(Tails(xs), n - 1)
  {
    if n > 1 {
      var ts := Tails(xs);
      RoundsShift(xs, n - 1);
      RoundOfTails(xs, n - 1);
      ShiftAlgebra(Rounds(xs, n), Rounds(xs, n - 1), Round(xs, n - 1), Rounds(ts, n - 1),
        Round(xs, 0), Rounds(ts, n - 1 - 1), Round(ts, n - 1 - 1));
    }
  }

  lemma ShiftAlgebra<T>(p: seq<T>, q: seq<T>, x: seq<T>, y: seq<T>, a: seq<T>, b: seq<T>, c: seq<T>)
    requires p == q + x && q == a + b && x == c && y == b + c
    ensures p == a + y
  {
    Assoc(a, b, c);
  }

  /** `pull` works in rounds: round `r` takes element `r` of every argument
      long enough, in argument order, and the rounds follow one another. */
  lemma {:induction false} PullIsRounds<T>(xs: seq<seq<T>>)
    ensures Interleave(xs) == Rounds(xs, MaxLen(xs))
    decreases Total(xs) + |xs|
  {
    if xs != [] {
      if MaxLen(xs) > 0 {
        PullIsRounds(Tails(xs));
        RoundsAfterFirst(xs);
      } else {
        AllExhausted(xs);
      }
    }
  }

  /** One round of `pull`, then the rest: the step of `PullIsRounds`. */
  lemma RoundsAfterFirst<T>(xs: seq<seq<T>>)
    requires MaxLen(xs) > 0
    requires Interleave(Tails(xs)) == Rounds(Tails(xs), MaxLen(Tails(xs)))
    ensures Interleave(xs) == Rounds(xs, MaxLen(xs))
  {
    var ts, m := Tails(xs), MaxLen(xs);
    MaxLenOfTails(xs);
    HeadsIsFirstRound(xs);
    RoundsShift(xs, m);
    JoinEqual(Interleave(xs), Heads(xs), Interleave(ts), Round(xs, 0), Rounds(ts, m - 1), Rounds(xs, m));
  }

  /** When every argument is empty, `pull` yields nothing. */
  lemma AllExhausted<T>(xs: seq<seq<T>>)
    requires xs != [] && MaxLen(xs) == 0
    ensures Interleave(xs) == Rounds(xs, MaxLen(xs))
  {
    var ts := Tails(xs);
    MaxLenOfTails(xs);
    assert |Heads(xs)| == 0;
    JoinEqual(Interleave(xs), Heads(xs), Interleave(ts), [], [], Rounds(xs, 0));
  }

  lemma JoinEqual<T>(p: seq<T>, h: seq<T>, j: seq<T>, a: seq<T>, b: seq<T>, w: seq<T>)
    requires p == h + j && h == a && j == b && w == a + b
    ensures p == w
  {
  }

  lemma {:induction false} ConcatHeadsTails<T>(xs: seq<seq<T>>)
    ensures multiset(Concat(xs)) == multiset(Heads(xs)) + multiset(Concat(Tails(xs)))
  {
    if xs != [] {
      var init, last := xs[..|xs| - 1], xs[|xs| - 1];
      assert xs == init + [last];
      ConcatHeadsTails(init);
      Snoc(init, last, 0);
      if last != [] {
        Snoc(Tails(init), last[1..], 0);
        ConcatHeadsTailsStep(Concat(init), Heads(init), Concat(Tails(init)), last);
      }
    }
  }

  lemma ConcatHeadsTailsStep<T>(c: seq<T>, h: seq<T>, ct: seq<T>, last: seq<T>)
    requires multiset(c) == multiset(h) + multiset(ct) && last != []
    ensures multiset(c + last) == multiset(h + [last[0]]) + multiset(ct + last[1..])
  {
    assert last == [last[0]] + last[1..];
  }

  /** `pull` yields every element of every argument exactly once. */
  lemma {:induction false} PullYieldsAll<T>(xs: seq<seq<T>>)
    ensures multiset(Interleave(xs)) == multiset(Concat(xs))
    ensures |Interleave(xs)| == Total(xs)
    decreases Total(xs) + |xs|
  {
    if xs != [] {
      PullYieldsAll(Tails(xs));
      ConcatHeadsTails(xs);
    }
  }

  lemma {:induction false} RoundAppend<T>(a: seq<seq<T>>, b: seq<seq<T>>, r: nat)
    ensures Round(a + b, r) == Round(a, r) + Round(b, r)
    decreases |b|
  {
    if b == [] {
      assert a + b == a;
    } else {
      var ab := a + b;
      assert ab[..|ab| - 1] == a + b[..|b| - 1];
      RoundAppend(a, b[..|b| - 1], r);
    }
  }

  lemma {:induction false} RoundsPrefix<T>(xs: seq<seq<T>>, n: nat, m: nat)
    requires n <= m
    ensures |Rounds(xs, n)| <= |Rounds(xs, m)| && Rounds(xs, m)[..|Rounds(xs, n)|] == Rounds(xs, n)
    decreases m
  {
    if n < m {
      RoundsPrefix(xs, n, m - 1);
    }
  }

  /** How many arguments have an element `r`: the length of round `r`. */
  function RoundSize<T>(xs: seq<seq<T>>, r: nat): nat
  {
    if xs == [] then 0
    else RoundSize(xs[..|xs| - 1], r) + (if r < |xs[|xs| - 1]| then 1 else 0)
  }

  /** The length of rounds `0` to `n - 1` together. */
  function RoundsSize<T>(xs: seq<seq<T>>, n: nat): nat
  {
    if n == 0 then 0 else RoundsSize(xs, n - 1) + RoundSize(xs, n - 1)
  }

  lemma {:induction false} RoundSizeIsLength<T>(xs: seq<seq<T>>, r: nat)
    ensures |Round(xs, r)| == RoundSize(xs, r)
  {
    if xs != [] {
      RoundSizeIsLength(xs[..|xs| - 1], r);
    }
  }

  lemma {:induction false} RoundsSizeIsLength<T>(xs: seq<seq<T>>, n: nat)
    ensures |Rounds(xs, n)| == RoundsSize(xs, n)
  {
    if n > 0 {
      RoundsSizeIsLength(xs, n - 1);
      RoundSizeIsLength(xs, n - 1);
    }
  }

  /** An argument that has an element `r` counts in round `r` after the
      arguments before it. */
  lemma {:induction false} RoundSizeBefore<T>(xs: seq<seq<T>>, k: nat, r: nat)
    requires k < |xs| && r < |xs[k]|
    ensures RoundSize(xs[..k], r) < RoundSize(xs, r)
  {
    var init := xs[..|xs| - 1];
    if k == |xs| - 1 {
      assert xs[..k] == init;
    } else {
      assert xs[..k] == init[..k] && init[k] == xs[k];
      RoundSizeBefore(init, k, r);
    }
  }

  lemma {:induction false} RoundsSizeGrows<T>(xs: seq<seq<T>>, n: nat, m: nat)
    requires n <= m
    ensures RoundsSize(xs, n) <= RoundsSize(xs, m)
    decreases m
  {
    if n < m {
      RoundsSizeGrows(xs, n, m - 1);
    }
  }

  /** Where `pull` puts element `i` of argument `k`: after all earlier
      rounds and after the earlier arguments' share of round `i`. */
  function PullIndex<T>(xs: seq<seq<T>>, k: nat, i: nat): nat
    requires k <= |xs|
  {
    RoundsSize(xs, i) + RoundSize(xs[..k], i)
  }

  /** Within round `i`, element `i` of argument `k` follows the earlier
      arguments' share of the round. */
  lemma RoundAt<T>(xs: seq<seq<T>>, k: nat, i: nat)
    requires k < |xs| && i < |xs[k]|
    ensures |Round(xs[..k], i)| < |Round(xs, i)|
    ensures Round(xs, i)[|Round(xs[..k], i)|] == xs[k][i]
  {
    var a, y, b := xs[..k], xs[k], xs[k + 1..];
    assert xs == a + ([y] + b);
    assert [y] == [] + [y];
    Snoc([], y, i);
    RoundAppend([y], b, i);
    RoundAppend(a, [y] + b, i);
  }

  /** Element `i` of argument `k` is yielded at `PullIndex(xs, k, i)`. */
  lemma PullPlaces<T>(xs: seq<seq<T>>, k: nat, i: nat)
    requires k < |xs| && i < |xs[k]|
    ensures PullIndex(xs, k, i) < |Interleave(xs)|
    ensures Interleave(xs)[PullIndex(xs, k, i)] == xs[k][i]
  {
    PullIsRounds(xs);
    assert i + 1 <= MaxLen(xs);
    RoundsPrefix(xs, i + 1, MaxLen(xs));
    RoundAt(xs, k, i);
    RoundsSizeIsLength(xs, i);
    RoundSizeIsLength(xs[..k], i);
    var p := Rounds(xs, i + 1);
    assert p == Rounds(xs, i) + Round(xs, i);
    assert p[PullIndex(xs, k, i)] == xs[k][i];
  }

  /** Element `i` of argument `k` is yielded during round `i`. */
  lemma PullIndexInRound<T>(xs: seq<seq<T>>, k: nat, i: nat)
    requires k < |xs| && i < |xs[k]|
    ensures RoundsSize(xs, i) <= PullIndex(xs, k, i) < RoundsSize(xs, i + 1)
  {
    RoundSizeBefore(xs, k, i);
  }

  /** `pull` keeps the order of each argument. */
  lemma PullKeepsOrder<T>(xs: seq<seq<T>>, k: nat, i: nat, j: nat)
    requires k < |xs| && i < j < |xs[k]|
    ensures PullIndex(xs, k, i) < PullIndex(xs, k, j)
  {
    PullIndexInRound(xs, k, i);
    PullIndexInRound(xs, k, j);
    RoundsSizeGrows(xs, i + 1, j);
  }

  // ---------------------------------------------------------------------------
  // split_filename

  predicate NoDigits(s: string)
  {
    forall i :: 0 <= i < |s| ==> !IsAsciiDigit(s[i])
  }

  predicate AllDigits(s: string)
  {
    forall i :: 0 <= i < |s| ==> IsAsciiDigit(s[i])
  }

  /** Where the run of non-digits that starts at index `i` ends. */
  function NonDigitEnd(s: string, i: nat): (j: nat)
    requires i <= |s|
    ensures i <= j <= |s| && (j < |s| ==> IsAsciiDigit(s[j]))
    decreases |s| - i
  {
    if i == |s| || IsAsciiDigit(s[i]) then i else NonDigitEnd(s, i + 1)
  }

  /** Where the run of digits that starts at index `i` ends. */
  function DigitEnd(s: string, i: nat): (j: nat)
    requires i <= |s|
    ensures i <= j <= |s| && (j < |s| ==> !IsAsciiDigit(s[j]))
    ensures i < |s| && IsAsciiDigit(s[i]) ==> i < j
    decreases |s| - i
  {
    if i == |s| || !IsAsciiDigit(s[i]) then i else DigitEnd(s, i + 1)
  }

  lemma {:induction false} NonDigitRun(s: string, i: nat)
    requires i <= |s|
    ensures forall x :: i <= x < NonDigitEnd(s, i) ==> !IsAsciiDigit(s[x])
    decreases |s| - i
  {
    if i < |s| && !IsAsciiDigit(s[i]) {
      NonDigitRun(s, i + 1);
    }
  }

  lemma {:induction false} DigitRun(s: string, i: nat)
    requires i <= |s|
    ensures forall x :: i <= x < DigitEnd(s, i) ==> IsAsciiDigit(s[x])
    decreases |s| - i
  {
    if i < |s| && IsAsciiDigit(s[i]) {
      DigitRun(s, i + 1);
    }
  }

  /** `re.split(r'\d+', s)` and `re.findall(r'\d+', s)`: the text around
      the digit runs, and the digit runs. */
  datatype Pieces = Pieces(texts: seq<string>, numbers: seq<string>)

  /** The pieces of `s[i..]`. */
  function SplitFrom(s: string, i: nat): (p: Pieces)
    requires i <= |s|
    ensures |p.texts| == |p.numbers| + 1
    decreases |s| - i
  {
    var j := NonDigitEnd(s, i);
    if j == |s| then Pieces([s[i..]], [])
    else
      var k := DigitEnd(s, j);
      var rest := SplitFrom(s, k);
      Pieces([s[i..j]] + rest.texts, [s[j..k]] + rest.numbers)
  }

  function DigitSplit(s: string): (p: Pieces)
    ensures |p.texts| == |p.numbers| + 1
  {
    SplitFrom(s, 0)
  }

  /** The pieces are what the two regular expressions promise: text pieces
      without digits, and non-empty digit runs. */
  lemma {:induction false} SplitFromPieces(s: string, i: nat)
    requires i <= |s|
    ensures forall x :: 0 <= x < |SplitFrom(s, i).texts| ==> NoDigits(SplitFrom(s, i).texts[x])
    ensures forall x :: 0 <= x < |SplitFrom(s, i).numbers| ==> SplitFrom(s, i).numbers[x] != [] && AllDigits(SplitFrom(s, i).numbers[x])
    decreases |s| - i
  {
    var j := NonDigitEnd(s, i);
    NonDigitRun(s, i);
    var first := s[i..j];
    assert NoDigits(first) by {
      forall x | 0 <= x < |first|
        ensures !IsAsciiDigit(first[x])
      {
        assert first[x] == s[i + x];
      }
    }
    if j < |s| {
      var k := DigitEnd(s, j);
      DigitRun(s, j);
      var run := s[j..k];
      assert run != [] && AllDigits(run) by {
        forall x | 0 <= x < |run|
          ensures IsAsciiDigit(run[x])
        {
          assert run[x] == s[j + x];
        }
      }
      SplitFromPieces(s, k);
    } else {
      assert s[i..] == first;
    }
  }

  lemma DigitSplitPieces(s: string)
    ensures forall x :: 0 <= x < |DigitSplit(s).texts| ==> NoDigits(DigitSplit(s).texts[x])
    ensures forall x :: 0 <= x < |DigitSplit(s).numbers| ==> DigitSplit(s).numbers[x] != [] && AllDigits(DigitSplit(s).numbers[x])
  {
    SplitFromPieces(s, 0);
  }

  function Rejoin(texts: seq<string>, numbers: seq<string>): string
    requires |texts| == |numbers| + 1
  {
    if numbers == [] then texts[0]
    else texts[0] + numbers[0] + Rejoin(texts[1..], numbers[1..])
  }

  lemma {:induction false} SplitFromRejoins(s: string, i: nat)
    requires i <= |s|
    ensures Rejoin(SplitFrom(s, i).texts, SplitFrom(s, i).numbers) == s[i..]
    decreases |s| - i
  {
    var j := NonDigitEnd(s, i);
    if j < |s| {
      var k := DigitEnd(s, j);
      var rest := SplitFrom(s, k);
      SplitFromRejoins(s, k);
      SliceThree(s, i, j, k);
      RejoinCons(s[i..j], s[j..k], rest.texts, rest.numbers, s[k..], s[i..]);
    }
  }

  /** Splitting loses nothing: the pieces rejoin to the name. */
  lemma DigitSplitRejoins(s: string)
    ensures Rejoin(DigitSplit(s).texts, DigitSplit(s).numbers) == s
  {
    SplitFromRejoins(s, 0);
    assert s[0..] == s;
  }

  lemma SliceThree<T>(s: seq<T>, i: nat, j: nat, k: nat)
    requires i <= j <= k <= |s|
    ensures s[i..] == s[i..j] + s[j..k] + s[k..]
  {
  }

  lemma RejoinCons(a: string, d: string, texts: seq<string>, numbers: seq<string>, b: string, s: string)
    requires |texts| == |numbers| + 1 && Rejoin(texts, numbers) == b && s == a + d + b
    ensures Rejoin([a] + texts, [d] + numbers) == s
  {
    assert ([a] + texts)[1..] == texts;
    assert ([d] + numbers)[1..] == numbers;
  }

  /** A file-info object (which has a `filename`) or any other value, given
      by its text form. */
  datatype FileRef = Info(filename: string) | Other(text: string)

  /** One element of the sort key. */
  datatype KeyPart = Text(text: string) | Int(value: nat)

  function NameOf(f: FileRef): string
  {
    if f.Info? then f.filename else f.text
  }

  function TextParts(texts: seq<string>): (r: seq<KeyPart>)
    ensures |r| == |texts|
  {
    seq(|texts|, i requires 0 <= i < |texts| => Text(Lower(texts[i])))
  }

  function IntParts(numbers: seq<string>): (r: seq<KeyPart>)
    ensures |r| == |numbers|
  {
    seq(|numbers|, i requires 0 <= i < |numbers| => Int(DigitsValue(numbers[i])))
  }

  /** `split_filename(fileinfo)` */
  function SplitFilename(f: FileRef): seq<KeyPart>
  {
    var p := DigitSplit(NameOf(f));
    Interleave([TextParts(p.texts), IntParts(p.numbers)])
  }

  lemma RoundOfPair<T>(a: seq<T>, b: seq<T>, r: nat)
    requires r < |b| && r < |a|
    ensures Round([a, b], r) == [a[r], b[r]]
  {
    assert [a, b] == [a] + [b];
    assert [a] == [] + [a];
    Snoc([], a, r);
    Snoc([a], b, r);
  }

  lemma {:induction false} RoundsOfPair<T>(a: seq<T>, b: seq<T>, n: nat)
    requires n <= |b| && |b| < |a|
    ensures |Rounds([a, b], n)| == 2 * n
  {
    if n > 0 {
      RoundsOfPair(a, b, n - 1);
      RoundOfPair(a, b, n - 1);
    }
  }

  /** Pulling from two iterators of which the first is one longer alternates
      them: `a[0], b[0], a[1], b[1], ..., a[|b|]`. */
  lemma Alternate<T>(a: seq<T>, b: seq<T>)
    requires |a| == |b| + 1
    ensures |Interleave([a, b])| == |a| + |b|
    ensures forall i :: 0 <= i < |a| ==> Interleave([a, b])[2 * i] == a[i]
    ensures forall i :: 0 <= i < |b| ==> Interleave([a, b])[2 * i + 1] == b[i]
  {
    PairLength(a, b);
    forall i | 0 <= i < |a|
      ensures Interleave([a, b])[2 * i] == a[i]
    {
      PairAt(a, b, 0, i);
    }
    forall i | 0 <= i < |b|
      ensures Interleave([a, b])[2 * i + 1] == b[i]
    {
      PairAt(a, b, 1, i);
    }
  }

  lemma PairLength<T>(a: seq<T>, b: seq<T>)
    ensures |Interleave([a, b])| == |a| + |b|
  {
    PullYieldsAll([a, b]);
    TotalPair(a, b);
  }

  lemma PairAt<T>(a: seq<T>, b: seq<T>, k: nat, i: nat)
    requires |a| == |b| + 1 && k < 2 && i < |[a, b][k]|
    ensures 2 * i + k < |Interleave([a, b])| && Interleave([a, b])[2 * i + k] == [a, b][k][i]
  {
    PullPlaces([a, b], k, i);
    PairIndex(a, b, k, i);
  }

  lemma TotalPair<T>(a: seq<T>, b: seq<T>)
    ensures Total([a, b]) == |a| + |b|
  {
    assert [a, b] == [a] + [b];
    assert [a] == [] + [a];
    TotalSnoc([], a);
    TotalSnoc([a], b);
  }

  /** With two arguments, element `i` of argument `k` is yielded at `2 * i + k`. */
  lemma PairIndex<T>(a: seq<T>, b: seq<T>, k: nat, i: nat)
    requires |a| == |b| + 1 && k < 2 && i < |[a, b][k]|
    ensures PullIndex([a, b], k, i) == 2 * i + k
  {
    var xs := [a, b];
    RoundsOfPair(a, b, i);
    RoundsSizeIsLength(xs, i);
    if k == 0 {
      assert xs[..0] == [];
    } else {
      assert xs[..1] == [a] && [a][..0] == [];
    }
  }

  /** The key alternates text and integers, starting and ending with text,
      so two keys always compare text with text and integer with integer. */
  lemma SplitFilenameAlternates(f: FileRef)
    ensures |SplitFilename(f)| % 2 == 1
    ensures forall i :: 0 <= i < |SplitFilename(f)| ==> (SplitFilename(f)[i].Text? <==> i % 2 == 0)
  {
    var p := DigitSplit(NameOf(f));
    KindsAlternate(TextParts(p.texts), IntParts(p.numbers));
  }

  lemma KindsAlternate(a: seq<KeyPart>, b: seq<KeyPart>)
    requires |a| == |b| + 1
    requires forall i :: 0 <= i < |a| ==> a[i].Text?
    requires forall i :: 0 <= i < |b| ==> b[i].Int?
    ensures |Interleave([a, b])| % 2 == 1
    ensures forall i :: 0 <= i < |Interleave([a, b])| ==> (Interleave([a, b])[i].Text? <==> i % 2 == 0)
  {
    Alternate(a, b);
    AlternatingKinds(Interleave([a, b]), a, b);
  }

  lemma AlternatingKinds(key: seq<KeyPart>, a: seq<KeyPart>, b: seq<KeyPart>)
    requires |a| == |b| + 1 && |key| == |a| + |b|
    requires forall i :: 0 <= i < |a| ==> a[i].Text? && key[2 * i] == a[i]
    requires forall i :: 0 <= i < |b| ==> b[i].Int? && key[2 * i + 1] == b[i]
    ensures |key| % 2 == 1
    ensures forall i :: 0 <= i < |key| ==> (key[i].Text? <==> i % 2 == 0)
  {
    forall i | 0 <= i < |key|
      ensures key[i].Text? <==> i % 2 == 0
    {
      var h := i / 2;
      if i % 2 == 0 {
        assert i == 2 * h && h < |a|;
        assert key[2 * h] == a[h];
      } else {
        assert i == 2 * h + 1 && h < |b|;
        assert key[2 * h + 1] == b[h];
      }
    }
  }

  lemma LowerCharDigit(c: char)
    ensures IsAsciiDigit(LowerChar(c)) <==> IsAsciiDigit(c)
    ensures IsAsciiDigit(c) ==> LowerChar(c) == c
    ensures LowerChar(LowerChar(c)) == LowerChar(c)
  {
  }

  lemma LowerSlice(s: string, i: nat, j: nat)
    requires i <= j <= |s|
    ensures Lower(s)[i..j] == Lower(s[i..j])
  {
    var l, r := Lower(s)[i..j], Lower(s[i..j]);
    assert |l| == |r|;
    forall k | 0 <= k < |l|
      ensures l[k] == r[k]
    {
      assert l[k] == Lower(s)[i + k] == LowerChar(s[i + k]);
      assert r[k] == LowerChar(s[i..j][k]);
    }
  }

  lemma LowerTwice(s: string)
    ensures Lower(Lower(s)) == Lower(s)
  {
    forall i | 0 <= i < |s|
      ensures Lower(Lower(s))[i] == Lower(s)[i]
    {
      LowerCharDigit(s[i]);
    }
  }

  lemma LowerDigits(s: string)
    requires AllDigits(s)
    ensures Lower(s) == s
  {
    forall i | 0 <= i < |s|
      ensures Lower(s)[i] == s[i]
    {
      LowerCharDigit(s[i]);
    }
  }

  lemma {:induction false} NonDigitEndLower(s: string, i: nat)
    requires i <= |s|
    ensures NonDigitEnd(Lower(s), i) == NonDigitEnd(s, i)
    decreases |s| - i
  {
    if i < |s| {
      LowerCharDigit(s[i]);
      NonDigitEndLower(s, i + 1);
    }
  }

  lemma {:induction false} DigitEndLower(s: string, i: nat)
    requires i <= |s|
    ensures DigitEnd(Lower(s), i) == DigitEnd(s, i)
    decreases |s| - i
  {
    if i < |s| {
      LowerCharDigit(s[i]);
      DigitEndLower(s, i + 1);
    }
  }

  /** Lower-casing leaves a digit run as it is. */
  lemma DigitRunLower(s: string, j: nat)
    requires j <= |s|
    ensures Lower(s)[j..DigitEnd(s, j)] == s[j..DigitEnd(s, j)]
  {
    var k := DigitEnd(s, j);
    DigitRun(s, j);
    var run := s[j..k];
    forall x | 0 <= x < |run|
      ensures IsAsciiDigit(run[x])
    {
      assert run[x] == s[j + x];
    }
    LowerSlice(s, j, k);
    LowerDigits(run);
  }

  predicate LoweredPieces(p: Pieces, q: Pieces)
  {
    q.numbers == p.numbers && |q.texts| == |p.texts| &&
    forall i :: 0 <= i < |p.texts| ==> q.texts[i] == Lower(p.texts[i])
  }

  lemma LoweredCons(x: string, d: string, p: Pieces, q: Pieces)
    requires LoweredPieces(p, q)
    ensures LoweredPieces(Pieces([x] + p.texts, [d] + p.numbers), Pieces([Lower(x)] + q.texts, [d] + q.numbers))
  {
    var p', q' := Pieces([x] + p.texts, [d] + p.numbers), Pieces([Lower(x)] + q.texts, [d] + q.numbers);
    forall i | 0 <= i < |p'.texts|
      ensures q'.texts[i] == Lower(p'.texts[i])
    {
      if i > 0 {
        assert p'.texts[i] == p.texts[i - 1];
        assert q'.texts[i] == q.texts[i - 1];
      }
    }
  }

  lemma {:induction false} SplitFromLower(s: string, i: nat)
    requires i <= |s|
    ensures LoweredPieces(SplitFrom(s, i), SplitFrom(Lower(s), i))
    decreases |s| - i
  {
    var t := Lower(s);
    var j := NonDigitEnd(s, i);
    NonDigitEndLower(s, i);
    if j == |s| {
      LowerSlice(s, i, |s|);
      assert t[i..] == t[i..|s|] && s[i..] == s[i..|s|];
    } else {
      var k := DigitEnd(s, j);
      DigitEndLower(s, j);
      SplitFromLower(s, k);
      LowerSlice(s, i, j);
      DigitRunLower(s, j);
      LoweredCons(s[i..j], s[j..k], SplitFrom(s, k), SplitFrom(t, k));
    }
  }

  /** Lower-casing a name lower-cases its text pieces and keeps its digit runs. */
  lemma DigitSplitLower(s: string)
    ensures LoweredPieces(DigitSplit(s), DigitSplit(Lower(s)))
  {
    SplitFromLower(s, 0);
  }

  lemma SplitFilenameIgnoresCase(f: FileRef, g: FileRef)
    requires Lower(NameOf(f)) == Lower(NameOf(g))
    ensures SplitFilename(f) == SplitFilename(g)
  {
    var p, q := DigitSplit(NameOf(f)), DigitSplit(NameOf(g));
    DigitSplitLower(NameOf(f));
    DigitSplitLower(NameOf(g));
    assert |p.texts| == |q.texts| && p.numbers == q.numbers;
    forall i | 0 <= i < |p.texts|
      ensures Lower(p.texts[i]) == Lower(q.texts[i])
    {
      LowerTwice(p.texts[i]);
      LowerTwice(q.texts[i]);
    }
    assert TextParts(p.texts) == TextParts(q.texts);
  }

  lemma {:induction false} NonDigitEndAt(s: string, i: nat, j: nat)
    requires i <= j < |s| && IsAsciiDigit(s[j])
    requires forall x :: i <= x < j ==> !IsAsciiDigit(s[x])
    ensures NonDigitEnd(s, i) == j
    decreases j - i
  {
    if i < j {
      NonDigitEndAt(s, i + 1, j);
    }
  }

  lemma {:induction false} DigitEndAt(s: string, i: nat, j: nat)
    requires i <= j <= |s| && (j == |s| || !IsAsciiDigit(s[j]))
    requires forall x :: i <= x < j ==> IsAsciiDigit(s[x])
    ensures DigitEnd(s, i) == j
    decreases j - i
  {
    if i < j {
      DigitEndAt(s, i + 1, j);
    }
  }

  lemma {:induction false} NonDigitEndShift(p: string, y: string, i: nat)
    requires i <= |y|
    ensures NonDigitEnd(p + y, |p| + i) == |p| + NonDigitEnd(y, i)
    decreases |y| - i
  {
    if i < |y| {
      assert (p + y)[|p| + i] == y[i];
      NonDigitEndShift(p, y, i + 1);
    }
  }

  lemma {:induction false} DigitEndShift(p: string, y: string, i: nat)
    requires i <= |y|
    ensures DigitEnd(p + y, |p| + i) == |p| + DigitEnd(y, i)
    decreases |y| - i
  {
    if i < |y| {
      assert (p + y)[|p| + i] == y[i];
      DigitEndShift(p, y, i + 1);
    }
  }

  /** What follows a prefix splits as it would on its own. */
  lemma {:induction false} SplitFromShift(p: string, y: string, i: nat)
    requires i <= |y|
    ensures SplitFrom(p + y, |p| + i) == SplitFrom(y, i)
    decreases |y| - i
  {
    var s := p + y;
    var j := NonDigitEnd(y, i);
    NonDigitEndShift(p, y, i);
    if j == |y| {
      assert s[|p| + i..] == y[i..];
      SplitFromLast(s, |p| + i);
      SplitFromLast(y, i);
    } else {
      var k := DigitEnd(y, j);
      DigitEndShift(p, y, j);
      SplitFromShift(p, y, k);
      SliceShift(p, y, i, j);
      SliceShift(p, y, j, k);
      SplitFromUnfold(s, |p| + i, |p| + j, |p| + k);
      SplitFromUnfold(y, i, j, k);
      PiecesCons(SplitFrom(s, |p| + i), SplitFrom(y, i), s[|p| + i..|p| + j], s[|p| + j..|p| + k],
                 SplitFrom(s, |p| + k), SplitFrom(y, k));
    }
  }

  /** The last text piece of a split: no digit follows it. */
  lemma SplitFromLast(s: string, i: nat)
    requires i <= |s| && NonDigitEnd(s, i) == |s|
    ensures SplitFrom(s, i) == Pieces([s[i..]], [])
  {
  }

  /** Splits that start with the same text piece and digit run and go on alike are equal. */
  lemma PiecesCons(a: Pieces, b: Pieces, text: string, number: string, r: Pieces, q: Pieces)
    requires a == Pieces([text] + r.texts, [number] + r.numbers)
    requires r == q && b == Pieces([text] + q.texts, [number] + q.numbers)
    ensures a == b
  {
  }

  lemma SliceShift(p: string, y: string, i: nat, j: nat)
    requires i <= j <= |y|
    ensures (p + y)[|p| + i..|p| + j] == y[i..j]
  {
  }

  /** One text piece and one digit run taken off the front of a split. */
  lemma SplitFromUnfold(s: string, i: nat, j: nat, k: nat)
    requires i <= |s| && j < |s| && NonDigitEnd(s, i) == j && DigitEnd(s, j) == k
    ensures k <= |s|
    ensures SplitFrom(s, i) == Pieces([s[i..j]] + SplitFrom(s, k).texts, [s[j..k]] + SplitFrom(s, k).numbers)
  {
  }

  /** A name made of a text piece, a digit run and a rest that starts with
      a non-digit splits there. */
  lemma DigitSplitRun(a: string, d: string, b: string)
    requires NoDigits(a) && d != [] && AllDigits(d) && (b == [] || !IsAsciiDigit(b[0]))
    ensures DigitSplit(a + d + b) == Pieces([a] + DigitSplit(b).texts, [d] + DigitSplit(b).numbers)
  {
    var s := a + d + b;
    var n, m := |a|, |a| + |d|;
    assert NonDigitEnd(s, 0) == n by {
      assert s[n] == d[0];
      assert forall x :: 0 <= x < n ==> s[x] == a[x];
      NonDigitEndAt(s, 0, n);
    }
    assert DigitEnd(s, n) == m by {
      assert forall x :: n <= x < m ==> s[x] == d[x - n];
      assert m == |s| || s[m] == b[0];
      DigitEndAt(s, n, m);
    }
    assert SplitFrom(s, m) == SplitFrom(b, 0) by {
      assert s == (a + d) + b;
      SplitFromShift(a + d, b, 0);
    }
    assert s[0..n] == a && s[n..m] == d;
    SplitFromAt(s, 0, n, m);
  }

  /** One step of `SplitFrom` on a text that still holds a digit. */
  lemma SplitFromAt(s: string, i: nat, j: nat, k: nat)
    requires i <= |s| && j == NonDigitEnd(s, i) < |s| && k == DigitEnd(s, j)
    ensures SplitFrom(s, i) == Pieces([s[i..j]] + SplitFrom(s, k).texts, [s[j..k]] + SplitFrom(s, k).numbers)
  {
  }

  lemma IntPartsCons(x: string, y: string, rest: seq<string>)
    requires DigitsValue(x) == DigitsValue(y)
    ensures IntParts([x] + rest) == IntParts([y] + rest)
  {
    var l, r := IntParts([x] + rest), IntParts([y] + rest);
    forall i | 0 <= i < |l|
      ensures l[i] == r[i]
    {
      if i > 0 {
        assert ([x] + rest)[i] == ([y] + rest)[i];
      }
    }
  }

  /** Digit runs compare as numbers: zero padding does not change the key,
      so `p02` and `p2` get equal keys. */
  lemma ZeroPaddingIgnored(a: string, d: string, b: string)
    requires NoDigits(a) && d != [] && AllDigits(d) && (b == [] || !IsAsciiDigit(b[0]))
    ensures SplitFilename(Info(a + ['0'] + d + b)) == SplitFilename(Info(a + d + b))
  {
    var z := ['0'] + d;
    assert AllDigits(z);
    assert a + ['0'] + d + b == a + z + b;
    DigitSplitRun(a, z, b);
    DigitSplitRun(a, d, b);
    var r := DigitSplit(b);
    LeadingZeroValue(d);
    IntPartsCons(z, d, r.numbers);
  }

  /** The integer in a key is the value of the digit run, so `p2` sorts
      before `p10`: the keys are `'p', 2, ''` and `'p', 10, ''`. */
  lemma NumberInKey(a: string, n: nat, b: string)
    requires NoDigits(a) && (b == [] || !IsAsciiDigit(b[0]))
    ensures |SplitFilename(Info(a + NatToString(n) + b))| >= 3
    ensures SplitFilename(Info(a + NatToString(n) + b))[0] == Text(Lower(a))
    ensures SplitFilename(Info(a + NatToString(n) + b))[1] == Int(n)
  {
    var d := NatToString(n);
    DigitSplitRun(a, d, b);
    NatToStringValue(n);
    var p := DigitSplit(a + d + b);
    Alternate(TextParts(p.texts), IntParts(p.numbers));
    assert SplitFilename(Info(a + d + b))[2 * 0 + 1] == IntParts(p.numbers)[0];
  }

  // ---------------------------------------------------------------------------
  // filter_file_extension

  /** An entry of a wrapper's `filelist`. */
  datatype FileInfo = FileInfo(filename: string)

  /** `s.rfind(c)`: the last index of `c` in `s`, or -1. */
  function RFind(s: string, c: char): (r: int)
    ensures -1 <= r < |s|
    ensures r >= 0 ==> s[r] == c
    ensures forall i :: r < i < |s| ==> s[i] != c
  {
    if s == [] then -1
    else if s[|s| - 1] == c then |s| - 1
    else RFind(s[..|s| - 1], c)
  }

  predicate AllDots(s: string)
  {
    forall i :: 0 <= i < |s| ==> s[i] == '.'
  }

  /** `os.path.splitext(p)` with POSIX separators: the extension runs from
      the last `.` of the last path component, unless only dots precede it
      there (`.bashrc` has none). */
  function SplitExt(p: string): (r: (string, string))
  {
    var sep, dot := RFind(p, '/'), RFind(p, '.');
    if dot > sep && !AllDots(p[sep + 1..dot]) then (p[..dot], p[dot..]) else (p, [])
  }

  /** The two parts make up the path, and an extension is a `.` followed
      by neither a separator nor another `.`. */
  lemma SplitExtParts(p: string)
    ensures SplitExt(p).0 + SplitExt(p).1 == p
    ensures var ext := SplitExt(p).1;
      ext == [] || (ext[0] == '.' && '/' !in ext && '.' !in ext[1..])
  {
    var sep, dot := RFind(p, '/'), RFind(p, '.');
    if dot > sep && !AllDots(p[sep + 1..dot]) {
      assert SplitExt(p) == (p[..dot], p[dot..]);
      SplitAt(p, dot);
      DotTail(p, sep, dot);
    } else {
      assert SplitExt(p) == (p, []);
      assert p + [] == p;
    }
  }

  lemma SplitAt<T>(s: seq<T>, i: nat)
    requires i <= |s|
    ensures s[..i] + s[i..] == s
  {
  }

  lemma DotTail(p: string, sep: int, dot: int)
    requires sep == RFind(p, '/') && dot == RFind(p, '.') && dot > sep
    ensures p[dot] == '.' && '/' !in p[dot..] && '.' !in p[dot + 1..]
  {
    var ext := p[dot..];
    forall i | 0 <= i < |ext|
      ensures ext[i] == p[dot + i]
    {
    }
  }

  /** A name without a `.` has no extension. */
  lemma NoDotNoExt(p: string)
    requires '.' !in p
    ensures SplitExt(p) == (p, [])
  {
  }

  /** The file's extension, lower-cased, is one of `exts`. */
  predicate HasExt(f: FileInfo, exts: seq<string>)
  {
    Lower(SplitExt(f.filename).1) in exts
  }

  /** The entries of `files` whose extension is wanted, in order. */
  function Wanted(files: seq<FileInfo>, exts: seq<string>): seq<FileInfo>
  {
    if files == [] then []
    else
      var last := files[|files| - 1];
      Wanted(files[..|files| - 1], exts) + (if HasExt(last, exts) then [last] else [])
  }

  /** `filter_file_extension(exts)` over the wrapper's `filelist`. */
  method FilterFileExtension(filelist: seq<FileInfo>, exts: seq<string>) returns (filtered: seq<FileInfo>)
    ensures filtered == Wanted(filelist, exts)
  {
    filtered := [];
    for i := 0 to |filelist|
      invariant filtered == Wanted(filelist[..i], exts)
    {
      var zi := filelist[i];
      assert filelist[..i + 1][..i] == filelist[..i];
      if Lower(SplitExt(zi.filename).1) in exts {
        filtered := filtered + [zi];
      }
    }
    assert filelist[..|filelist|] == filelist;
  }

  /** Filtering a concatenation filters each part: the kept entries stay in
      their order. */
  lemma {:induction false} WantedAppend(a: seq<FileInfo>, b: seq<FileInfo>, exts: seq<string>)
    ensures Wanted(a + b, exts) == Wanted(a, exts) + Wanted(b, exts)
    decreases |b|
  {
    if b == [] {
      assert a + b == a;
    } else {
      var init, last := b[..|b| - 1], b[|b| - 1];
      assert (a + b)[..|a + b| - 1] == a + init;
      WantedAppend(a, init, exts);
      var tail := if HasExt(last, exts) then [last] else [];
      Assoc(Wanted(a, exts), Wanted(init, exts), tail);
    }
  }

  /** Each entry is kept as often as it occurs when its extension is wanted,
      and dropped otherwise. */
  lemma {:induction false} WantedCounts(files: seq<FileInfo>, exts: seq<string>, f: FileInfo)
    ensures multiset(Wanted(files, exts))[f] == if HasExt(f, exts) then multiset(files)[f] else 0
  {
    if files != [] {
      var init, last := files[..|files| - 1], files[|files| - 1];
      assert files == init + [last];
      WantedCounts(init, exts, f);
    }
  }

  /** An entry is in the result iff it is in the list with a wanted extension. */
  lemma WantedMembers(files: seq<FileInfo>, exts: seq<string>, f: FileInfo)
    ensures f in Wanted(files, exts) <==> f in files && HasExt(f, exts)
  {
    WantedCounts(files, exts, f);
  }

  /** Filtering twice changes nothing. */
  lemma {:induction false} WantedTwice(files: seq<FileInfo>, exts: seq<string>)
    ensures Wanted(Wanted(files, exts), exts) == Wanted(files, exts)
  {
    if files != [] {
      var init, last := files[..|files| - 1], files[|files| - 1];
      WantedTwice(init, exts);
      if HasExt(last, exts) {
        assert Wanted(files, exts) == Wanted(init, exts) + [last];
        WantedAppend(Wanted(init, exts), [last], exts);
        assert [last][..0] == [];
        assert Wanted([last], exts) == [last];
      } else {
        assert Wanted(files, exts) == Wanted(init, exts);
      }
    }
  }

  // ---------------------------------------------------------------------------
  // __contains__

  /** `filename in wrapper`: some entry of `filelist` has exactly that name. */
  function HasFile(filelist: seq<FileInfo>, filename: string): (b: bool)
    ensures b <==> exists i :: 0 <= i < |filelist| && filelist[i].filename == filename
  {
    if filelist == [] then false
    else if filelist[0].filename == filename then true
    else
      var b := HasFile(filelist[1..], filename);
      assert forall i :: 1 <= i < |filelist| ==> filelist[i] == filelist[1..][i - 1];
      b
  }
}
