/** `movers.py`: how a mover snaps a scroll step to the segment borders found
    in the current image. The borders are row numbers: `tops`, where a
    segment starts, and `bottoms`, where one ends. A step of `dy` rows from
    the view `[viewTop, viewBottom]` is shortened to land on a border when
    one is in reach. */
module Movers {
  import opened Wrappers

  /** `BaseMover.FilterLen` */
  const FilterLen := 5

  predicate Ascending(s: seq<int>)
  {
    forall i, j :: 0 <= i < j < |s| ==> s[i] <= s[j]
  }

  predicate Descending(s: seq<int>)
  {
    forall i, j :: 0 <= i < j < |s| ==> s[i] >= s[j]
  }

  /** `s[::-1]` */
  function Reversed(s: seq<int>): (r: seq<int>)
    ensures |r| == |s|
    ensures forall i :: 0 <= i < |s| ==> r[i] == s[|s| - 1 - i]
  {
    seq(|s|, i requires 0 <= i < |s| => s[|s| - 1 - i])
  }

  /** Reversing turns ascending borders into descending ones, and keeps
      the same borders. */
  lemma ReversedDescending(s: seq<int>)
    requires Ascending(s)
    ensures Descending(Reversed(s))
    ensures forall x :: x in Reversed(s) <==> x in s
  {
    var r := Reversed(s);
    forall x | x in s
      ensures x in r
    {
      var i :| 0 <= i < |s| && s[i] == x;
      assert r[|s| - 1 - i] == x;
    }
  }

  // ---------------------------------------------------------------------------
  // _next_segment

  /** What the first loop of `_next_segment` keeps: the bottom to land on,
      and the lowest bottom passed that is not below the view. */
  datatype NextScan = NextScan(targetBottom: Option<int>, minTop: int)

  /** The first loop of `_next_segment`: the bottoms are read until one
      lies past `nextBottom`. */
  function NextBottoms(bs: seq<int>, viewBottom: int, nextBottom: int, st: NextScan): NextScan
  {
    if bs == [] || nextBottom < bs[0] then st
    else
      var cb := bs[0];
      NextBottoms(bs[1..], viewBottom, nextBottom,
        if viewBottom < cb then st.(targetBottom := Some(cb))
        else if st.minTop < cb then st.(minTop := cb)
        else st)
  }

  /** The second loop of `_next_segment`: the tops are read until one lies
      above `viewBottom`. */
  function NextTops(ts: seq<int>, viewTop: int, viewBottom: int, minTop: int, target: Option<int>): Option<int>
  {
    if ts == [] then target
    else
      var ct := ts[0];
      var t := if viewTop < minTop && minTop < ct then Some(ct) else target;
      if ct < viewBottom then t else NextTops(ts[1..], viewTop, viewBottom, minTop, t)
  }

  /** What `_next_segment` returns: the step to the top it found, else to
      the bottom it found, else `dy`. */
  function NextStep(tops: seq<int>, bottoms: seq<int>, viewTop: int, viewBottom: int, dy: int): int
  {
    var b := NextBottoms(bottoms, viewBottom, viewBottom + dy, NextScan(None, viewTop));
    var t := NextTops(tops, viewTop, viewBottom, b.minTop - 2 * FilterLen, None);
    if t.Some? then t.value - viewTop
    else if b.targetBottom.Some? then b.targetBottom.value - viewBottom
    else dy
  }

  /** Over ascending bottoms, the bottom found is the largest one in
      `(viewBottom, nextBottom]`, and there is none when that range holds
      no bottom. */
  lemma {:induction false} NextBottomsLargest(bs: seq<int>, viewBottom: int, nextBottom: int, st: NextScan)
    requires Ascending(bs)
    ensures var r := NextBottoms(bs, viewBottom, nextBottom, st).targetBottom;
      if exists i :: 0 <= i < |bs| && viewBottom < bs[i] <= nextBottom then
        r.Some? && r.value in bs && viewBottom < r.value <= nextBottom
        && forall i :: 0 <= i < |bs| && bs[i] <= nextBottom ==> bs[i] <= r.value
      else r == st.targetBottom
  {
    if bs != [] && bs[0] <= nextBottom {
      var cb := bs[0];
      var st1 := if viewBottom < cb then st.(targetBottom := Some(cb))
        else if st.minTop < cb then st.(minTop := cb)
        else st;
      assert forall i :: 1 <= i < |bs| ==> bs[i] == bs[1..][i - 1];
      NextBottomsLargest(bs[1..], viewBottom, nextBottom, st1);
    }
  }

  /** A top found by the second loop is one of the tops, above `minTop`,
      and `minTop` is below the view's top. */
  lemma {:induction false} NextTopsFound(ts: seq<int>, viewTop: int, viewBottom: int, minTop: int, target: Option<int>)
    ensures var r := NextTops(ts, viewTop, viewBottom, minTop, target);
      r == target || (r.Some? && r.value in ts && viewTop < minTop < r.value)
  {
    if ts != [] {
      var ct := ts[0];
      var t := if viewTop < minTop && minTop < ct then Some(ct) else target;
      if viewBottom <= ct {
        NextTopsFound(ts[1..], viewTop, viewBottom, minTop, t);
      }
    }
  }

  /** `_next_segment` on ascending bottoms: a top it lands on is strictly
      below the view's top; failing that it lands on the largest bottom in
      `(viewBottom, viewBottom + dy]`, a step in `(0, dy]`; and failing both
      it returns `dy`. */
  lemma NextStepCases(tops: seq<int>, bottoms: seq<int>, viewTop: int, viewBottom: int, dy: int)
    requires Ascending(bottoms)
    ensures var b := NextBottoms(bottoms, viewBottom, viewBottom + dy, NextScan(None, viewTop));
      var t := NextTops(tops, viewTop, viewBottom, b.minTop - 2 * FilterLen, None);
      var step := NextStep(tops, bottoms, viewTop, viewBottom, dy);
      && (t.Some? ==> t.value in tops && step == t.value - viewTop && step > 0)
      && (t.None? && (exists i :: 0 <= i < |bottoms| && viewBottom < bottoms[i] <= viewBottom + dy) ==>
            0 < step <= dy && viewBottom + step in bottoms
            && forall i :: 0 <= i < |bottoms| && bottoms[i] <= viewBottom + dy ==> bottoms[i] <= viewBottom + step)
      && (t.None? && (forall i :: 0 <= i < |bottoms| ==> !(viewBottom < bottoms[i] <= viewBottom + dy)) ==> step == dy)
  {
    var b := NextBottoms(bottoms, viewBottom, viewBottom + dy, NextScan(None, viewTop));
    NextBottomsLargest(bottoms, viewBottom, viewBottom + dy, NextScan(None, viewTop));
    NextTopsFound(tops, viewTop, viewBottom, b.minTop - 2 * FilterLen, None);
  }

  // ---------------------------------------------------------------------------
  // _prev_segment

  /** What the first loop of `_prev_segment` keeps: the top to land on, and
      the highest top passed that is not above the view. */
  datatype PrevScan = PrevScan(targetTop: Option<int>, maxBottom: int)

  /** The first loop of `_prev_segment`: the tops are read until one lies
      above `nextTop`. */
  function PrevTops(ts: seq<int>, viewTop: int, nextTop: int, st: PrevScan): PrevScan
  {
    if ts == [] || ts[0] < nextTop then st
    else
      var ct := ts[0];
      PrevTops(ts[1..], viewTop, nextTop,
        if ct < viewTop then st.(targetTop := Some(ct))
        else if ct < st.maxBottom then st.(maxBottom := ct)
        else st)
  }

  /** The second loop of `_prev_segment`: the bottoms are read until one
      lies below `viewTop`. */
  function PrevBottoms(bs: seq<int>, viewTop: int, viewBottom: int, maxBottom: int, target: Option<int>): Option<int>
  {
    if bs == [] then target
    else
      var cb := bs[0];
      var t := if maxBottom < viewBottom && cb < maxBottom then Some(cb) else target;
      if viewTop < cb then t else PrevBottoms(bs[1..], viewTop, viewBottom, maxBottom, t)
  }

  /** What `_prev_segment` returns: the step back to the bottom it found,
      else to the top it found, else `dy`. */
  function PrevStep(tops: seq<int>, bottoms: seq<int>, viewTop: int, viewBottom: int, dy: int): int
  {
    var t := PrevTops(tops, viewTop, viewTop - dy, PrevScan(None, viewBottom));
    var b := PrevBottoms(bottoms, viewTop, viewBottom, t.maxBottom + 2 * FilterLen, None);
    if b.Some? then viewBottom - b.value
    else if t.targetTop.Some? then viewTop - t.targetTop.value
    else dy
  }

  /** Over descending tops, the top found is the smallest one in
      `[nextTop, viewTop)`, and there is none when that range holds no top. */
  lemma {:induction false} PrevTopsSmallest(ts: seq<int>, viewTop: int, nextTop: int, st: PrevScan)
    requires Descending(ts)
    ensures var r := PrevTops(ts, viewTop, nextTop, st).targetTop;
      if exists i :: 0 <= i < |ts| && nextTop <= ts[i] < viewTop then
        r.Some? && r.value in ts && nextTop <= r.value < viewTop
        && forall i :: 0 <= i < |ts| && nextTop <= ts[i] ==> r.value <= ts[i]
      else r == st.targetTop
  {
    if ts != [] && nextTop <= ts[0] {
      var ct := ts[0];
      var st1 := if ct < viewTop then st.(targetTop := Some(ct))
        else if ct < st.maxBottom then st.(maxBottom := ct)
        else st;
      assert forall i :: 1 <= i < |ts| ==> ts[i] == ts[1..][i - 1];
      PrevTopsSmallest(ts[1..], viewTop, nextTop, st1);
    }
  }

  /** A bottom found by the second loop is one of the bottoms, below
      `maxBottom`, and `maxBottom` is above the view's bottom. */
  lemma {:induction false} PrevBottomsFound(bs: seq<int>, viewTop: int, viewBottom: int, maxBottom: int, target: Option<int>)
    ensures var r := PrevBottoms(bs, viewTop, viewBottom, maxBottom, target);
      r == target || (r.Some? && r.value in bs && r.value < maxBottom < viewBottom)
  {
    if bs != [] {
      var cb := bs[0];
      var t := if maxBottom < viewBottom && cb < maxBottom then Some(cb) else target;
      if cb <= viewTop {
        PrevBottomsFound(bs[1..], viewTop, viewBottom, maxBottom, t);
      }
    }
  }

  /** `_prev_segment` on descending tops: a bottom it lands on is strictly
      above the view's bottom; failing that it lands on the smallest top in
      `[viewTop - dy, viewTop)`, a step in `(0, dy]`; and failing both it
      returns `dy`. */
  lemma PrevStepCases(tops: seq<int>, bottoms: seq<int>, viewTop: int, viewBottom: int, dy: int)
    requires Descending(tops)
    ensures var t := PrevTops(tops, viewTop, viewTop - dy, PrevScan(None, viewBottom));
      var b := PrevBottoms(bottoms, viewTop, viewBottom, t.maxBottom + 2 * FilterLen, None);
      var step := PrevStep(tops, bottoms, viewTop, viewBottom, dy);
      && (b.Some? ==> b.value in bottoms && step == viewBottom - b.value && step > 0)
      && (b.None? && (exists i :: 0 <= i < |tops| && viewTop - dy <= tops[i] < viewTop) ==>
            0 < step <= dy && viewTop - step in tops
            && forall i :: 0 <= i < |tops| && viewTop - dy <= tops[i] ==> viewTop - step <= tops[i])
      && (b.None? && (forall i :: 0 <= i < |tops| ==> !(viewTop - dy <= tops[i] < viewTop)) ==> step == dy)
  {
    var t := PrevTops(tops, viewTop, viewTop - dy, PrevScan(None, viewBottom));
    PrevTopsSmallest(tops, viewTop, viewTop - dy, PrevScan(None, viewBottom));
    PrevBottomsFound(bottoms, viewTop, viewBottom, t.maxBottom + 2 * FilterLen, None);
  }

  // ---------------------------------------------------------------------------
  // BaseMover

  class Mover {
    const name: string
    var tops: seq<int>
    var bottoms: seq<int>

    constructor (name: string)
      ensures this.name == name && tops == [] && bottoms == []
    {
      this.name := name;
      tops := [];
      bottoms := [];
    }

    /** `set_segments`: the tops are kept last first. */
    method SetSegments(tops: seq<int>, bottoms: seq<int>)
      modifies this
      ensures this.tops == Reversed(tops) && this.bottoms == bottoms
    {
      this.tops := Reversed(tops);
      this.bottoms := bottoms;
    }

    /** `_next_segment(view, dy)`, the view given by its integer top and
        bottom rows. */
    method NextSegment(viewTop: int, viewBottom: int, dy: int) returns (step: int)
      ensures step == NextStep(tops, bottoms, viewTop, viewBottom, dy)
    {
      var nextBottom := viewBottom + dy;
      var minTop := viewTop;
      var targetBottom: Option<int> := None;
      var targetTop: Option<int> := None;
      var i := 0;
      while i < |bottoms|
        invariant 0 <= i <= |bottoms|
        invariant NextBottoms(bottoms, viewBottom, nextBottom, NextScan(None, viewTop))
          == NextBottoms(bottoms[i..], viewBottom, nextBottom, NextScan(targetBottom, minTop))
      {
        var cb := bottoms[i];
        assert bottoms[i..][0] == cb && bottoms[i..][1..] == bottoms[i + 1..];
        if nextBottom < cb {
          break;
        }
        if viewBottom < cb {
          targetBottom := Some(cb);
        } else if minTop < cb {
          minTop := cb;
        }
        i := i + 1;
      }
      assert NextBottoms(bottoms, viewBottom, nextBottom, NextScan(None, viewTop)) == NextScan(targetBottom, minTop);
      minTop := minTop - 2 * FilterLen;
      var j := 0;
      while j < |tops|
        invariant 0 <= j <= |tops|
        invariant NextTops(tops, viewTop, viewBottom, minTop, None) == NextTops(tops[j..], viewTop, viewBottom, minTop, targetTop)
      {
        var ct := tops[j];
        assert tops[j..][0] == ct && tops[j..][1..] == tops[j + 1..];
        if viewTop < minTop && minTop < ct {
          targetTop := Some(ct);
        }
        if ct < viewBottom {
          break;
        }
        j := j + 1;
      }
      assert NextTops(tops, viewTop, viewBottom, minTop, None) == targetTop;
      if targetTop.Some? {
        step := targetTop.value - viewTop;
      } else if targetBottom.Some? {
        step := targetBottom.value - viewBottom;
      } else {
        step := dy;
      }
    }

    /** `_prev_segment(view, dy)` */
    method PrevSegment(viewTop: int, viewBottom: int, dy: int) returns (step: int)
      ensures step == PrevStep(tops, bottoms, viewTop, viewBottom, dy)
    {
      var nextTop := viewTop - dy;
      var maxBottom := viewBottom;
      var targetTop: Option<int> := None;
      var targetBottom: Option<int> := None;
      var i := 0;
      while i < |tops|
        invariant 0 <= i <= |tops|
        invariant PrevTops(tops, viewTop, nextTop, PrevScan(None, viewBottom))
          == PrevTops(tops[i..], viewTop, nextTop, PrevScan(targetTop, maxBottom))
      {
        var ct := tops[i];
        assert tops[i..][0] == ct && tops[i..][1..] == tops[i + 1..];
        if ct < nextTop {
          break;
        }
        if ct < viewTop {
          targetTop := Some(ct);
        } else if ct < maxBottom {
          maxBottom := ct;
        }
        i := i + 1;
      }
      assert PrevTops(tops, viewTop, nextTop, PrevScan(None, viewBottom)) == PrevScan(targetTop, maxBottom);
      maxBottom := maxBottom + 2 * FilterLen;
      var j := 0;
      while j < |bottoms|
        invariant 0 <= j <= |bottoms|
        invariant PrevBottoms(bottoms, viewTop, viewBottom, maxBottom, None) == PrevBottoms(bottoms[j..], viewTop, viewBottom, maxBottom, targetBottom)
      {
        var cb := bottoms[j];
        assert bottoms[j..][0] == cb && bottoms[j..][1..] == bottoms[j + 1..];
        if maxBottom < viewBottom && cb < maxBottom {
          targetBottom := Some(cb);
        }
        if viewTop < cb {
          break;
        }
        j := j + 1;
      }
      assert PrevBottoms(bottoms, viewTop, viewBottom, maxBottom, None) == targetBottom;
      if targetBottom.Some? {
        step := viewBottom - targetBottom.value;
      } else if targetTop.Some? {
        step := viewTop - targetTop.value;
      } else {
        step := dy;
      }
    }

    /** `__eq__`: movers are the same when their names are. */
    predicate Equals(other: Mover)
    {
      other.name == name
    }

    /** `__hash__`, for a string hash `hash`. */
    function Hash(hash: string -> int): int
    {
      hash(name)
    }
  }

  /** Equality of movers is an equivalence, and equal movers hash alike. */
  lemma MoverEquality(a: Mover, b: Mover, c: Mover, hash: string -> int)
    ensures a.Equals(a)
    ensures a.Equals(b) <==> b.Equals(a)
    ensures a.Equals(b) && b.Equals(c) ==> a.Equals(c)
    ensures a.Equals(b) ==> a.Hash(hash) == b.Hash(hash)
  {
  }
}
