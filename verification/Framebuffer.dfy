/** The framebuffer, whose size is the sum of all group lengths. */
module Framebuffer {
  import opened OutputGroups

  class Framebuffer {
    var data: seq<HSIPixel>

    constructor ()
      ensures data == []
    {
      data := [];
    }

    /** Keeps what fits and fills up with black. */
    method Resize(elements: nat)
      modifies this
      ensures |data| == elements
      ensures forall i :: 0 <= i < elements ==>
                data[i] == if i < |old(data)| then old(data)[i] else HSIPixel(0.0, 0.0, 0.0)
    {
      if elements <= |data| {
        data := data[..elements];
      } else {
        data := data + seq(elements - |data|, _ => BLACK);
      }
    }

    method RecalculateMinSize(groups: seq<DbGroup>)
      modifies this
      ensures |data| == SummedPixels(groups)
      ensures forall i :: 0 <= i < |data| ==>
                data[i] == if i < |old(data)| then old(data)[i] else HSIPixel(0.0, 0.0, 0.0)
    {
      var minSize := 0;
      for k := 0 to |groups|
        invariant minSize == SummedPixels(groups[..k])
      {
        assert groups[..k + 1][..k] == groups[..k];
        minSize := minSize + NumPixels(groups[k]);
      }
      assert groups[..|groups|] == groups;
      Resize(minSize);
    }
  }

  function SummedPixels(groups: seq<DbGroup>): nat {
    if groups == [] then 0 else SummedPixels(groups[..|groups| - 1]) + NumPixels(groups[|groups| - 1])
  }

  // ---- when that is enough ----

  /** The n integers from lo on. */
  function Span(lo: int, n: nat): (s: set<int>)
    ensures forall i :: i in s <==> lo <= i < lo + n
    ensures |s| == n
  {
    if n == 0 then {} else Span(lo, n - 1) + {lo + n - 1}
  }

  function Range(g: DbGroup): (s: set<int>)
    ensures forall i :: i in s <==> g.start <= i <= g.end
    ensures |s| == NumPixels(g)
  {
    Span(g.start, NumPixels(g))
  }

  function Covered(groups: seq<DbGroup>): set<int> {
    set k, i | 0 <= k < |groups| && i in Range(groups[k]) :: i
  }

  ghost predicate RangesApart(groups: seq<DbGroup>) {
    forall i, j :: 0 <= i < j < |groups| ==> Range(groups[i]) !! Range(groups[j])
  }

  lemma CoveredSnoc(front: seq<DbGroup>, last: DbGroup)
    ensures Covered(front + [last]) == Covered(front) + Range(last)
  {
    hide Range;
    var groups := front + [last];
    forall i | i in Covered(front) + Range(last)
      ensures i in Covered(groups)
    {
      if i in Range(last) {
        assert groups[|front|] == last;
      } else {
        var k :| 0 <= k < |front| && i in Range(front[k]);
        assert groups[k] == front[k];
      }
    }
  }

  lemma UnionSize(a: set<int>, b: set<int>)
    ensures |a + b| <= |a| + |b|
    ensures a !! b ==> |a + b| == |a| + |b|
  {
    assert a + b == a + (b - a);
    assert |b - a| <= |b| by { SubsetSize(b - a, b); }
  }

  lemma SubsetSize(a: set<int>, b: set<int>)
    requires a <= b
    ensures |a| <= |b|
    ensures |a| == |b| ==> a == b
  {
    assert b == a + (b - a);
  }

  lemma {:induction false} CoveredSize(groups: seq<DbGroup>)
    ensures |Covered(groups)| <= SummedPixels(groups)
    ensures RangesApart(groups) ==> |Covered(groups)| == SummedPixels(groups)
  {
    hide Range;
    if groups != [] {
      var front, last := groups[..|groups| - 1], groups[|groups| - 1];
      assert groups == front + [last];
      CoveredSize(front);
      CoveredSnoc(front, last);
      LastApart(front, last);
      hide Covered;
      hide RangesApart;
      UnionSize(Covered(front), Range(last));
    }
  }

  lemma LastApart(front: seq<DbGroup>, last: DbGroup)
    ensures RangesApart(front + [last]) ==> RangesApart(front) && Covered(front) !! Range(last)
  {
    hide Range;
    var groups := front + [last];
    if RangesApart(groups) {
      forall i, j | 0 <= i < j < |front|
        ensures Range(front[i]) !! Range(front[j])
      {
        assert Range(groups[i]) !! Range(groups[j]);
      }
      forall i | i in Covered(front)
        ensures i !in Range(last)
      {
        var k :| 0 <= k < |front| && i in Range(front[k]);
        assert Range(groups[k]) !! Range(groups[|front|]);
      }
    }
  }

  ghost predicate EndsBy(groups: seq<DbGroup>, n: nat) {
    forall k :: 0 <= k < |groups| ==> groups[k].end < n
  }

  /** If the groups leave no gap below the highest end, every group ends inside the framebuffer,
      however much they overlap. */
  lemma GaplessFits(groups: seq<DbGroup>, top: nat)
    requires EndsBy(groups, top) && Span(0, top) <= Covered(groups)
    ensures EndsBy(groups, SummedPixels(groups))
  {
    CoveredSize(groups);
    SubsetSize(Span(0, top), Covered(groups));
  }

  /** For groups that do not overlap, it is exactly gaps that make a group end outside. */
  lemma FitsExactlyWhenGapless(groups: seq<DbGroup>, last: nat)
    requires RangesApart(groups) && last < |groups| && EndsBy(groups, groups[last].end + 1)
    ensures EndsBy(groups, SummedPixels(groups)) <==> Covered(groups) == Span(0, groups[last].end + 1)
  {
    var top := groups[last].end + 1;
    forall i | i in Covered(groups)
      ensures i in Span(0, top)
    {
    }
    CoveredSize(groups);
    SubsetSize(Covered(groups), Span(0, top));
  }
}
