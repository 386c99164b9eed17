/** Copying layers of pixels into a framebuffer, and why the order does not matter. */
module Layers {
  import opened OutputGroups

  /** One group's share of a frame: where it goes, what was drawn for it, and its brightness. */
  datatype Layer = Layer(start: nat, pixels: seq<HSIPixel>, brightness: real) {
    predicate Covers(i: int) {
      start <= i < start + |pixels|
    }

    /** The pixel at framebuffer index i, scaled. */
    function At(i: int): HSIPixel
      requires Covers(i)
    {
      var p := pixels[i - start];
      p.(i := p.i * brightness)
    }
  }

  predicate Fits(l: Layer, n: nat) {
    l.start + |l.pixels| <= n
  }

  function Copied(fb: seq<HSIPixel>, l: Layer): (r: seq<HSIPixel>)
    ensures |r| == |fb|
  {
    seq(|fb|, i requires 0 <= i < |fb| => if l.Covers(i) then l.At(i) else fb[i])
  }

  function CopyAll(fb: seq<HSIPixel>, layers: seq<Layer>): (r: seq<HSIPixel>)
    ensures |r| == |fb|
  {
    if layers == [] then fb else Copied(CopyAll(fb, layers[..|layers| - 1]), layers[|layers| - 1])
  }

  /** Where two layers meet below index n they show the same pixel. */
  ghost predicate Compatible(layers: set<Layer>, n: nat) {
    forall l, m, i :: l in layers && m in layers && i < n && l.Covers(i) && m.Covers(i) ==> l.At(i) == m.At(i)
  }

  /** Every pixel that layers cover shows one of them, and all others are the old ones. */
  ghost predicate Painted(fb: seq<HSIPixel>, r: seq<HSIPixel>, layers: set<Layer>) {
    && |r| == |fb|
    && forall i :: 0 <= i < |fb| ==>
         || (exists l :: l in layers && l.Covers(i) && r[i] == l.At(i))
         || (r[i] == fb[i] && forall l :: l in layers ==> !l.Covers(i))
  }

  /** What a frame should look like, without any order: each layer's pixels where it goes, and the
      old pixels everywhere else. */
  ghost predicate Rendered(fb: seq<HSIPixel>, r: seq<HSIPixel>, layers: set<Layer>) {
    && |r| == |fb|
    && (forall l, i :: l in layers && 0 <= i < |fb| && l.Covers(i) ==> r[i] == l.At(i))
    && (forall i :: 0 <= i < |fb| && (forall l :: l in layers ==> !l.Covers(i)) ==> r[i] == fb[i])
  }

  /** Rendering is possible exactly for compatible layers, and then painting them is rendering them. */
  lemma PaintedIsRendered(fb: seq<HSIPixel>, r: seq<HSIPixel>, layers: set<Layer>)
    requires Painted(fb, r, layers)
    ensures Compatible(layers, |fb|) ==> Rendered(fb, r, layers)
    ensures Rendered(fb, r, layers) ==> Compatible(layers, |fb|)
  {
  }

  /** The description of a rendered frame leaves nothing open. */
  lemma RenderedIsUnique(fb: seq<HSIPixel>, a: seq<HSIPixel>, b: seq<HSIPixel>, layers: set<Layer>)
    requires Rendered(fb, a, layers) && Rendered(fb, b, layers)
    ensures a == b
  {
    forall i | 0 <= i < |fb|
      ensures a[i] == b[i]
    {
      if l :| l in layers && l.Covers(i) {
        assert a[i] == l.At(i);
      }
    }
  }

  lemma CopyPaints(fb: seq<HSIPixel>, r: seq<HSIPixel>, layers: set<Layer>, l: Layer)
    requires Painted(fb, r, layers)
    ensures Painted(fb, Copied(r, l), layers + {l})
  {
    var q, all := Copied(r, l), layers + {l};
    assert l in all;
    forall i | 0 <= i < |fb|
      ensures || (exists m :: m in all && m.Covers(i) && q[i] == m.At(i))
              || (q[i] == fb[i] && forall m :: m in all ==> !m.Covers(i))
    {
      if l.Covers(i) {
        assert q[i] == l.At(i);
      } else if m :| m in layers && m.Covers(i) && r[i] == m.At(i) {
        assert m in all && q[i] == m.At(i);
      }
    }
  }

  function SetOf(layers: seq<Layer>): set<Layer> {
    set l | l in layers
  }

  /** Copying layers one after the other paints them. */
  lemma {:induction false} CopyAllPaints(fb: seq<HSIPixel>, layers: seq<Layer>)
    ensures Painted(fb, CopyAll(fb, layers), SetOf(layers))
  {
    if layers != [] {
      var front, last := layers[..|layers| - 1], layers[|layers| - 1];
      assert layers == front + [last];
      SetOfSnoc(front, last);
      CopyAllPaints(fb, front);
      CopyPaints(fb, CopyAll(fb, front), SetOf(front), last);
    }
  }

  /** An order in which to copy some layers, each once. */
  ghost predicate IsOrder(a: seq<Layer>, layers: set<Layer>) {
    SetOf(a) == layers && |a| == |layers|
  }

  lemma {:induction false} SomeOrder(layers: set<Layer>) returns (a: seq<Layer>)
    ensures IsOrder(a, layers)
  {
    a := [];
    if l :| l in layers {
      var front := SomeOrder(layers - {l});
      a := front + [l];
      SetOfSnoc(front, l);
    }
  }

  lemma SetOfSnoc(front: seq<Layer>, l: Layer)
    ensures SetOf(front + [l]) == SetOf(front) + {l}
  {
  }

  /** An order that ends in a given layer shows it wherever it goes. */
  lemma LastWins(fb: seq<HSIPixel>, layers: set<Layer>, l: Layer) returns (a: seq<Layer>)
    requires l in layers
    ensures IsOrder(a, layers)
    ensures forall i :: 0 <= i < |fb| && l.Covers(i) ==> CopyAll(fb, a)[i] == l.At(i)
  {
    hide CopyAll;
    hide SetOf;
    var front := SomeOrder(layers - {l});
    a := front + [l];
    SetOfSnoc(front, l);
    LastShown(fb, front, l);
  }

  lemma LastShown(fb: seq<HSIPixel>, front: seq<Layer>, l: Layer)
    ensures forall i :: 0 <= i < |fb| && l.Covers(i) ==> CopyAll(fb, front + [l])[i] == l.At(i)
  {
    assert (front + [l])[..|front|] == front;
    assert CopyAll(fb, front + [l]) == Copied(CopyAll(fb, front), l);
  }

  /** Whether the order of iteration matters: all orders of a finite set of layers give the same frame
      exactly when layers that meet in the framebuffer show the same pixels there. */
  lemma OrdersAgreeExactly(fb: seq<HSIPixel>, layers: set<Layer>)
    ensures (forall a, b :: IsOrder(a, layers) && IsOrder(b, layers) ==> CopyAll(fb, a) == CopyAll(fb, b))
       <==> Compatible(layers, |fb|)
  {
    hide IsOrder;
    hide CopyAll;
    hide Compatible;
    if Compatible(layers, |fb|) {
      forall a, b | IsOrder(a, layers) && IsOrder(b, layers)
        ensures CopyAll(fb, a) == CopyAll(fb, b)
      {
        OrdersAgree(fb, layers, a, b);
      }
    } else {
      var a, b := OrdersDiffer(fb, layers);
    }
  }

  lemma OrdersDiffer(fb: seq<HSIPixel>, layers: set<Layer>) returns (a: seq<Layer>, b: seq<Layer>)
    requires !Compatible(layers, |fb|)
    ensures IsOrder(a, layers) && IsOrder(b, layers) && CopyAll(fb, a) != CopyAll(fb, b)
  {
    var l, m, i :| l in layers && m in layers && i < |fb| && l.Covers(i) && m.Covers(i) && l.At(i) != m.At(i);
    a := LastWins(fb, layers, l);
    b := LastWins(fb, layers, m);
    assert CopyAll(fb, a)[i] != CopyAll(fb, b)[i];
  }

  lemma OrdersAgree(fb: seq<HSIPixel>, layers: set<Layer>, a: seq<Layer>, b: seq<Layer>)
    requires IsOrder(a, layers) && IsOrder(b, layers) && Compatible(layers, |fb|)
    ensures CopyAll(fb, a) == CopyAll(fb, b)
  {
    OrderDoesNotMatter(fb, a, b);
  }

  /** Two orders of the same compatible layers give the same frame. */
  lemma OrderDoesNotMatter(fb: seq<HSIPixel>, a: seq<Layer>, b: seq<Layer>)
    requires SetOf(a) == SetOf(b) && Compatible(SetOf(a), |fb|)
    ensures CopyAll(fb, a) == CopyAll(fb, b)
  {
    CopyAllPaints(fb, a);
    CopyAllPaints(fb, b);
    PaintedIsRendered(fb, CopyAll(fb, a), SetOf(a));
    PaintedIsRendered(fb, CopyAll(fb, b), SetOf(a));
    RenderedIsUnique(fb, CopyAll(fb, a), CopyAll(fb, b), SetOf(a));
  }
}
