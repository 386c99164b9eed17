/** One frame: every mapped routine draws, and its pixels are copied into the framebuffer. */
module EffectRunner {
  import opened OutputGroups
  import opened Layers
  import Framebuffer
  import OutputMapper

  /** A group's layer, given what was drawn into the buffer it copies from. */
  function LayerOf(g: OutputGroup, source: seq<HSIPixel>): Layer
    requires NumPixels(g.group) <= |source|
    reads g`brightness
  {
    Layer(g.group.start, source[..NumPixels(g.group)], g.brightness)
  }

  /** The buffer a key's routine draws into is as long as this. */
  ghost function BufferSize(k: GroupPtr): nat
    reads (match k case Uber(u) => {u} case _ => {})`groups
  {
    TotalPixels(Members(k))
  }

  /** The layers of one key. The members of an ubergroup all copy from index 0 of its buffer. */
  ghost function Plan(k: GroupPtr, r: Routine, frame: int): set<Layer>
    reads (match k case Uber(u) => {u} case _ => {})`groups, Members(k)`brightness
  {
    set g | g in Members(k) :: MemberLayer(k, g, r, frame)
  }

  ghost function MemberLayer(k: GroupPtr, g: OutputGroup, r: Routine, frame: int): Layer
    requires g in Members(k)
    reads (match k case Uber(u) => {u} case _ => {})`groups, g`brightness
  {
    TotalCovers(Members(k), g);
    LayerOf(g, r.Drawn(frame, BufferSize(k)))
  }

  ghost predicate Fit(k: GroupPtr, n: nat)
    reads (match k case Uber(u) => {u} case _ => {})`groups
  {
    forall g :: g in Members(k) ==> g.group.end < n
  }

  /** Copies a group's pixels to its place, and scales each for brightness. */
  method CopyIntoFramebuffer(g: OutputGroup, fb: Framebuffer.Framebuffer, buffer: array<HSIPixel>)
    requires g.group.end < |fb.data| && NumPixels(g.group) <= buffer.Length
    modifies fb
    ensures |fb.data| == |old(fb.data)|
    ensures fb.data == Copied(old(fb.data), LayerOf(g, buffer[..]))
  {
    ghost var was, l := fb.data, LayerOf(g, buffer[..]);
    var i, j := g.group.start, 0;
    while i <= g.group.end
      invariant j == i - g.group.start && g.group.start <= i <= g.group.end + 1
      invariant |fb.data| == |was|
      invariant forall k :: 0 <= k < |was| ==> fb.data[k] == if g.group.start <= k < i then l.At(k) else was[k]
    {
      fb.data := fb.data[i := buffer[j]];
      fb.data := fb.data[i := fb.data[i].(i := fb.data[i].i * g.brightness)];
      i, j := i + 1, j + 1;
    }
  }

  /** Pixel `j` of the buffer lands at the group's `j`-th place, its intensity scaled, and nothing else moves. */
  lemma CopiedPixels(was: seq<HSIPixel>, g: OutputGroup, buffer: seq<HSIPixel>)
    requires g.group.end < |was| && NumPixels(g.group) <= |buffer|
    ensures var now := Copied(was, LayerOf(g, buffer));
            && |now| == |was|
            && (forall j :: 0 <= j <= g.group.end - g.group.start ==>
                  now[g.group.start + j] == HSIPixel(buffer[j].h, buffer[j].s, buffer[j].i * g.brightness))
            && forall k :: 0 <= k < |was| && !(g.group.start <= k <= g.group.end) ==> now[k] == was[k]
  {
    var l := LayerOf(g, buffer);
    forall j | 0 <= j <= g.group.end - g.group.start
      ensures l.At(g.group.start + j) == HSIPixel(buffer[j].h, buffer[j].s, buffer[j].i * g.brightness)
    {
    }
  }

  /** Copies every member from the start of the ubergroup's own buffer. An empty one has none. */
  method CopyUbergroup(u: OutputUberGroup, fb: Framebuffer.Framebuffer, ghost r: Routine, ghost frame: int,
                       ghost was: seq<HSIPixel>, ghost done: set<Layer>)
    requires u.Sized() && (u.buffer != null ==> u.buffer[..] == r.Drawn(frame, u.buffer.Length))
    requires Fit(Uber(u), |fb.data|)
    requires Painted(was, fb.data, done)
    modifies fb
    ensures Painted(was, fb.data, done + Plan(Uber(u), r, frame))
  {
    hide Painted;
    PaintedSize(was, fb.data, done);
    var todo := u.groups;
    ghost var now := done;
    ghost var plan := Plan(Uber(u), r, frame);
    while todo != {}
      invariant todo <= u.groups
      invariant |fb.data| == |was| && Painted(was, fb.data, now)
      invariant done <= now <= done + plan
      invariant forall g :: g in u.groups - todo ==> MemberLayer(Uber(u), g, r, frame) in now
    {
      var g :| g in todo;
      todo := todo - {g};
      TotalCovers(u.groups, g);
      ghost var l := MemberLayer(Uber(u), g, r, frame);
      assert l in plan;
      ghost var before := fb.data;
      CopyIntoFramebuffer(g, fb, u.buffer);
      CopyPaints(was, before, now, l);
      now := now + {l};
    }
    forall l | l in plan
      ensures l in now
    {
      var g :| g in u.groups && l == MemberLayer(Uber(u), g, r, frame);
    }
    assert now == done + plan && Plan(Uber(u), r, frame) == plan;
  }

  lemma TotalOfOne(g: OutputGroup)
    ensures TotalPixels({g}) == NumPixels(g.group)
  {
    TotalWithout({g}, g);
    assert {g} - {g} == {};
  }

  method RunSingle(g: OutputGroup, r: Routine, fb: Framebuffer.Framebuffer, frame: int, ghost was: seq<HSIPixel>,
          ghost done: set<Layer>)
    requires g.Bound(r) && Fit(Single(g), |fb.data|)
    requires Painted(was, fb.data, done)
    modifies fb, g`bufferChanged, g`bufferBoundRoutine, r`buffer, g.buffer
    ensures g.Settled(r)
    ensures Plan(Single(g), r, frame) == old(Plan(Single(g), r, frame))
    ensures Painted(was, fb.data, done + Plan(Single(g), r, frame))
  {
    g.BindBufferToRoutine(r);
    r.Execute(frame);
    TotalOfOne(g);
    ghost var l := MemberLayer(Single(g), g, r, frame);
    assert Plan(Single(g), r, frame) == {l};
    ghost var before := fb.data;
    CopyIntoFramebuffer(g, fb, g.buffer);
    CopyPaints(was, before, done, l);
  }

  method RunUber(u: OutputUberGroup, r: Routine, fb: Framebuffer.Framebuffer, frame: int, ghost was: seq<HSIPixel>,
          ghost done: set<Layer>)
    requires u.Bound(r) && Fit(Uber(u), |fb.data|)
    requires Painted(was, fb.data, done)
    modifies fb, u`bufferChanged, u`bufferBoundRoutine, r`buffer, u.buffer
    ensures u.Settled(r)
    ensures Plan(Uber(u), r, frame) == old(Plan(Uber(u), r, frame))
    ensures Painted(was, fb.data, done + Plan(Uber(u), r, frame))
  {
    hide Painted;
    hide Fit;
    u.BindBufferToRoutine(r);
    r.Execute(frame);
    assert Members(Uber(u)) == old(Members(Uber(u)));
    CopyUbergroup(u, fb, r, frame, was, done);
  }

  // ---- a whole frame ----

  type FramePlan = map<GroupPtr, set<Layer>>

  /** What every key contributes to the frame. */
  ghost function Planned(m: map<GroupPtr, Routine>, frame: int): FramePlan
    reads OutputMapper.UbersOf(m)`groups, (set k, g | k in m && g in Members(k) :: g)`brightness
  {
    map k | k in m :: Plan(k, m[k], frame)
  }

  ghost function LayersOf(plan: FramePlan, keys: set<GroupPtr>): set<Layer> {
    set k, l | k in keys && k in plan && l in plan[k] :: l
  }

  lemma LayersOfOneMore(plan: FramePlan, keys: set<GroupPtr>, k: GroupPtr)
    requires k in plan
    ensures LayersOf(plan, keys + {k}) == LayersOf(plan, keys) + plan[k]
    ensures LayersOf(plan, keys + {k}) <= LayersOf(plan, plan.Keys)
  {
    forall l | l in LayersOf(plan, keys) + plan[k]
      ensures l in LayersOf(plan, keys + {k})
    {
      if l in plan[k] {
        assert k in keys + {k};
      } else {
        var j :| j in keys && j in plan && l in plan[j];
        assert j in keys + {k};
      }
    }
  }

  /** Every key's group or ubergroup is bound or about to be, and what its turn may change is among the
      given objects. */
  ghost predicate AllReady(m: map<GroupPtr, Routine>, objects: set<object>)
    reads objects
  {
    forall k :: k in m ==>
      && m[k] in objects
      && (match k
          case Null => false
          case Single(g) => g in objects && g.buffer in objects && g.Bound(m[k])
          case Uber(u) => u in objects && u.Bound(m[k]) && (u.buffer != null ==> u.buffer in objects))
  }

  /** The key's routine is attached to its buffer and no attach is due. */
  ghost predicate Settled(k: GroupPtr, r: Routine)
    reads match k case Null => {} case Single(g) => {g as object, r} case Uber(u) => {u as object, r}
  {
    match k
    case Null => false
    case Single(g) => g.Settled(r)
    case Uber(u) => u.Settled(r)
  }

  /** What a frame leaves alone: the members, the buffers and what was freed. */
  ghost function Shapes(m: map<GroupPtr, Routine>): map<OutputUberGroup,
          (set<OutputGroup>, array?<HSIPixel>, set<array<HSIPixel>>)>
    reads OutputMapper.UbersOf(m)
  {
    map u | u in OutputMapper.UbersOf(m) :: (u.groups, u.buffer, u.freed)
  }


  /** Every layer lies inside n pixels. */
  ghost predicate AllFit(layers: set<Layer>, n: nat) {
    forall l :: l in layers ==> Fits(l, n)
  }

  lemma FitAsPlanned(k: GroupPtr, r: Routine, frame: int, n: nat)
    requires AllFit(Plan(k, r, frame), n)
    ensures Fit(k, n)
  {
    forall g | g in Members(k)
      ensures g.group.end < n
    {
      TotalCovers(Members(k), g);
      assert MemberLayer(k, g, r, frame) in Plan(k, r, frame);
    }
  }

  /** No routine serves two keys. */
  ghost predicate OwnRoutines(m: map<GroupPtr, Routine>) {
    forall k, l :: k in m && l in m && k != l ==> m[k] != m[l]
  }

  /** One key's turn keeps the others ready and leaves the plan for the frame as it is. */
  method RunEffect(m: map<GroupPtr, Routine>, k: GroupPtr, fb: Framebuffer.Framebuffer, frame: int,
                   ghost objects: set<object>, ghost was: seq<HSIPixel>, ghost done: set<Layer>)
    requires k in m && AllReady(m, objects) && OwnRoutines(m) && AllFit(Plan(k, m[k], frame), |was|)
    requires Painted(was, fb.data, done)
    modifies fb, objects
    ensures AllReady(m, objects)
    ensures Planned(m, frame) == old(Planned(m, frame))
    ensures Shapes(m) == old(Shapes(m)) && Settled(k, m[k])
    ensures forall l :: l in m && old(Settled(l, m[l])) ==> Settled(l, m[l])
    ensures Painted(was, fb.data, done + old(Plan(k, m[k], frame)))
  {
    hide Painted;
    hide Plan;
    hide Planned;
    hide AllFit;
    hide OwnRoutines;
    hide Shapes;
    hide Settled;
    match k {
      case Single(g) => TurnOfSingle(m, g, fb, frame, objects, was, done);
      case Uber(u) => TurnOfUber(m, u, fb, frame, objects, was, done);
    }
  }

  method TurnOfSingle(m: map<GroupPtr, Routine>, g: OutputGroup, fb: Framebuffer.Framebuffer, frame: int,
                      ghost objects: set<object>, ghost was: seq<HSIPixel>, ghost done: set<Layer>)
    requires Single(g) in m && AllReady(m, objects) && OwnRoutines(m)
             && AllFit(Plan(Single(g), m[Single(g)], frame), |was|)
    requires Painted(was, fb.data, done)
    modifies fb, objects
    ensures AllReady(m, objects)
    ensures Planned(m, frame) == old(Planned(m, frame))
    ensures Shapes(m) == old(Shapes(m)) && Settled(Single(g), m[Single(g)])
    ensures forall l :: l in m && old(Settled(l, m[l])) ==> Settled(l, m[l])
    ensures Painted(was, fb.data, done + old(Plan(Single(g), m[Single(g)], frame)))
  {
    PaintedSize(was, fb.data, done);
    FitAsPlanned(Single(g), m[Single(g)], frame, |was|);
    hide Painted;
    hide Plan;
    hide Fit;
    hide AllFit;
    RunSingle(g, m[Single(g)], fb, frame, was, done);
    forall l | l in m
      ensures Plan(l, m[l], frame) == old(Plan(l, m[l], frame))
    {
      assert Members(l) == old(Members(l));
    }
  }

  method TurnOfUber(m: map<GroupPtr, Routine>, u: OutputUberGroup, fb: Framebuffer.Framebuffer, frame: int,
                    ghost objects: set<object>, ghost was: seq<HSIPixel>, ghost done: set<Layer>)
    requires Uber(u) in m && AllReady(m, objects) && OwnRoutines(m) && AllFit(Plan(Uber(u), m[Uber(u)], frame), |was|)
    requires Painted(was, fb.data, done)
    modifies fb, objects
    ensures AllReady(m, objects)
    ensures Planned(m, frame) == old(Planned(m, frame))
    ensures Shapes(m) == old(Shapes(m)) && Settled(Uber(u), m[Uber(u)])
    ensures forall l :: l in m && old(Settled(l, m[l])) ==> Settled(l, m[l])
    ensures Painted(was, fb.data, done + old(Plan(Uber(u), m[Uber(u)], frame)))
  {
    PaintedSize(was, fb.data, done);
    FitAsPlanned(Uber(u), m[Uber(u)], frame, |was|);
    hide Painted;
    hide Plan;
    hide Fit;
    hide AllFit;
    RunUber(u, m[Uber(u)], fb, frame, was, done);
    forall l | l in m
      ensures Plan(l, m[l], frame) == old(Plan(l, m[l], frame))
    {
      assert Members(l) == old(Members(l));
    }
  }

  lemma PaintedSize(was: seq<HSIPixel>, now: seq<HSIPixel>, done: set<Layer>)
    requires Painted(was, now, done)
    ensures |now| == |was|
  {
  }

  method RunPlanned(m: map<GroupPtr, Routine>, k: GroupPtr, fb: Framebuffer.Framebuffer, frame: int,
          ghost objects: set<object>,
                    ghost was: seq<HSIPixel>, ghost plan: FramePlan, ghost done: set<GroupPtr>)
    requires k in m && AllReady(m, objects) && OwnRoutines(m) && Planned(m, frame) == plan
    requires Painted(was, fb.data, LayersOf(plan, done))
    requires AllFit(LayersOf(plan, plan.Keys), |was|)
    modifies fb, objects
    requires forall l :: l in done ==> l in m && Settled(l, m[l])
    ensures AllReady(m, objects) && Planned(m, frame) == plan
    ensures Shapes(m) == old(Shapes(m)) && forall l :: l in done + {k} ==> Settled(l, m[l])
    ensures Painted(was, fb.data, LayersOf(plan, done + {k}))
  {
    LayersOfOneMore(plan, done, k);
    assert AllFit(plan[k], |was|);
    hide AllFit;
    assert Plan(k, m[k], frame) == plan[k];
    hide Painted;
    hide LayersOf;
    hide AllReady;
    hide Plan;
    hide OwnRoutines;
    hide Planned;
    hide Shapes;
    hide Settled;
    RunEffect(m, k, fb, frame, objects, was, LayersOf(plan, done));
  }

  /** Runs every mapped effect, in whatever order the map gives its keys. If every buffer is bound or
      about to be, no routine serves two keys and every group fits, every pixel shows one of the layers
      that cover it or is untouched; and if layers that meet show the same pixels, the frame is exactly
      the layers of all keys over the old framebuffer. */
  method CoordinatorRunEffects(m: map<GroupPtr, Routine>, fb: Framebuffer.Framebuffer, frameCounter: int,
          ghost objects: set<object>)
    returns (next: int)
    requires AllReady(m, objects) && OwnRoutines(m)
    requires AllFit(LayersOf(Planned(m, frameCounter), m.Keys), |fb.data|)
    modifies fb, objects
    ensures AllReady(m, objects) && next == frameCounter + 1
    ensures Shapes(m) == old(Shapes(m)) && forall k :: k in m ==> Settled(k, m[k])
    ensures var layers := old(LayersOf(Planned(m, frameCounter), m.Keys));
            && Painted(old(fb.data), fb.data, layers)
            && (Compatible(layers, |fb.data|) ==> Rendered(old(fb.data), fb.data, layers))
  {
    ghost var was, plan := fb.data, Planned(m, frameCounter);
    var todo := m.Keys;
    ghost var done: set<GroupPtr> := {};
    assert plan.Keys == m.Keys;
    assert LayersOf(plan, done) == {};
    assert Painted(was, fb.data, {});
    hide Painted;
    hide LayersOf;
    hide AllReady;
    hide OwnRoutines;
    hide Planned;
    hide Shapes;
    hide Settled;
    while todo != {}
      invariant todo + done == m.Keys && todo !! done
      invariant AllReady(m, objects) && Planned(m, frameCounter) == plan
      invariant Shapes(m) == old(Shapes(m)) && forall k :: k in done ==> Settled(k, m[k])
      invariant Painted(was, fb.data, LayersOf(plan, done))
    {
      var k :| k in todo;
      todo := todo - {k};
      RunPlanned(m, k, fb, frameCounter, objects, was, plan, done);
      done := done + {k};
    }
    assert done == m.Keys;
    PaintedSize(was, fb.data, LayersOf(plan, done));
    PaintedIsRendered(was, fb.data, LayersOf(plan, done));
    next := frameCounter + 1;
  }

  // ---- what a frame shows ----

  /** The pixels of a row show what a routine draws into a buffer of n pixels, from index 0 on, each with
      its intensity scaled. */
  ghost predicate RowShown(now: seq<HSIPixel>, row: DbGroup, r: Routine, frame: int, n: nat, brightness: real) {
    forall j :: 0 <= j <= row.end - row.start ==> PixelIs(now, row.start + j, r.draw(frame, n, j), brightness)
  }

  /** Every group of every key shows what its key's routine draws from index 0 on. */
  ghost predicate AllRowsShown(now: seq<HSIPixel>, m: map<GroupPtr, Routine>, frame: int)
    reads OutputMapper.UbersOf(m), (set k, g | k in m && g in Members(k) :: g)`brightness
  {
    forall k, g :: k in m && g in Members(k) ==>
      RowShown(now, g.group, m[k], frame, TotalPixels(Members(k)), g.brightness)
  }

  predicate PixelIs(now: seq<HSIPixel>, at: nat, d: HSIPixel, brightness: real) {
    at < |now| && now[at] == HSIPixel(d.h, d.s, d.i * brightness)
  }

  /** A rendered frame, pixel by pixel: every mapped group shows what its key's routine draws from index 0
      on, with the group's own brightness; nothing else changes. */
  lemma FrameShows(m: map<GroupPtr, Routine>, frame: int, was: seq<HSIPixel>, now: seq<HSIPixel>)
    requires Rendered(was, now, LayersOf(Planned(m, frame), m.Keys))
    requires AllFit(LayersOf(Planned(m, frame), m.Keys), |was|)
    ensures AllRowsShown(now, m, frame)
    ensures forall i ::
              0 <= i < |now| && (forall k, g :: k in m && g in Members(k) ==> !(g.group.start <= i <= g.group.end)) ==>
              now[i] == was[i]
  {
    hide RowShown;
    var layers := LayersOf(Planned(m, frame), m.Keys);
    forall k, g | k in m && g in Members(k)
      ensures RowShown(now, g.group, m[k], frame, TotalPixels(Members(k)), g.brightness)
    {
      RowIsShown(m, frame, was, now, k, g);
    }
    forall i | 0 <= i < |now| && (forall k, g :: k in m && g in Members(k) ==> !(g.group.start <= i <= g.group.end))
      ensures now[i] == was[i]
    {
      forall l | l in layers
        ensures !l.Covers(i)
      {
        var k, g := WhoseLayer(m, frame, l);
      }
    }
  }

  lemma RowIsShown(m: map<GroupPtr, Routine>, frame: int, was: seq<HSIPixel>, now: seq<HSIPixel>,
                   k: GroupPtr, g: OutputGroup)
    requires Rendered(was, now, LayersOf(Planned(m, frame), m.Keys))
    requires AllFit(LayersOf(Planned(m, frame), m.Keys), |was|)
    requires k in m && g in Members(k)
    ensures RowShown(now, g.group, m[k], frame, TotalPixels(Members(k)), g.brightness)
  {
    hide Rendered;
    hide AllFit;
    hide LayersOf;
    hide Planned;
    var r, n, row := m[k], TotalPixels(Members(k)), g.group;
    forall j | 0 <= j <= row.end - row.start
      ensures PixelIs(now, row.start + j, r.draw(frame, n, j), g.brightness)
    {
      PixelShown(m, frame, was, now, k, g, j);
    }
  }

  lemma FramesShow(m: map<GroupPtr, Routine>, frame: int, was: seq<HSIPixel>)
    requires AllFit(LayersOf(Planned(m, frame), m.Keys), |was|)
    ensures forall now :: Rendered(was, now, LayersOf(Planned(m, frame), m.Keys)) ==> AllRowsShown(now, m, frame)
  {
    forall now | Rendered(was, now, LayersOf(Planned(m, frame), m.Keys))
      ensures AllRowsShown(now, m, frame)
    {
      FrameShows(m, frame, was, now);
    }
  }

  lemma PixelShown(m: map<GroupPtr, Routine>, frame: int, was: seq<HSIPixel>, now: seq<HSIPixel>,
                   k: GroupPtr, g: OutputGroup, j: nat)
    requires Rendered(was, now, LayersOf(Planned(m, frame), m.Keys))
    requires AllFit(LayersOf(Planned(m, frame), m.Keys), |was|)
    requires k in m && g in Members(k) && j <= g.group.end - g.group.start
    ensures g.group.start + j < |now|
    ensures var d := m[k].draw(frame, TotalPixels(Members(k)), j);
            now[g.group.start + j] == HSIPixel(d.h, d.s, d.i * g.brightness)
  {
    TotalCovers(Members(k), g);
    var l := MemberLayer(k, g, m[k], frame);
    assert Planned(m, frame)[k] == Plan(k, m[k], frame);
    assert l in Plan(k, m[k], frame);
    assert l in LayersOf(Planned(m, frame), m.Keys);
    assert l.Covers(g.group.start + j);
    assert now[g.group.start + j] == l.At(g.group.start + j);
    assert l.pixels[j] == m[k].Drawn(frame, TotalPixels(Members(k)))[j];
  }

  // ---- when the conditions hold ----

  ghost predicate Overlap(g: DbGroup, h: DbGroup) {
    g.start <= h.end && h.start <= g.end
  }

  /** Mapped groups whose ranges do not overlap give layers that never meet. */
  lemma ApartRangesAreCompatible(m: map<GroupPtr, Routine>, frame: int, n: nat)
    requires forall k, l, g, h :: k in m && l in m && g in Members(k) && h in Members(l) && (k != l || g != h) ==>
               !Overlap(g.group, h.group)
    ensures Compatible(LayersOf(Planned(m, frame), m.Keys), n)
  {
    hide Planned;
    hide LayersOf;
    hide MemberLayer;
    var all := LayersOf(Planned(m, frame), m.Keys);
    forall a, b, i | a in all && b in all && a.Covers(i) && b.Covers(i)
      ensures a == b
    {
      var k, g := WhoseLayer(m, frame, a);
      var l, h := WhoseLayer(m, frame, b);
      assert Overlap(g.group, h.group);
    }
  }

  lemma WhoseLayer(m: map<GroupPtr, Routine>, frame: int, a: Layer) returns (k: GroupPtr, g: OutputGroup)
    requires a in LayersOf(Planned(m, frame), m.Keys)
    ensures k in m && g in Members(k) && a == MemberLayer(k, g, m[k], frame)
    ensures a.start == g.group.start && a.start + |a.pixels| == g.group.end + 1
  {
    k :| k in m && a in Planned(m, frame)[k];
    g :| g in Members(k) && a == MemberLayer(k, g, m[k], frame);
    TotalCovers(Members(k), g);
  }

  /** In a framebuffer that every row's range ends inside of, every layer lies inside. */
  lemma RowsFit(m: map<GroupPtr, Routine>, frame: int, rows: seq<DbGroup>, n: nat)
    requires Framebuffer.EndsBy(rows, n)
    requires forall k, g :: k in m && g in Members(k) ==> g.group in rows
    ensures AllFit(LayersOf(Planned(m, frame), m.Keys), n)
  {
    forall a | a in LayersOf(Planned(m, frame), m.Keys)
      ensures Fits(a, n)
    {
      var k, g := WhoseLayer(m, frame, a);
      assert g.group in rows;
    }
  }

  /** Where a frame's layers go: if the rows of the group table leave no gap, however they overlap, all
      layers lie inside a framebuffer of the summed size. */
  lemma MappedGroupsFit(m: map<GroupPtr, Routine>, frame: int, rows: seq<DbGroup>, top: nat)
    requires forall k, g :: k in m && g in Members(k) ==> g.group in rows
    requires Framebuffer.EndsBy(rows, top) && Framebuffer.Span(0, top) <= Framebuffer.Covered(rows)
    ensures AllFit(LayersOf(Planned(m, frame), m.Keys), Framebuffer.SummedPixels(rows))
  {
    Framebuffer.GaplessFits(rows, top);
    RowsFit(m, frame, rows, Framebuffer.SummedPixels(rows));
  }

  /** What they show: the map never has a group under two keys, so if rows do not overlap, and members of
      one ubergroup that share a row share its brightness, layers that meet show the same pixels. */
  lemma MappedGroupsAgree(mapper: OutputMapper.OutputMapper, frame: int, rows: seq<DbGroup>, n: nat)
    requires mapper.Valid() && Framebuffer.RangesApart(rows)
    requires forall k, g :: k in mapper.outputMap && g in Members(k) ==> g.group in rows
    requires forall k, g, h :: k in mapper.outputMap && g in Members(k) && h in Members(k) && g.group == h.group ==>
               g.brightness == h.brightness
    ensures Compatible(LayersOf(Planned(mapper.outputMap, frame), mapper.outputMap.Keys), n)
  {
    hide Planned;
    hide LayersOf;
    hide Framebuffer.RangesApart;
    var m := mapper.outputMap;
    var all := LayersOf(Planned(m, frame), m.Keys);
    forall a, b, i | a in all && b in all && a.Covers(i) && b.Covers(i)
      ensures a == b
    {
      var k, g := WhoseLayer(m, frame, a);
      var l, h := WhoseLayer(m, frame, b);
      RowsDoNotOverlap(rows, g.group, h.group);
      if k != l {
        DifferentIds(mapper, k, l, g, h);
      }
    }
  }

  lemma DifferentIds(mapper: OutputMapper.OutputMapper, k: GroupPtr, l: GroupPtr, g: OutputGroup, h: OutputGroup)
    requires mapper.Valid() && k in mapper.outputMap && l in mapper.outputMap && k != l
    requires g in Members(k) && h in Members(l)
    ensures g.group.id != h.group.id
  {
    assert g.group.id in Ids(k) && h.group.id in Ids(l);
    mapper.CoveredOnce(k, g.group.id);
  }

  lemma RowsDoNotOverlap(rows: seq<DbGroup>, g: DbGroup, h: DbGroup)
    requires Framebuffer.RangesApart(rows) && g in rows && h in rows
    ensures Overlap(g, h) ==> g == h
  {
    if g == h {
      return;
    }
    var i :| 0 <= i < |rows| && rows[i] == g;
    var j :| 0 <= j < |rows| && rows[j] == h;
    assert Framebuffer.Range(g) !! Framebuffer.Range(h);
    var meet := if g.start < h.start then h.start else g.start;
    assert Overlap(g, h) ==> meet in Framebuffer.Range(g) && meet in Framebuffer.Range(h);
  }
}
