/** The operations that meet in the output map: mappings are added and removed, and frames are drawn. */
module Server {
  import opened OutputGroups
  import opened Layers
  import opened EffectRunner
  import Framebuffer
  import OutputMapper

  // ---- what holds between frames ----

  ghost function KeyObjects(m: map<GroupPtr, Routine>): set<object> {
    (set k | k in m && k.Single? :: k.g as object)
    + (set k | k in m && k.Uber? :: k.u as object)
    + (set k | k in m :: m[k] as object)
  }

  /** Every routine serves one key, and for none is the bookkeeping about its buffer wrong, unless its
      ubergroup has lost its buffer. */
  ghost predicate Wired(m: map<GroupPtr, Routine>)
    reads KeyObjects(m)
  {
    && OwnRoutines(m)
    && forall k :: k in m ==>
         match k
         case Null => false
         case Single(g) => g.Bound(m[k])
         case Uber(u) => u.Attached(m[k])
  }

  /** No key's turn would draw into memory that was given back. */
  ghost predicate Safe(m: map<GroupPtr, Routine>)
    reads KeyObjects(m)
  {
    forall u :: u in OutputMapper.UbersOf(m) ==> var b := u.AttachedBy(m[Uber(u)]); b == null || b !in u.freed
  }

  ghost predicate NoneDangles(m: map<GroupPtr, Routine>)
    reads KeyObjects(m)
  {
    forall u :: u in OutputMapper.UbersOf(m) ==> !u.Dangles(m[Uber(u)])
  }

  /** A frame is safe exactly when no mapped empty ubergroup is still bound to a routine that has a
      buffer; and then every turn draws into its key's own buffer. */
  lemma SafeExactly(m: map<GroupPtr, Routine>)
    requires Wired(m)
    ensures Safe(m) <==> NoneDangles(m)
    ensures Safe(m) <==> forall u :: u in OutputMapper.UbersOf(m) ==> u.Bound(m[Uber(u)])
  {
  }

  /** Whatever was added, removed and drawn, a key with members stays bound. */
  lemma MembersStayBound(m: map<GroupPtr, Routine>, u: OutputUberGroup)
    requires Wired(m) && Uber(u) in m && u.groups != {}
    ensures u.Bound(m[Uber(u)]) && !u.Dangles(m[Uber(u)])
  {
  }

  ghost function ObjectsOf(m: map<GroupPtr, Routine>): set<object>
    reads KeyObjects(m)
  {
    KeyObjects(m)
    + (set k | k in m && k.Single? :: k.g.buffer as object)
    + (set k | k in m && k.Uber? && k.u.buffer != null :: k.u.buffer as object)
  }

  lemma NoOthers(m: map<GroupPtr, Routine>, mapper: OutputMapper.OutputMapper, server: Server,
          fb: Framebuffer.Framebuffer)
    ensures mapper !in ObjectsOf(m) && server !in ObjectsOf(m) && fb !in ObjectsOf(m)
  {
  }

  /** A safe map is ready for a frame. */
  lemma SafeIsReady(m: map<GroupPtr, Routine>)
    requires Wired(m) && NoneDangles(m)
    ensures AllReady(m, ObjectsOf(m)) && OwnRoutines(m)
  {
    SafeExactly(m);
    hide NoneDangles;
    hide Safe;
    forall k | k in m
      ensures m[k] in ObjectsOf(m)
      ensures match k
              case Null => false
              case Single(g) => g in ObjectsOf(m) && g.buffer in ObjectsOf(m) && g.Bound(m[k])
              case Uber(u) => u in ObjectsOf(m) && u.Bound(m[k]) && (u.buffer != null ==> u.buffer in ObjectsOf(m))
    {
      if k.Uber? {
        assert k.u in OutputMapper.UbersOf(m);
      }
    }
  }

  /** After a frame nothing is due to be attached, and the map is as well wired as it was. */
  twostate lemma FrameKeepsWired(m: map<GroupPtr, Routine>)
    requires old(Wired(m)) && Shapes(m) == old(Shapes(m))
    requires forall k :: k in m ==> Settled(k, m[k])
    requires forall k :: k in m && k.Single? ==> k.g.buffer.Length == NumPixels(k.g.group)
    ensures Wired(m) && NoneDangles(m)
  {
    forall u | u in OutputMapper.UbersOf(m)
      ensures u.Attached(m[Uber(u)]) && !u.Dangles(m[Uber(u)])
    {
      assert Shapes(m)[u] == old(Shapes(m))[u];
    }
  }

  /** Removing and resizing keep a map wired: what the routines and single groups hold does not change. */
  twostate lemma StaysWired(was: map<GroupPtr, Routine>, new now: map<GroupPtr, Routine>)
    requires old(Wired(was)) && OutputMapper.PartOf(now, was)
    requires forall u :: u in OutputMapper.UbersOf(was) ==> u.Kept() && (Uber(u) in now ==> u.Sized())
    requires forall k :: k in was ==> was[k].buffer == old(was[k].buffer) && (k.Single? ==> unchanged(k.g))
    ensures Wired(now)
  {
    forall k | k in now
      ensures match k
              case Null => false
              case Single(g) => g.Bound(now[k])
              case Uber(u) => u.Attached(now[k])
    {
      match k {
        case Null =>
        case Single(g) =>
        case Uber(u) =>
          assert u in OutputMapper.UbersOf(was);
          u.KeptAttached(was[k]);
      }
    }
  }

  ghost predicate AllSettled(m: map<GroupPtr, Routine>)
    reads KeyObjects(m)
  {
    forall k :: k in m ==> Settled(k, m[k])
  }

  lemma ReadySized(m: map<GroupPtr, Routine>, objects: set<object>)
    requires AllReady(m, objects)
    ensures forall k :: k in m && k.Single? ==> k.g.buffer.Length == NumPixels(k.g.group)
  {
  }

  // ---- the server ----

  function RowSet(rows: seq<DbGroup>): set<DbGroup> {
    set g | g in rows
  }

  /** The rows behind some groups. */
  function RowsOf(groups: set<OutputGroup>): set<DbGroup> {
    set g | g in groups :: g.group
  }

  /** A key made for a request, which has not been shown yet. */
  twostate predicate NewKey(new key: GroupPtr, rows: seq<DbGroup>)
    reads match key case Null => {} case Single(g) => {g as object} case Uber(u) => {u as object} + u.groups
  {
    match key
    case Null => false
    case Single(g) =>
      fresh(g) && rows == [g.group] && g.brightness == 1.0 && g.buffer.Length == NumPixels(g.group)
          && g.bufferBoundRoutine == null
    case Uber(u) =>
      && fresh(u) && |rows| != 1 && RowsOf(u.groups) == RowSet(rows)
      && (forall g :: g in u.groups ==> fresh(g) && g.brightness == 1.0)
      && u.Sized() && u.freed == {} && u.bufferBoundRoutine == null && (u.buffer != null ==> fresh(u.buffer))
  }

  method MakeGroups(rows: seq<DbGroup>) returns (groups: set<OutputGroup>)
    ensures RowsOf(groups) == RowSet(rows)
    ensures forall g :: g in groups ==> fresh(g) && g.brightness == 1.0
  {
    groups := {};
    for i := 0 to |rows|
      invariant RowsOf(groups) == RowSet(rows[..i])
      invariant forall g :: g in groups ==> fresh(g) && g.brightness == 1.0
    {
      var g := new OutputGroup(rows[i]);
      assert RowsOf(groups + {g}) == RowsOf(groups) + {rows[i]};
      assert RowSet(rows[..i + 1]) == RowSet(rows[..i]) + {rows[i]};
      groups := groups + {g};
    }
    assert rows[..|rows|] == rows;
  }

  method MakeKey(rows: seq<DbGroup>) returns (key: GroupPtr)
    ensures NewKey(key, rows)
  {
    if |rows| == 1 {
      var g := new OutputGroup(rows[0]);
      key := Single(g);
    } else {
      var groups := MakeGroups(rows);
      var u := new OutputUberGroup(groups);
      key := Uber(u);
    }
  }

  twostate lemma NewKeyIsAttached(new key: GroupPtr, rows: seq<DbGroup>, new r: Routine)
    requires NewKey(key, rows)
    ensures !key.Null? && (key.Single? ==> key.g.Bound(r)) && (key.Uber? ==> key.u.Attached(r))
    ensures Ids(key) == IdSet(rows)
    ensures key.Uber? ==> (key.u.groups == {} <==> rows == [])
    ensures key.Single? ==> rows != []
  {
    match key {
      case Single(g) =>
      case Uber(u) =>
        forall id
          ensures id in Ids(key) <==> id in IdSet(rows)
        {
          if id in Ids(key) {
            var g :| g in u.groups && g.group.id == id;
            assert g.group in RowsOf(u.groups);
          }
          if id in IdSet(rows) {
            var row :| row in rows && row.id == id;
            assert row in RowSet(rows);
          }
        }
        assert rows != [] ==> rows[0] in RowSet(rows);
        if g :| g in u.groups {
          assert g.group in RowsOf(u.groups);
        }
    }
  }

  function IdSet(rows: seq<DbGroup>): set<int> {
    set g | g in rows :: g.id
  }

  class Server {
    const mapper: OutputMapper.OutputMapper
    const fb: Framebuffer.Framebuffer
    var frameCounter: int

    ghost predicate Valid()
      reads this, mapper, mapper.Ubers(), KeyObjects(mapper.outputMap)
    {
      mapper.Valid() && Wired(mapper.outputMap)
    }

    constructor (rows: seq<DbGroup>)
      ensures Valid() && mapper.outputMap == map[] && mapper.view == map[] && fresh(mapper) && fresh(fb)
      ensures |fb.data| == Framebuffer.SummedPixels(rows) && frameCounter == 0
    {
      mapper := new OutputMapper.OutputMapper();
      var f := new Framebuffer.Framebuffer();
      fb := f;
      frameCounter := 0;
      new;
      fb.RecalculateMinSize(rows);
    }

    twostate lemma Added(new key: GroupPtr, new r: Routine)
      requires old(Wired(mapper.outputMap)) && !key.Null? && key !in old(mapper.outputMap)
      requires key.Single? ==> key.g.Bound(r)
      requires key.Uber? ==> key.u.Attached(r)
      requires forall k :: k in old(mapper.outputMap) ==> old(mapper.outputMap)[k] != r
      requires forall k :: k in mapper.outputMap && k != key ==>
          k in old(mapper.outputMap) && mapper.outputMap[k] == old(mapper.outputMap)[k]
      requires key in mapper.outputMap ==> mapper.outputMap[key] == r
      requires forall u :: u in old(mapper.Ubers()) ==> u.Kept()
      requires forall u :: u in mapper.Ubers() ==> u.Sized()
      requires forall k :: k in old(mapper.outputMap) ==>
                 old(mapper.outputMap)[k].buffer == old(mapper.outputMap[k].buffer) && (k.Single? ==> unchanged(k.g))
      ensures Wired(mapper.outputMap)
      ensures mapper.Empties() == {} ==> NoneDangles(mapper.outputMap)
    {
      var now := mapper.outputMap;
      StaysWired(old(mapper.outputMap), now - {key});
      forall k | k in now
        ensures match k
                case Null => false
                case Single(g) => g.Bound(now[k])
                case Uber(u) => u.Attached(now[k])
      {
        if k != key {
          assert k in now - {key};
        }
      }
      forall u | u in OutputMapper.UbersOf(now) && mapper.Empties() == {}
        ensures u.groups != {}
      {
        assert u in mapper.Ubers();
        assert u !in mapper.Empties();
      }
    }

    /** A removal keeps the map wired. If it found the id in no ubergroup, no empty ubergroup is left to
        dangle; otherwise the one it hit dangles exactly when it was attached and is now empty, and any
        other does if it did before. */
    twostate lemma Removed(new hit: OutputUberGroup?, id: int)
      requires mapper.Valid() && OutputMapper.PartOf(mapper.outputMap, old(mapper.outputMap))
               && old(Wired(mapper.outputMap))
      requires forall u :: u in old(mapper.Ubers()) ==> u.Kept()
      requires forall k :: k in old(mapper.outputMap) ==>
                 old(mapper.outputMap)[k].buffer == old(mapper.outputMap[k].buffer) && (k.Single? ==> unchanged(k.g))
      requires hit != null ==> hit in old(mapper.Ubers()) && mapper.Hit(hit, id)
      requires hit == null ==> mapper.Empties() == {}
      ensures Wired(mapper.outputMap)
      ensures hit == null ==> NoneDangles(mapper.outputMap)
      ensures hit != null ==>
                (NoneDangles(mapper.outputMap) <==>
                 old(NoneDangles(mapper.outputMap))
                     && !(hit.groups == {} && old(hit.Settled(mapper.outputMap[Uber(hit)]))))
    {
      var m, was := mapper.outputMap, old(mapper.outputMap);
      StaysWired(was, m);
      forall u | u in OutputMapper.UbersOf(m)
        ensures hit == null ==> u.groups != {}
        ensures hit != null && u != hit ==> u.Dangles(m[Uber(u)]) == old(u.Dangles(m[Uber(u)]))
        ensures u == hit ==> (u.Dangles(m[Uber(u)]) <==>
            u.groups == {} && old(u.Settled(m[Uber(u)]))) && !old(u.Dangles(m[Uber(u)]))
      {
        assert u in mapper.Ubers() && u in old(mapper.Ubers());
        assert hit == null ==> u !in mapper.Empties();
        assert old(u.Attached(m[Uber(u)]));
      }
    }

    /** Mapping a new key to a routine that serves nothing else. */
    method AddKey(key: GroupPtr, r: Routine) returns (outcome: OutputMapper.Outcome)
      requires Valid() && !key.Null? && key !in mapper.outputMap
      requires key.Single? ==> key.g.Bound(r)
      requires key.Uber? ==> key.u.Attached(r)
      requires forall k :: k in mapper.outputMap ==> mapper.outputMap[k] != r
      modifies mapper, mapper.Ubers()
      ensures Valid()
      ensures outcome == if key.Uber? && key.u.groups == {} then OutputMapper.InvalidUbergroup else OutputMapper.Done
      ensures outcome != OutputMapper.Done ==>
          mapper.view == old(mapper.view) && mapper.outputMap == old(mapper.outputMap)
      ensures outcome == OutputMapper.Done ==>
                && key in mapper.outputMap && mapper.outputMap[key] == r
                && mapper.view == old(mapper.view) + OutputMapper.Constant(Ids(key), r)
                && NoneDangles(mapper.outputMap)
      ensures OutputMapper.PartOf(mapper.outputMap - {key}, old(mapper.outputMap))
      ensures forall u :: u in old(OutputMapper.UbersOf(mapper.outputMap)) ==> u.groups <= old(u.groups)
    {
      hide Wired;
      hide OutputMapper.Apart;
      hide OutputMapper.Shows;
      outcome := mapper.AddMapping(key, r);
      Added(key, r);
    }

    /** A client's request: a new routine for one group, or for an ubergroup of new groups. */
    method AddMapping(rows: seq<DbGroup>, draw: (int, nat, nat) -> HSIPixel)
      returns (outcome: OutputMapper.Outcome, key: GroupPtr, r: Routine)
      requires Valid()
      modifies mapper, mapper.Ubers()
      ensures Valid() && fresh(r) && r.draw == draw && NewKey(key, rows)
      ensures outcome == if rows == [] then OutputMapper.InvalidUbergroup else OutputMapper.Done
      ensures rows == [] ==> mapper.view == old(mapper.view) && mapper.outputMap == old(mapper.outputMap)
      ensures rows != [] ==>
                && key in mapper.outputMap && mapper.outputMap[key] == r
                && mapper.view == old(mapper.view) + OutputMapper.Constant(IdSet(rows), r)
                && NoneDangles(mapper.outputMap)
      ensures OutputMapper.PartOf(mapper.outputMap - {key}, old(mapper.outputMap))
      ensures forall u :: u in old(OutputMapper.UbersOf(mapper.outputMap)) ==> u.groups <= old(u.groups)
    {
      hide OutputMapper.PartOf;
      hide OutputMapper.Constant;
      hide NoneDangles;
      hide OutputMapper.Apart;
      hide OutputMapper.Shows;
      r := new Routine(draw);
      key := MakeKey(rows);
      assert mapper.CoverNow() == old(mapper.CoverNow());
      NewKeyIsAttached(key, rows, r);
      outcome := AddKey(key, r);
      assert NewKey(key, rows);
    }

    /** One group id is taken out of the map. What that does to the next frame's safety is exact, in
        every state. */
    method RemoveMappingForGroup(g: OutputGroup) returns (hit: OutputUberGroup?)
      requires Valid()
      modifies mapper, mapper.Ubers()
      ensures Valid() && mapper.view == old(mapper.view) - {g.group.id}
      ensures OutputMapper.PartOf(mapper.outputMap, old(mapper.outputMap))
      ensures hit != null <==> exists v :: v in old(mapper.Ubers()) && g.group.id in old(IdsOf(v.groups))
      ensures hit != null ==> hit in old(mapper.Ubers()) && mapper.Hit(hit, g.group.id)
      ensures hit == null ==> forall v :: v in old(mapper.Ubers()) ==> unchanged(v)
      ensures forall v :: v in old(mapper.Ubers()) && v.groups != {} ==> v in mapper.Ubers()
      ensures hit == null ==> NoneDangles(mapper.outputMap)
      ensures hit != null ==>
                (NoneDangles(mapper.outputMap) <==>
                 old(NoneDangles(mapper.outputMap))
                     && !(hit.groups == {} && old(hit.Settled(mapper.outputMap[Uber(hit)]))))
    {
      hide Wired;
      hide NoneDangles;
      hide OutputMapper.PartOf;
      hide OutputMapper.Apart;
      hide OutputMapper.Shows;
      hit := mapper.RemoveMappingForGroup(Single(g));
      Removed(hit, g.group.id);
    }

    /** A frame changes neither what is mapped nor what is wired. */
    twostate lemma Drawn()
      requires old(Valid()) && mapper.outputMap == old(mapper.outputMap) && mapper.view == old(mapper.view)
               && Shapes(mapper.outputMap) == old(Shapes(mapper.outputMap))
      requires AllSettled(mapper.outputMap)
      requires forall k :: k in mapper.outputMap && k.Single? ==> k.g.buffer.Length == NumPixels(k.g.group)
      ensures Valid() && NoneDangles(mapper.outputMap)
    {
      hide OutputMapper.Apart;
      hide OutputMapper.Shows;
      FrameKeepsWired(mapper.outputMap);
      hide Wired;
      hide NoneDangles;
      forall k | k in mapper.outputMap
        ensures Ids(k) == old(Ids(k)) - {} && (k.Uber? ==> k.u.Sized())
      {
        if k.Uber? {
          assert Shapes(mapper.outputMap)[k.u] == old(Shapes(mapper.outputMap))[k.u];
        }
      }
      assert mapper.view == old(mapper.view) - {};
      mapper.Dropped({});
    }

    /** Draws one frame, however the groups overlap. */
    method DrawFrame()
      requires Valid() && NoneDangles(mapper.outputMap)
      requires AllFit(LayersOf(Planned(mapper.outputMap, frameCounter), mapper.outputMap.Keys), |fb.data|)
      modifies this`frameCounter, fb, ObjectsOf(mapper.outputMap)
      ensures Valid() && AllSettled(mapper.outputMap) && NoneDangles(mapper.outputMap)
      ensures Shapes(mapper.outputMap) == old(Shapes(mapper.outputMap))
      ensures mapper.view == old(mapper.view) && mapper.outputMap == old(mapper.outputMap)
      ensures frameCounter == old(frameCounter) + 1 && |fb.data| == |old(fb.data)|
      ensures var layers := old(LayersOf(Planned(mapper.outputMap, frameCounter), mapper.outputMap.Keys));
              && Painted(old(fb.data), fb.data, layers)
              && (Compatible(layers, |fb.data|) ==> Rendered(old(fb.data), fb.data, layers))
    {
      hide NoneDangles;
      hide Wired;
      hide OutputMapper.Apart;
      hide OutputMapper.Shows;
      hide Painted;
      hide Rendered;
      hide LayersOf;
      hide Planned;
      hide Compatible;
      hide AllFit;
      hide OwnRoutines;
      hide AllReady;
      hide Settled;
      SafeIsReady(mapper.outputMap);
      NoOthers(mapper.outputMap, mapper, this, fb);
      hide ObjectsOf;
      ghost var objects := ObjectsOf(mapper.outputMap);
      frameCounter := EffectRunner.CoordinatorRunEffects(mapper.outputMap, fb, frameCounter, objects);
      PaintedSize(old(fb.data), fb.data, old(LayersOf(Planned(mapper.outputMap, frameCounter), mapper.outputMap.Keys)));
      ReadySized(mapper.outputMap, objects);
      Drawn();
    }

    /** Draws one frame of a group table without gaps into a framebuffer of the summed size. If rows do not
        overlap, and repeated members are equally bright, the frame is exactly the mapped layers. */
    method CoordinatorRunEffects(ghost rows: seq<DbGroup>, ghost top: nat)
      requires Valid() && NoneDangles(mapper.outputMap)
      requires forall k, g :: k in mapper.outputMap && g in Members(k) ==> g.group in rows
      requires |fb.data| == Framebuffer.SummedPixels(rows)
      requires Framebuffer.EndsBy(rows, top) && Framebuffer.Span(0, top) <= Framebuffer.Covered(rows)
      modifies this`frameCounter, fb, ObjectsOf(mapper.outputMap)
      ensures Valid() && AllSettled(mapper.outputMap) && NoneDangles(mapper.outputMap)
      ensures Shapes(mapper.outputMap) == old(Shapes(mapper.outputMap))
      ensures mapper.view == old(mapper.view) && mapper.outputMap == old(mapper.outputMap)
      ensures frameCounter == old(frameCounter) + 1 && |fb.data| == |old(fb.data)|
      ensures var layers := old(LayersOf(Planned(mapper.outputMap, frameCounter), mapper.outputMap.Keys));
              && Painted(old(fb.data), fb.data, layers)
              && (Framebuffer.RangesApart(rows) && old(EquallyBright(mapper.outputMap)) ==>
                  Rendered(old(fb.data), fb.data, layers))
      ensures Framebuffer.RangesApart(rows) && old(EquallyBright(mapper.outputMap)) ==>
                var now := fb.data;
                old(AllRowsShown(now, mapper.outputMap, frameCounter))
    {
      hide Wired;
      hide NoneDangles;
      hide OutputMapper.Apart;
      hide OutputMapper.Shows;
      hide Painted;
      hide Rendered;
      hide Planned;
      hide LayersOf;
      hide Compatible;
      hide AllFit;
      hide EquallyBright;
      hide AllRowsShown;
      hide Framebuffer.RangesApart;
      hide Framebuffer.EndsBy;
      hide Framebuffer.Covered;
      MappedGroupsFit(mapper.outputMap, frameCounter, rows, top);
      LayersAgree(mapper, frameCounter, rows, |fb.data|);
      FramesShow(mapper.outputMap, frameCounter, fb.data);
      DrawFrame();
    }
  }

  /** Members of one ubergroup that share a row share its brightness. */
  ghost predicate EquallyBright(m: map<GroupPtr, Routine>)
    reads OutputMapper.UbersOf(m), (set k, g | k in m && g in Members(k) :: g)`brightness
  {
    forall k, g, h :: k in m && g in Members(k) && h in Members(k) && g.group == h.group ==>
        g.brightness == h.brightness
  }

  lemma LayersAgree(mapper: OutputMapper.OutputMapper, frame: int, rows: seq<DbGroup>, n: nat)
    requires mapper.Valid()
    requires forall k, g :: k in mapper.outputMap && g in Members(k) ==> g.group in rows
    ensures Framebuffer.RangesApart(rows) && EquallyBright(mapper.outputMap) ==>
              Compatible(LayersOf(Planned(mapper.outputMap, frame), mapper.outputMap.Keys), n)
  {
    if Framebuffer.RangesApart(rows) && EquallyBright(mapper.outputMap) {
      MappedGroupsAgree(mapper, frame, rows, n);
    }
  }
}
