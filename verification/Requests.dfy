/** Requests that remove several groups, and what they do to the next frame. */
module Requests {
  import opened OutputGroups
  import opened EffectRunner
  import opened Layers
  import opened Server
  import Framebuffer
  import OutputMapper

  // ---- which requests are harmful ----

  /** Each mapped ubergroup's members, and whether its routine was attached with nothing due. */
  type Before = map<OutputUberGroup, (set<OutputGroup>, bool)>

  ghost function Snapshot(m: map<GroupPtr, Routine>): Before
    reads KeyObjects(m)
  {
    map u | u in OutputMapper.UbersOf(m) :: (u.groups, u.Settled(m[Uber(u)]))
  }

  /** The ids that are in some ubergroup. */
  ghost function Grouped(before: Before): set<int> {
    set u, g | u in before && g in before[u].0 :: g.group.id
  }

  /** The ids that are all there is in an attached ubergroup. */
  ghost function Lone(before: Before): set<int> {
    set u, g | u in before && g in before[u].0 && before[u].1 && IdsOf(before[u].0) == {g.group.id} :: g.group.id
  }

  /** The k-th removal of the request finds its id in an ubergroup. */
  predicate Hits(grouped: set<int>, rows: seq<DbGroup>, k: nat)
    requires k < |rows|
  {
    rows[k].id in grouped && rows[k].id !in IdSet(rows[..k])
  }

  /** From the j-th removal on every one finds its id in an ubergroup, so none clears empty ubergroups out. */
  predicate HitsFrom(grouped: set<int>, rows: seq<DbGroup>, j: nat) {
    forall k :: j <= k < |rows| ==> Hits(grouped, rows, k)
  }

  /** Something dangled before and was never cleared out, or an attached ubergroup lost all it had to one
      removal and was not cleared out by a later one. */
  predicate LeavesDangling(grouped: set<int>, lone: set<int>, dangled: bool, rows: seq<DbGroup>) {
    || (dangled && HitsFrom(grouped, rows, 0))
    || exists j :: 0 <= j < |rows| && rows[j].id in lone && HitsFrom(grouped, rows, j)
  }

  lemma OneMoreRow(grouped: set<int>, lone: set<int>, dangled: bool, front: seq<DbGroup>, row: DbGroup)
    ensures LeavesDangling(grouped, lone, dangled, front + [row]) <==>
            row.id in grouped && row.id !in IdSet(front)
                && (LeavesDangling(grouped, lone, dangled, front) || row.id in lone)
  {
    var rows := front + [row];
    assert rows[..|front|] == front;
    forall k | 0 <= k < |front|
      ensures Hits(grouped, rows, k) == Hits(grouped, front, k)
    {
      assert rows[..k] == front[..k];
    }
    forall j | 0 <= j <= |front|
      ensures HitsFrom(grouped, rows, j) <==> HitsFrom(grouped, front, j) && Hits(grouped, rows, |front|)
    {
      if HitsFrom(grouped, rows, j) {
        forall k | j <= k < |front|
          ensures Hits(grouped, front, k)
        {
          assert Hits(grouped, rows, k);
        }
      }
    }
    assert rows[|front|] == row;
    if j :| 0 <= j < |front| && front[j].id in lone && HitsFrom(grouped, front, j) {
      assert rows[j].id in lone;
    }
    if j :| 0 <= j < |rows| && rows[j].id in lone && HitsFrom(grouped, rows, j) {
      assert j < |front| ==> front[j].id in lone;
    }
  }

  // ---- removing one by one ----

  /** How far a request has come that has removed some ids. */
  ghost predicate Progress(m: map<GroupPtr, Routine>, before: Before, ids: set<int>)
    reads KeyObjects(m)
  {
    && (forall u :: u in OutputMapper.UbersOf(m) ==>
          && u in before && u.groups == Without(before[u].0, ids)
          && (IdsOf(before[u].0) !! ids ==> u.Settled(m[Uber(u)]) == before[u].1)
          && (!(IdsOf(before[u].0) !! ids) && u.groups != {} ==> !u.Settled(m[Uber(u)])))
    && (forall u :: u in before && Without(before[u].0, ids) != {} ==> u in OutputMapper.UbersOf(m))
  }

  lemma WithoutMore(groups: set<OutputGroup>, ids: set<int>, id: int)
    ensures Without(Without(groups, ids), {id}) == Without(groups, ids + {id})
    ensures id !in IdsOf(Without(groups, ids)) ==> Without(groups, ids + {id}) == Without(groups, ids)
    ensures id in IdsOf(groups) && id !in ids ==> id in IdsOf(Without(groups, ids))
    ensures IdsOf(groups) !! ids ==> Without(groups, ids) == groups
  {
    if id in IdsOf(groups) && id !in ids {
      var g :| g in groups && g.group.id == id;
      assert g in Without(groups, ids);
    }
  }

  /** Before a removal: it hits exactly when the id was in an ubergroup and was not removed yet, and what
      it would empty while attached is exactly a lone id. */
  lemma WhatIsHit(server: Server, before: Before, ids: set<int>, id: int)
    requires server.Valid() && Progress(server.mapper.outputMap, before, ids)
    ensures (exists u :: u in server.mapper.Ubers() && id in IdsOf(u.groups)) <==> id in Grouped(before) && id !in ids
    ensures forall u :: u in server.mapper.Ubers() && id in IdsOf(u.groups) ==>
              && (Without(u.groups, {id}) == {} && u.Settled(server.mapper.outputMap[Uber(u)]) <==> id in Lone(before))
              && forall v :: v in server.mapper.Ubers() && v != u ==> id !in IdsOf(v.groups)
  {
    var m := server.mapper.outputMap;
    if id in Grouped(before) && id !in ids {
      var u, g :| u in before && g in before[u].0 && g.group.id == id;
      WithoutMore(before[u].0, ids, id);
      assert u in OutputMapper.UbersOf(m) && id in IdsOf(u.groups);
    }
    forall u | u in server.mapper.Ubers() && id in IdsOf(u.groups)
      ensures id in Grouped(before) && id !in ids
      ensures forall v :: v in server.mapper.Ubers() && v != u ==> id !in IdsOf(v.groups)
      ensures Without(u.groups, {id}) == {} && u.Settled(m[Uber(u)]) <==> id in Lone(before)
    {
      OnlyOne(server, u, id);
      HitIsLone(server, before, ids, u, id);
    }
  }

  lemma OnlyOne(server: Server, u: OutputUberGroup, id: int)
    requires server.Valid() && u in server.mapper.Ubers() && id in IdsOf(u.groups)
    ensures forall v :: v in server.mapper.Ubers() && v != u ==> id !in IdsOf(v.groups)
  {
    server.mapper.CoveredOnce(Uber(u), id);
    forall v | v in server.mapper.Ubers() && v != u
      ensures id !in IdsOf(v.groups)
    {
      assert Uber(v) in server.mapper.outputMap && id !in Ids(Uber(v));
    }
  }

  lemma HitIsLone(server: Server, before: Before, ids: set<int>, u: OutputUberGroup, id: int)
    requires server.Valid() && Progress(server.mapper.outputMap, before, ids)
    requires u in server.mapper.Ubers() && id in IdsOf(u.groups)
    ensures id in Grouped(before) && id !in ids
    ensures Without(u.groups, {id}) == {} && u.Settled(server.mapper.outputMap[Uber(u)]) <==> id in Lone(before)
  {
    var g :| g in u.groups && g.group.id == id;
    assert u in OutputMapper.UbersOf(server.mapper.outputMap);
    WithoutMore(before[u].0, ids, id);
    OnlyOne(server, u, id);
    if Without(u.groups, {id}) == {} && u.Settled(server.mapper.outputMap[Uber(u)]) {
      AllTheSame(before[u].0, id);
      assert g in before[u].0 && IdsOf(before[u].0) == {g.group.id};
    }
    if id in Lone(before) {
      var v, h :| v in before && h in before[v].0 && before[v].1 && IdsOf(before[v].0) == {h.group.id}
          && h.group.id == id;
      WithoutMore(before[v].0, ids, id);
      assert h in Without(before[v].0, ids);
      assert v in OutputMapper.UbersOf(server.mapper.outputMap) && id in IdsOf(v.groups);
      assert v == u;
      AllTheSame(u.groups, id);
    }
  }

  lemma AllTheSame(groups: set<OutputGroup>, id: int)
    requires id in IdsOf(groups)
    ensures Without(groups, {id}) == {} <==> IdsOf(groups) == {id}
  {
    if Without(groups, {id}) == {} {
      forall g | g in groups
        ensures g.group.id == id
      {
        assert g !in Without(groups, {id});
      }
    }
  }

  /** One removal of a request. */
  method RemoveGroup(server: Server, g: OutputGroup, ghost before: Before, ghost ids: set<int>)
    requires server.Valid() && Progress(server.mapper.outputMap, before, ids)
    modifies server.mapper, server.mapper.Ubers()
    ensures server.Valid() && server.mapper.view == old(server.mapper.view) - {g.group.id}
    ensures OutputMapper.PartOf(server.mapper.outputMap, old(server.mapper.outputMap))
    ensures Progress(server.mapper.outputMap, before, ids + {g.group.id})
    ensures NoneDangles(server.mapper.outputMap) <==>
            !(g.group.id in Grouped(before) && g.group.id !in ids
              && (!old(NoneDangles(server.mapper.outputMap)) || g.group.id in Lone(before)))
  {
    hide Wired;
    hide NoneDangles;
    hide OutputMapper.Apart;
    hide OutputMapper.Shows;
    hide Grouped;
    hide Lone;
    hide IdsOf;
    hide Without;
    ghost var id := g.group.id;
    WhatIsHit(server, before, ids, id);
    var hit := server.RemoveMappingForGroup(g);
    ghost var m := server.mapper.outputMap;
    forall u | u in before
      ensures u in OutputMapper.UbersOf(m) ==>
                && u.groups == Without(before[u].0, ids + {id})
                && (IdsOf(before[u].0) !! ids + {id} ==> u.Settled(m[Uber(u)]) == before[u].1)
                && (!(IdsOf(before[u].0) !! ids + {id}) && u.groups != {} ==> !u.Settled(m[Uber(u)]))
      ensures Without(before[u].0, ids + {id}) != {} ==> u in OutputMapper.UbersOf(m)
    {
      WithoutMore(before[u].0, ids, id);
      NoneLeft(before[u].0, ids, id);
    }
  }

  lemma NoneLeft(groups: set<OutputGroup>, ids: set<int>, id: int)
    ensures Without(groups, ids + {id}) != {} ==> Without(groups, ids) != {}
    ensures id in IdsOf(Without(groups, ids)) ==> !(IdsOf(groups) !! ids + {id})
  {
  }

  method RemoveRow(server: Server, row: DbGroup, ghost before: Before, ghost ids: set<int>)
    requires server.Valid() && Progress(server.mapper.outputMap, before, ids)
    modifies server.mapper, server.mapper.Ubers()
    ensures server.Valid() && server.mapper.view == old(server.mapper.view) - {row.id}
    ensures OutputMapper.PartOf(server.mapper.outputMap, old(server.mapper.outputMap))
    ensures Progress(server.mapper.outputMap, before, ids + {row.id})
    ensures NoneDangles(server.mapper.outputMap) <==>
            !(row.id in Grouped(before) && row.id !in ids
                && (!old(NoneDangles(server.mapper.outputMap)) || row.id in Lone(before)))
  {
    hide OutputMapper.Apart;
    hide OutputMapper.Shows;
    hide OutputMapper.PartOf;
    hide Grouped;
    hide Lone;
    hide IdsOf;
    hide Without;
    var g := new OutputGroup(row);
    assert server.mapper.CoverNow() == old(server.mapper.CoverNow());
    RemoveGroup(server, g, before, ids);
  }

  lemma NothingRemoved(m: map<GroupPtr, Routine>)
    ensures Progress(m, Snapshot(m), {})
  {
    forall u | u in OutputMapper.UbersOf(m)
      ensures Without(u.groups, {}) == u.groups
    {
    }
  }

  /** A client's request: the groups go one by one. It leaves the next frame unsafe exactly as said by
      LeavesDangling. */
  method RemoveMapping(server: Server, rows: seq<DbGroup>)
    requires server.Valid()
    modifies server.mapper, server.mapper.Ubers()
    ensures server.Valid() && server.mapper.view == old(server.mapper.view) - IdSet(rows)
    ensures OutputMapper.PartOf(server.mapper.outputMap, old(server.mapper.outputMap))
    ensures !NoneDangles(server.mapper.outputMap) <==>
            LeavesDangling(Grouped(old(Snapshot(server.mapper.outputMap))),
                    Lone(old(Snapshot(server.mapper.outputMap))),
                           old(!NoneDangles(server.mapper.outputMap)), rows)
  {
    hide Wired;
    hide NoneDangles;
    hide OutputMapper.Apart;
    hide OutputMapper.Shows;
    hide Progress;
    hide Snapshot;
    hide Grouped;
    hide Lone;
    ghost var before, dangled := Snapshot(server.mapper.outputMap), !NoneDangles(server.mapper.outputMap);
    NothingRemoved(server.mapper.outputMap);
    ghost var gone: set<int> := {};
    for i := 0 to |rows|
      invariant gone == IdSet(rows[..i])
      invariant server.Valid() && server.mapper.view == old(server.mapper.view) - gone
      invariant OutputMapper.PartOf(server.mapper.outputMap, old(server.mapper.outputMap))
      invariant Progress(server.mapper.outputMap, before, gone)
      invariant !NoneDangles(server.mapper.outputMap) <==>
          LeavesDangling(Grouped(before), Lone(before), dangled, rows[..i])
    {
      OneMoreRow(Grouped(before), Lone(before), dangled, rows[..i], rows[i]);
      assert rows[..i + 1] == rows[..i] + [rows[i]];
      RemoveRow(server, rows[i], before, gone);
      gone := gone + {rows[i].id};
    }
    assert rows[..|rows|] == rows;
  }

  /** If nothing dangles, a request that names no lone id is harmless. */
  lemma NoLoneIdIsSafe(before: Before, rows: seq<DbGroup>)
    requires forall row :: row in rows ==> row.id !in Lone(before)
    ensures !LeavesDangling(Grouped(before), Lone(before), false, rows)
  {
  }

  // ---- one by one, and together ----

  /** All that is mapped is one ubergroup, of groups with these rows. */
  ghost predicate Shown(server: Server, u: OutputUberGroup, r: Routine, rows: set<DbGroup>)
    reads server, server.mapper, u, u.groups, server.mapper.Ubers(), KeyObjects(server.mapper.outputMap)
  {
    server.Valid() && server.mapper.outputMap == map[Uber(u) := r] && RowsOf(u.groups) == rows
  }

  function OtherRows(rows: set<DbGroup>, id: int): set<DbGroup> {
    set row | row in rows && row.id != id
  }

  lemma RowsWithout(groups: set<OutputGroup>, id: int)
    ensures RowsOf(Without(groups, {id})) == OtherRows(RowsOf(groups), id)
  {
  }

  lemma NoRows(groups: set<OutputGroup>)
    ensures RowsOf(groups) == {} ==> groups == {}
  {
    forall g | g in groups
      ensures g.group in RowsOf(groups)
    {
    }
  }

  lemma OnlyObjects(u: OutputUberGroup, r: Routine)
    ensures ObjectsOf(map[Uber(u) := r]) == {u, r} + if u.buffer == null then {} else {u.buffer}
  {
    var m := map[Uber(u) := r];
    assert Uber(u) in m && m[Uber(u)] == r;
    assert forall k :: k in m ==> k == Uber(u);
    assert KeyObjects(m) == {u, r};
    assert u.buffer != null ==> u.buffer in ObjectsOf(m);
  }

  /** Removes one of the shown groups from an attached ubergroup. */
  method RemoveShown(server: Server, u: OutputUberGroup, r: Routine, g: OutputGroup, ghost rows: set<DbGroup>)
    requires Shown(server, u, r, rows) && g.group in rows && u.Settled(r) && NoneDangles(server.mapper.outputMap)
    modifies server.mapper, u
    ensures Shown(server, u, r, OtherRows(rows, g.group.id))
    ensures NoneDangles(server.mapper.outputMap) <==> u.groups != {}
    ensures u.buffer == null || u.buffer == old(u.buffer) || fresh(u.buffer)
  {
    hide Wired;
    hide NoneDangles;
    hide OutputMapper.Apart;
    hide OutputMapper.Shows;
    assert server.mapper.Ubers() == {u};
    assert g.group.id in IdsOf(u.groups);
    RowsWithout(u.groups, g.group.id);
    var hit := server.RemoveMappingForGroup(g);
  }

  method DrawShown(server: Server, u: OutputUberGroup, r: Routine, ghost shown: set<DbGroup>, ghost rows: seq<DbGroup>,
          ghost top: nat)
    requires Shown(server, u, r, shown) && shown <= RowSet(rows) && NoneDangles(server.mapper.outputMap)
    requires |server.fb.data| == Framebuffer.SummedPixels(rows)
    requires Framebuffer.EndsBy(rows, top) && Framebuffer.Span(0, top) <= Framebuffer.Covered(rows)
    modifies server`frameCounter, server.fb, u, r, u.buffer
    ensures Shown(server, u, r, shown) && u.Settled(r) && NoneDangles(server.mapper.outputMap)
    ensures u.buffer == old(u.buffer) && |server.fb.data| == old(|server.fb.data|)
  {
    hide Wired;
    hide NoneDangles;
    hide OutputMapper.Apart;
    hide OutputMapper.Shows;
    hide Framebuffer.EndsBy;
    hide Framebuffer.Covered;
    hide AllSettled;
    hide EquallyBright;
    hide Framebuffer.RangesApart;
    hide Framebuffer.SummedPixels;
    hide Painted;
    hide Rendered;
    hide LayersOf;
    hide Planned;
    hide ObjectsOf;
    OnlyObjects(u, r);
    MembersAmong(u, r, shown, rows);
    server.CoordinatorRunEffects(rows, top);
    SettledOne(u, r);
    assert Shapes(server.mapper.outputMap)[u] == old(Shapes(server.mapper.outputMap))[u];
  }

  lemma MembersAmong(u: OutputUberGroup, r: Routine, shown: set<DbGroup>, rows: seq<DbGroup>)
    requires RowsOf(u.groups) == shown <= RowSet(rows)
    ensures forall k, g :: k in map[Uber(u) := r] && g in Members(k) ==> g.group in rows
  {
    forall g | g in u.groups
      ensures g.group in rows
    {
      assert g.group in RowsOf(u.groups);
    }
  }

  lemma SettledOne(u: OutputUberGroup, r: Routine)
    ensures AllSettled(map[Uber(u) := r]) ==> u.Settled(r)
  {
    var m := map[Uber(u) := r];
    assert Uber(u) in m && m[Uber(u)] == r;
    assert AllSettled(m) ==> Settled(Uber(u), m[Uber(u)]);
  }

  /** An ubergroup without members shows nothing and is still mapped. */
  lemma ShownNothing(server: Server, u: OutputUberGroup, r: Routine)
    requires Shown(server, u, r, {})
    ensures server.mapper.view == map[] && Uber(u) in server.mapper.outputMap && u.groups == {}
    ensures server.Valid() && (Safe(server.mapper.outputMap) <==> NoneDangles(server.mapper.outputMap))
  {
    NoRows(u.groups);
    assert forall k :: k in server.mapper.CoverNow() ==> server.mapper.CoverNow()[k] == {};
    assert forall id :: id !in server.mapper.view;
    SafeExactly(server.mapper.outputMap);
  }

  method ShowBoth(server: Server, a: DbGroup, b: DbGroup, draw: (int, nat, nat) -> HSIPixel)
    returns (u: OutputUberGroup, r: Routine)
    requires server.Valid() && server.mapper.outputMap == map[]
    modifies server.mapper
    ensures Shown(server, u, r, {a, b}) && NoneDangles(server.mapper.outputMap)
    ensures fresh(u) && fresh(r) && (u.buffer != null ==> fresh(u.buffer))
  {
    hide Wired;
    hide NoneDangles;
    hide OutputMapper.Apart;
    hide OutputMapper.Shows;
    assert server.mapper.Ubers() == {};
    var outcome, key, routine := server.AddMapping([a, b], draw);
    u, r := key.u, routine;
    assert server.mapper.outputMap - {key} == map[];
    assert RowSet([a, b]) == {a, b};
  }

  lemma SomeRow(server: Server, u: OutputUberGroup, r: Routine, b: DbGroup)
    requires Shown(server, u, r, {b})
    ensures u.groups != {}
  {
    assert b in RowsOf(u.groups);
  }

  /** A new server, two groups mapped together, and one frame. */
  method DrawBoth(a: DbGroup, b: DbGroup, draw: (int, nat, nat) -> HSIPixel, ghost top: nat)
    returns (server: Server, u: OutputUberGroup, r: Routine)
    requires Framebuffer.EndsBy([a, b], top) && Framebuffer.Span(0, top) <= Framebuffer.Covered([a, b])
    ensures Shown(server, u, r, {a, b}) && u.Settled(r) && NoneDangles(server.mapper.outputMap)
    ensures |server.fb.data| == Framebuffer.SummedPixels([a, b])
    ensures fresh(server) && fresh(server.mapper) && fresh(server.fb)
    ensures fresh(u) && fresh(r) && (u.buffer != null ==> fresh(u.buffer))
  {
    hide Shown;
    hide Wired;
    hide NoneDangles;
    hide Safe;
    hide Framebuffer.EndsBy;
    hide Framebuffer.Covered;
    hide Framebuffer.SummedPixels;
    hide OutputMapper.Apart;
    hide OutputMapper.Shows;
    server := new Server([a, b]);
    u, r := ShowBoth(server, a, b, draw);
    assert RowSet([a, b]) == {a, b};
    DrawShown(server, u, r, {a, b}, [a, b], top);
  }

  /** Why a frame may not be drawn in every state the server gets into: two groups are mapped together
      and drawn; one is removed, and a frame drawn; the other is removed. The ubergroup stays mapped, and
      the next frame would draw into its freed buffer. */
  method RemovedOneByOne(a: DbGroup, b: DbGroup, draw: (int, nat, nat) -> HSIPixel, ghost top: nat)
    returns (server: Server, u: OutputUberGroup)
    requires a.id != b.id
    requires Framebuffer.EndsBy([a, b], top) && Framebuffer.Span(0, top) <= Framebuffer.Covered([a, b])
    ensures server.Valid() && server.mapper.view == map[]
    ensures Uber(u) in server.mapper.outputMap && u.groups == {} && !Safe(server.mapper.outputMap)
  {
    hide Shown;
    hide Wired;
    hide NoneDangles;
    hide Safe;
    hide Framebuffer.EndsBy;
    hide Framebuffer.Covered;
    hide Framebuffer.SummedPixels;
    hide OutputMapper.Apart;
    hide OutputMapper.Shows;
    var oa := new OutputGroup(a);
    var ob := new OutputGroup(b);
    var r;
    server, u, r := DrawBoth(a, b, draw, top);
    assert b in RowSet([a, b]);
    RemoveShown(server, u, r, oa, {a, b});
    assert OtherRows({a, b}, a.id) == {b};
    SomeRow(server, u, r, b);
    DrawShown(server, u, r, {b}, [a, b], top);
    RemoveShown(server, u, r, ob, {b});
    assert OtherRows({b}, b.id) == {};
    ShownNothing(server, u, r);
  }

  lemma NoneIsLone(server: Server, u: OutputUberGroup, r: Routine, a: DbGroup, b: DbGroup)
    requires Shown(server, u, r, {a, b}) && a.id != b.id
    ensures server.Valid() && server.mapper.Ubers() == {u} && Lone(Snapshot(server.mapper.outputMap)) == {}
  {
    assert a in RowsOf(u.groups) && b in RowsOf(u.groups);
    assert a.id in IdsOf(u.groups) && b.id in IdsOf(u.groups);
  }

  /** The same two groups removed in one request leave the next frame safe. */
  method RemovedTogether(a: DbGroup, b: DbGroup, draw: (int, nat, nat) -> HSIPixel, ghost top: nat)
    returns (server: Server)
    requires a.id != b.id
    requires Framebuffer.EndsBy([a, b], top) && Framebuffer.Span(0, top) <= Framebuffer.Covered([a, b])
    ensures server.Valid() && Safe(server.mapper.outputMap)
  {
    hide Shown;
    hide Wired;
    hide NoneDangles;
    hide Safe;
    hide LeavesDangling;
    hide Framebuffer.EndsBy;
    hide Framebuffer.Covered;
    hide Framebuffer.SummedPixels;
    hide OutputMapper.Apart;
    hide OutputMapper.Shows;
    var u, r;
    server, u, r := DrawBoth(a, b, draw, top);
    NoneIsLone(server, u, r, a, b);
    NoLoneIdIsSafe(Snapshot(server.mapper.outputMap), [a, b]);
    RemoveMapping(server, [a, b]);
    SafeExactly(server.mapper.outputMap);
  }
}
