/** The map from groups and ubergroups to routines, which behaves like a map from group ids. */
module OutputMapper {
  import opened OutputGroups

  /** Which ids each key covers. */
  type Cover = map<GroupPtr, set<int>>

  // ---- the invariant, on values ----

  /** No two keys cover the same id. */
  ghost predicate Apart(cover: Cover) {
    forall k, l :: k in cover && l in cover && k != l ==> cover[k] !! cover[l]
  }

  /** The view holds the routine of every covered id, and no others. */
  ghost predicate Shows(cover: Cover, routines: map<GroupPtr, Routine>, view: map<int, Routine>) {
    && cover.Keys == routines.Keys
    && (forall k, id :: k in cover && id in cover[k] ==> id in view && view[id] == routines[k])
    && (forall id :: id in view ==> exists k :: k in cover && id in cover[k])
  }

  /** Taking ids away from every key, and dropping keys that are left with nothing, takes those ids
      away from the view and keeps every other id's routine. */
  lemma DropIds(cover: Cover, routines: map<GroupPtr, Routine>, view: map<int, Routine>, ids: set<int>,
                cover': Cover, routines': map<GroupPtr, Routine>)
    requires Apart(cover) && Shows(cover, routines, view)
    requires cover'.Keys == routines'.Keys <= cover.Keys
    requires forall k :: k in cover' ==> cover'[k] == cover[k] - ids && routines'[k] == routines[k]
    requires forall k :: k in cover && k !in cover' ==> cover[k] <= ids
    ensures Apart(cover') && Shows(cover', routines', view - ids)
  {
    forall id | id in view - ids
      ensures exists k :: k in cover' && id in cover'[k]
    {
      var k :| k in cover && id in cover[k];
      assert k in cover' && id in cover'[k];
    }
  }

  function Constant(ids: set<int>, r: Routine): map<int, Routine> {
    map id | id in ids :: r
  }

  /** A new key over ids that are not shown yet shows them, and nothing else changes. */
  lemma InsertKey(cover: Cover, routines: map<GroupPtr, Routine>, view: map<int, Routine>,
                  k: GroupPtr, ids: set<int>, r: Routine)
    requires Apart(cover) && Shows(cover, routines, view)
    requires k !in cover && forall id :: id in ids ==> id !in view
    ensures Apart(cover[k := ids])
    ensures Shows(cover[k := ids], routines[k := r], view + Constant(ids, r))
  {
    var cover', routines', view' := cover[k := ids], routines[k := r], view + Constant(ids, r);
    forall l | l in cover
      ensures cover[l] !! ids
    {
      forall id | id in cover[l]
        ensures id !in ids
      {
        assert id in view;
      }
    }
    forall l, id | l in cover' && id in cover'[l]
      ensures id in view' && view'[id] == routines'[l]
    {
    }
    forall id | id in view'
      ensures exists l :: l in cover' && id in cover'[l]
    {
      if id in ids {
        assert k in cover' && id in cover'[k];
      } else {
        var l :| l in cover && id in cover[l];
        assert l in cover' && id in cover'[l];
      }
    }
  }

  lemma WithoutIds(groups: set<OutputGroup>, ids: set<int>)
    ensures IdsOf(Without(groups, ids)) == IdsOf(groups) - ids
  {
  }

  /** operator== on groups: same row id, and never equal if either is an ubergroup. */
  predicate SameGroup(k: GroupPtr, l: GroupPtr) {
    k.Single? && l.Single? && k.g.group.id == l.g.group.id
  }

  /** Some of the entries of a map, and no others. */
  ghost predicate PartOf(part: map<GroupPtr, Routine>, whole: map<GroupPtr, Routine>) {
    forall k :: k in part ==> k in whole && part[k] == whole[k]
  }

  /** The ubergroups among the keys. */
  ghost function UbersOf(m: map<GroupPtr, Routine>): set<OutputUberGroup> {
    set k | k in m && k.Uber? :: k.u
  }

  datatype Outcome = Done | InvalidUbergroup

  /** The key is the group with this id, or an ubergroup with such a member. */
  ghost predicate HasId(k: GroupPtr, id: int)
    reads (match k case Uber(u) => {u} case _ => {})`groups
  {
    || (k.Single? && k.g.group.id == id)
    || (k.Uber? && exists g :: g in k.u.groups && g.group.id == id)
  }

  class OutputMapper {
    var outputMap: map<GroupPtr, Routine>

    /** The routine of every mapped group id. */
    ghost var view: map<int, Routine>

    ghost function Ubers(): set<OutputUberGroup>
      reads this
    {
      UbersOf(outputMap)
    }

    ghost function CoverNow(): Cover
      reads this, Ubers()
    {
      map k | k in outputMap :: Ids(k)
    }

    ghost predicate Valid()
      reads this, Ubers()
    {
      && Null !in outputMap
      && Apart(CoverNow())
      && Shows(CoverNow(), outputMap, view)
      && forall u :: u in Ubers() ==> u.Sized()
    }

    ghost function Empties(): set<OutputUberGroup>
      reads this, Ubers()
    {
      set u | u in Ubers() && u.groups == {}
    }

    /** The one argument all removals share: ids went away everywhere, and nothing else changed. */
    twostate lemma Dropped(ids: set<int>)
      requires old(Valid()) && view == old(view) - ids
      requires forall k :: k in outputMap ==> k in old(outputMap) && outputMap[k] == old(outputMap)[k]
      requires forall k :: k in outputMap ==> Ids(k) == old(Ids(k)) - ids
      requires forall k :: k in old(outputMap) && k !in outputMap ==> old(Ids(k)) <= ids
      requires forall k :: k in outputMap && k.Uber? ==> k.u.Sized()
      ensures Valid()
    {
      DropIds(old(CoverNow()), old(outputMap), old(view), ids, CoverNow(), outputMap);
    }

    /** An id is covered by one key at most. */
    lemma CoveredOnce(k: GroupPtr, id: int)
      requires Valid() && k in outputMap && id in Ids(k)
      ensures forall l :: l in outputMap && l != k ==> id !in Ids(l)
    {
      forall l | l in outputMap && l != k
        ensures id !in Ids(l)
      {
        assert CoverNow()[l] !! CoverNow()[k];
      }
    }

    /** An id shows a routine exactly when the routine's key is that group, or an ubergroup with that group
        in it; and there is one such key at most. */
    lemma ViewIs(id: int, r: Routine)
      requires Valid()
      ensures id in view && view[id] == r <==> exists k :: k in outputMap && outputMap[k] == r && HasId(k, id)
      ensures forall k, l :: k in outputMap && l in outputMap && HasId(k, id) && HasId(l, id) ==> k == l
    {
      forall k | k in outputMap
        ensures HasId(k, id) <==> id in CoverNow()[k]
      {
      }
    }

    constructor ()
      ensures Valid() && view == map[] && outputMap == map[]
    {
      outputMap := map[];
      view := map[];
    }

    /** The loop that drops empty ubergroups. */
    method EraseEmpties()
      modifies this`outputMap
      ensures outputMap == map k | k in old(outputMap) && !(k.Uber? && k.u.groups == {}) :: old(outputMap)[k]
    {
      var todo := outputMap.Keys;
      while todo != {}
        invariant todo <= outputMap.Keys <= old(outputMap).Keys
        invariant forall k :: k in outputMap <==> k in old(outputMap) && (k in todo || !(k.Uber? && k.u.groups == {}))
        invariant forall k :: k in outputMap ==> outputMap[k] == old(outputMap)[k]
      {
        var k :| k in todo;
        todo := todo - {k};
        if k.Uber? && |k.u.groups| == 0 {
          outputMap := outputMap - {k};
        }
      }
    }

    /** Drops the keys of empty ubergroups, which show nothing. */
    method RemoveEmptyUbergroups()
      requires Valid()
      modifies this`outputMap
      ensures Valid()
      ensures Ubers() <= old(Ubers()) && Empties() == {}
      ensures forall k :: k in old(outputMap) && !k.Uber? ==> k in outputMap && outputMap[k] == old(outputMap)[k]
      ensures forall u :: u in old(Ubers()) && u.groups != {} ==> u in Ubers()
      ensures PartOf(outputMap, old(outputMap))
    {
      EraseEmpties();
      hide Apart;
      hide Shows;
      assert view - {} == view;
      Dropped({});
    }

    method EraseSingles(g: GroupPtr) returns (deleted: bool)
      modifies this`outputMap
      ensures deleted <==> exists k :: k in old(outputMap) && SameGroup(k, g)
      ensures !deleted ==> outputMap == old(outputMap)
      ensures outputMap == map k | k in old(outputMap) && !SameGroup(k, g) :: old(outputMap)[k]
    {
      deleted := false;
      var todo := outputMap.Keys;
      while todo != {}
        invariant todo <= outputMap.Keys <= old(outputMap).Keys
        invariant forall k :: k in outputMap <==> k in old(outputMap) && (k in todo || !SameGroup(k, g))
        invariant forall k :: k in outputMap ==> outputMap[k] == old(outputMap)[k]
        invariant deleted ==> exists k :: k in old(outputMap) && SameGroup(k, g)
        invariant !deleted ==> outputMap == old(outputMap)
      {
        var k :| k in todo;
        todo := todo - {k};
        if SameGroup(k, g) {
          outputMap := outputMap - {k};
          deleted := true;
        }
      }
    }

    twostate lemma DroppedSingles(new x: GroupPtr, new g: GroupPtr)
      requires old(Valid()) && x in old(outputMap) && SameGroup(x, g)
      requires outputMap == map k | k in old(outputMap) && !SameGroup(k, g) :: old(outputMap)[k]
      requires forall k :: k in old(outputMap) ==> Ids(k) == old(Ids(k))
      ensures forall k :: k in outputMap ==> Ids(k) == old(Ids(k)) - {g.g.group.id}
      ensures forall k :: k in old(outputMap) && k !in outputMap ==> old(Ids(k)) <= {g.g.group.id}
    {
    }

    method RemoveSingles(g: GroupPtr) returns (deleted: bool)
      requires Valid()
      modifies this`outputMap, this`view
      ensures Valid()
      ensures deleted ==> g.Single?
      ensures view == if deleted && g.Single? then old(view) - {g.g.group.id} else old(view)
      ensures !deleted ==> outputMap == old(outputMap) && forall k :: k in outputMap ==> !SameGroup(k, g)
      ensures deleted <==> exists k :: k in old(outputMap) && SameGroup(k, g)
      ensures Ubers() == old(Ubers()) && PartOf(outputMap, old(outputMap))
    {
      hide Apart;
      hide Shows;
      hide IdsOf;
      deleted := EraseSingles(g);
      if deleted {
        ghost var x: GroupPtr :| x in old(outputMap) && SameGroup(x, g);
        DroppedSingles(x, g);
        view := view - {g.g.group.id};
        Dropped({g.g.group.id});
      } else {
        assert view - {} == view;
        Dropped({});
      }
    }

    /** A group that is mapped by itself is in no ubergroup. */
    lemma MappedOnce(g: GroupPtr)
      requires Valid()
      ensures forall k, u :: k in outputMap && SameGroup(k, g) && u in Ubers() ==> g.g.group.id !in IdsOf(u.groups)
    {
      forall k, u | k in outputMap && SameGroup(k, g) && u in Ubers()
        ensures g.g.group.id !in IdsOf(u.groups)
      {
        assert g.g.group.id in Ids(k);
        CoveredOnce(k, g.g.group.id);
        assert Uber(u) in outputMap;
      }
    }

    /** The search through the ubergroups, which ends at the first hit. */
    method FindUbergroup(id: int) returns (u: OutputUberGroup?)
      ensures u != null ==> u in Ubers() && id in IdsOf(u.groups)
      ensures u == null ==> forall v :: v in Ubers() ==> id !in IdsOf(v.groups)
    {
      var todo := outputMap.Keys;
      while todo != {}
        invariant todo <= outputMap.Keys
        invariant forall k :: k in outputMap && k !in todo && k.Uber? ==> id !in IdsOf(k.u.groups)
      {
        var k :| k in todo;
        todo := todo - {k};
        if k.Uber? {
          var contains := k.u.ContainsMember(id);
          if contains {
            return k.u;
          }
        }
      }
      u := null;
    }

    /** Taking a member out of the first ubergroup that has it takes its id out of the whole map,
        because no other key can cover that id. */
    method RemoveFrom(u: OutputUberGroup, id: int)
      requires Valid() && u in Ubers() && id in IdsOf(u.groups)
      modifies this`view, u
      ensures Valid() && outputMap == old(outputMap)
      ensures view == old(view) - {id}
      ensures u.groups == Without(old(u.groups), {id}) && u.Kept()
      ensures if u.buffer == null then u.bufferChanged == old(u.bufferChanged) else u.bufferChanged
    {
      assert Uber(u) in outputMap;
      CoveredOnce(Uber(u), id);
      WithoutIds(u.groups, {id});
      hide Apart;
      hide Shows;
      u.RemoveMember(id);
      view := view - {id};
      hide Without;
      hide IdsOf;
      forall k | k in outputMap
        ensures Ids(k) == old(Ids(k)) - {id}
      {
        if k != Uber(u) {
          assert Ids(k) == old(Ids(k));
        }
      }
      Dropped({id});
    }

    /** What a removal that ends at its first hit did: one ubergroup lost its members with the id. */
    twostate predicate Hit(u: OutputUberGroup, id: int)
      reads this, Ubers(), u
    {
      && outputMap == old(outputMap) && Uber(u) in outputMap
      && id in old(IdsOf(u.groups)) && u.groups == Without(old(u.groups), {id}) && u.Kept()
      && (if u.buffer == null then u.bufferChanged == old(u.bufferChanged) else u.bufferChanged)
      && forall v :: v in old(Ubers()) && v != u ==> unchanged(v)
    }

    /** The first ubergroup that has the id loses it, and nothing happens to any other. */
    method RemoveFromUbergroup(id: int) returns (u: OutputUberGroup?)
      requires Valid()
      requires forall k :: k in outputMap && k.Single? ==> k.g.group.id != id
      modifies this`view, Ubers()
      ensures Valid() && outputMap == old(outputMap)
      ensures view == old(view) - {id}
      ensures u == null <==> forall v :: v in old(Ubers()) ==> id !in old(IdsOf(v.groups))
      ensures u != null ==> u in old(Ubers()) && Hit(u, id)
      ensures u == null ==> forall v :: v in old(Ubers()) ==> unchanged(v)
    {
      u := FindUbergroup(id);
      if u != null {
        RemoveFrom(u, id);
      } else {
        forall k | k in outputMap
          ensures id !in CoverNow()[k]
        {
        }
        assert id !in view;
      }
    }

    /** Forgets one group id, wherever it is mapped. An ubergroup compares unequal to everything. Only
        when the id was found in an ubergroup are empty ubergroups left where they are, this one
        included; in every other case none stays mapped. */
    method RemoveMappingForGroup(g: GroupPtr) returns (hit: OutputUberGroup?)
      requires Valid()
      modifies this, Ubers()
      ensures Valid()
      ensures view == if g.Single? then old(view) - {g.g.group.id} else old(view)
      ensures PartOf(outputMap, old(outputMap))
      ensures hit != null <==> g.Single? && exists v :: v in old(Ubers()) && g.g.group.id in old(IdsOf(v.groups))
      ensures forall v :: v in old(Ubers()) && v.groups != {} ==> v in Ubers()
      ensures hit != null ==> hit in old(Ubers()) && Hit(hit, g.g.group.id)
      ensures hit == null ==> forall v :: v in old(Ubers()) ==> unchanged(v)
      ensures forall v :: v in old(Ubers()) ==> v.Kept()
      ensures hit == null && !g.Null? ==> Empties() == {}
      ensures g.Null? ==> outputMap == old(outputMap)
    {
      hide Apart;
      hide Shows;
      hide IdsOf;
      hit := null;
      if g.Null? {
        return;
      }
      MappedOnce(g);
      var deleted := RemoveSingles(g);
      if !deleted && g.Single? {
        hit := RemoveFromUbergroup(g.g.group.id);
        if hit != null {
          return;
        }
      }
      RemoveEmptyUbergroups();
    }

    /** The loop that drops ubergroups with the very same members. */
    method EraseEqual(ug: OutputUberGroup)
      modifies this`outputMap
      ensures outputMap == map k | k in old(outputMap) && !(k.Uber? && k.u.groups == ug.groups) :: old(outputMap)[k]
    {
      var todo := outputMap.Keys;
      while todo != {}
        invariant todo <= outputMap.Keys <= old(outputMap).Keys
        invariant forall k :: k in outputMap <==>
            k in old(outputMap) && (k in todo || !(k.Uber? && k.u.groups == ug.groups))
        invariant forall k :: k in outputMap ==> outputMap[k] == old(outputMap)[k]
      {
        var k :| k in todo;
        todo := todo - {k};
        if k.Uber? && k.u.groups == ug.groups {
          outputMap := outputMap - {k};
        }
      }
    }

    /** One mapped ubergroup loses every member of the new one. */
    method Strip(u: OutputUberGroup, ug: OutputUberGroup)
      requires u != ug && u.Sized()
      modifies u`groups, u`buffer, u`bufferChanged, u`freed
      ensures u.groups == Without(old(u.groups), IdsOf(ug.groups)) && u.Sized() && u.Kept()
    {
      var todo := ug.groups;
      while todo != {}
        invariant todo <= ug.groups
        invariant u.groups == Without(old(u.groups), IdsOf(ug.groups - todo)) && u.Sized() && u.Kept()
      {
        var member :| member in todo;
        todo := todo - {member};
        var contains := u.ContainsMember(member.group.id);
        assert IdsOf(ug.groups - todo) == IdsOf(ug.groups - todo - {member}) + {member.group.id};
        if contains {
          u.RemoveMember(member.group.id);
        }
      }
      assert ug.groups - todo == ug.groups;
    }

    /** The loop over all mapped ubergroups. */
    method StripAll(ug: OutputUberGroup)
      requires ug !in Ubers() && forall u :: u in Ubers() ==> u.Sized()
      modifies Ubers()
      ensures outputMap == old(outputMap) && Ubers() == old(Ubers())
      ensures forall u :: u in Ubers() ==> u.groups == Without(old(u.groups), IdsOf(ug.groups)) && u.Sized()
      ensures forall u :: u in old(Ubers()) ==> u.Kept()
    {
      hide Without;
      hide IdsOf;
      var todo := outputMap.Keys;
      while todo != {}
        invariant todo <= outputMap.Keys
        invariant forall u :: u in Ubers() ==> u.Sized()
        invariant forall u :: u in old(Ubers()) ==> u.Kept() && (Uber(u) in todo ==> unchanged(u))
        invariant forall k :: k in outputMap && k.Uber? ==>
                    k.u.groups == if k in todo then old(k.u.groups) else Without(old(k.u.groups), IdsOf(ug.groups))
      {
        var k :| k in todo;
        todo := todo - {k};
        if k.Uber? {
          Strip(k.u, ug);
        }
      }
    }

    /** For every member, the loop that drops the groups equal to it. */
    method EraseMembers(ug: OutputUberGroup)
      modifies this`outputMap
      ensures outputMap == map k | k in old(outputMap)
              && !(k.Single? && k.g.group.id in IdsOf(ug.groups)) :: old(outputMap)[k]
    {
      var members := ug.groups;
      while members != {}
        invariant members <= ug.groups
        invariant outputMap.Keys <= old(outputMap).Keys
        invariant forall k :: k in outputMap <==>
                    k in old(outputMap) && !(k.Single? && k.g.group.id in IdsOf(ug.groups - members))
        invariant forall k :: k in outputMap ==> outputMap[k] == old(outputMap)[k]
      {
        var member :| member in members;
        members := members - {member};
        assert IdsOf(ug.groups - members) == IdsOf(ug.groups - members - {member}) + {member.group.id};
        var deleted := EraseSingles(Single(member));
      }
      assert ug.groups - members == ug.groups;
    }

    twostate lemma Stripped(ids: set<int>)
      requires forall k :: k in outputMap ==> k in old(outputMap)
      requires forall k :: k in outputMap && k.Single? ==> k.g.group.id !in ids
      requires forall k :: k in outputMap && k.Uber? ==> k.u.groups == Without(old(k.u.groups), ids)
      ensures forall k :: k in outputMap ==> Ids(k) == old(Ids(k)) - ids
    {
      hide Without;
      forall k | k in outputMap
        ensures Ids(k) == old(Ids(k)) - ids
      {
        if k.Uber? {
          WithoutIds(old(k.u.groups), ids);
        }
      }
    }

    /** The three loops one after the other. */
    method EraseAndStrip(ug: OutputUberGroup)
      requires forall u :: u in Ubers() ==> u.Sized()
      modifies this`outputMap, Ubers()
      ensures unchanged(ug)
      ensures outputMap == map k | k in old(outputMap) && !(k.Uber? && old(k.u.groups) == ug.groups)
                                   && !(k.Single? && k.g.group.id in IdsOf(ug.groups)) :: old(outputMap)[k]
      ensures forall u :: u in Ubers() ==> u.groups == Without(old(u.groups), IdsOf(ug.groups)) && u.Sized()
      ensures forall u :: u in old(Ubers()) ==> u.Kept()
    {
      hide Without;
      hide IdsOf;
      EraseEqual(ug);
      StripAll(ug);
      EraseMembers(ug);
    }

    method RemoveMappingsInUbergroup(ug: OutputUberGroup)
      requires Valid()
      modifies this`outputMap, this`view, Ubers()
      ensures Valid() && Uber(ug) !in outputMap
      ensures unchanged(ug)
      ensures view == old(view) - IdsOf(ug.groups)
      ensures PartOf(outputMap, old(outputMap))
      ensures forall u :: u in old(Ubers()) ==> u.Kept()
    {
      hide Apart;
      hide Shows;
      hide Without;
      EraseAndStrip(ug);
      view := view - IdsOf(ug.groups);
      Stripped(IdsOf(ug.groups));
      Dropped(IdsOf(ug.groups));
    }

    /** Two keys never share a member. */
    lemma MembersApart(k: GroupPtr, l: GroupPtr)
      requires Valid() && k in outputMap && l in outputMap && k != l
      ensures Members(k) !! Members(l)
    {
      assert CoverNow()[k] !! CoverNow()[l];
      forall g | g in Members(k)
        ensures g !in Members(l)
      {
        assert g.group.id in Ids(k);
      }
    }

    /** The list holds exactly the members of some keys. */
    ghost predicate Lists(groups: seq<OutputGroup>, keys: set<GroupPtr>)
      reads this, Ubers()
      requires keys <= outputMap.Keys
    {
      && (forall g :: g in groups ==> exists k :: k in keys && g in Members(k))
      && (forall k, g :: k in keys && g in Members(k) ==> g in groups)
    }

    lemma NothingListed()
      ensures Lists([], {}) && Distinct([])
    {
    }

    lemma NotListedYet(groups: seq<OutputGroup>, keys: set<GroupPtr>, k: GroupPtr)
      requires Valid() && keys <= outputMap.Keys && Lists(groups, keys) && k in outputMap && k !in keys
      ensures forall g :: g in groups ==> g !in Members(k)
    {
      forall g | g in groups
        ensures g !in Members(k)
      {
        var l :| l in keys && g in Members(l);
        MembersApart(k, l);
      }
    }

    lemma ListsOneMore(groups: seq<OutputGroup>, keys: set<GroupPtr>, k: GroupPtr, more: seq<OutputGroup>)
      requires keys <= outputMap.Keys && Lists(groups, keys) && k in outputMap
      requires forall g :: g in more <==> g in groups || g in Members(k)
      ensures Lists(more, keys + {k})
    {
      forall g | g in more
        ensures exists l :: l in keys + {k} && g in Members(l)
      {
        if g in groups {
          var l :| l in keys && g in Members(l);
          assert l in keys + {k} && g in Members(l);
        } else {
          assert k in keys + {k} && g in Members(k);
        }
      }
    }

    method AppendKey(groups: seq<OutputGroup>, ghost done: set<GroupPtr>, k: GroupPtr) returns (more: seq<OutputGroup>)
      requires Valid() && done <= outputMap.Keys && k in outputMap && k !in done
      requires Lists(groups, done) && Distinct(groups)
      ensures Lists(more, done + {k}) && Distinct(more)
    {
      NotListedYet(groups, done, k);
      hide Apart;
      hide Shows;
      hide Distinct;
      more := AppendMembers(groups, k);
      ListsOneMore(groups, done, k, more);
    }

    /** Lists every mapped group, ubergroup members included, once each. */
    method GetAllGroups() returns (groups: seq<OutputGroup>)
      requires Valid()
      ensures Lists(groups, outputMap.Keys) && Distinct(groups)
    {
      hide Apart;
      hide Shows;
      hide Lists;
      hide Distinct;
      NothingListed();
      groups := [];
      var todo := outputMap.Keys;
      ghost var done: set<GroupPtr> := {};
      while todo != {}
        invariant todo + done == outputMap.Keys && todo !! done
        invariant Lists(groups, done) && Distinct(groups)
      {
        var k :| k in todo;
        assert CoverNow() == old(CoverNow());
        groups := AppendKey(groups, done, k);
        todo := todo - {k};
        done := done + {k};
      }
      assert done == outputMap.Keys;
    }

    /** The listed groups have exactly the ids that are mapped. */
    lemma AllShown(groups: seq<OutputGroup>)
      requires Valid() && Lists(groups, outputMap.Keys)
      ensures forall id :: id in view <==> exists g :: g in groups && g.group.id == id
    {
      forall id
        ensures id in view <==> exists g :: g in groups && g.group.id == id
      {
        if id in view {
          var k :| k in CoverNow() && id in CoverNow()[k];
          var g :| g in Members(k) && g.group.id == id;
          assert g in groups;
        }
        if g: OutputGroup :| g in groups && g.group.id == id {
          var k :| k in outputMap && g in Members(k);
          assert id in CoverNow()[k];
        }
      }
    }

    method AppendMembers(before: seq<OutputGroup>, k: GroupPtr) returns (groups: seq<OutputGroup>)
      requires !k.Null?
      requires forall g :: g in before ==> g !in Members(k)
      requires Distinct(before)
      ensures forall g :: g in groups <==> g in before || g in Members(k)
      ensures Distinct(groups)
    {
      groups := before;
      if k.Uber? {
        var todo := k.u.groups;
        while todo != {}
          invariant todo <= k.u.groups
          invariant forall g :: g in groups <==> g in before || g in k.u.groups - todo
          invariant Distinct(groups)
        {
          var member :| member in todo;
          todo := todo - {member};
          groups := groups + [member];
        }
      } else {
        assert k.g in Members(k);
        groups := groups + [k.g];
      }
    }

    /** A key none of whose ids is shown is not in the map. */
    lemma NotMapped(g: GroupPtr)
      requires Valid() && (forall id :: id in Ids(g) ==> id !in view) && Ids(g) != {}
      ensures g !in outputMap
    {
      var id :| id in Ids(g);
      assert id !in view;
    }

    method Insert(g: GroupPtr, r: Routine)
      requires Valid() && !g.Null?
      requires g.Uber? ==> g.u.Sized()
      requires Ids(g) != {} && (forall id :: id in Ids(g) ==> id !in view) && Empties() == {}
      modifies this`outputMap, this`view
      ensures Valid() && Empties() == {}
      ensures outputMap == old(outputMap)[g := r]
      ensures view == old(view) + Constant(Ids(g), r)
    {
      NotMapped(g);
      SomeMember(g);
      outputMap := outputMap[g := r];
      view := view + Constant(Ids(g), r);
      Inserted(g, r);
    }

    lemma SomeMember(g: GroupPtr)
      requires Ids(g) != {}
      ensures Members(g) != {}
    {
    }

    twostate lemma Inserted(new g: GroupPtr, new r: Routine)
      requires old(Valid()) && !g.Null?
      requires g !in old(outputMap) && (forall id :: id in Ids(g) ==> id !in old(view))
      requires outputMap == old(outputMap)[g := r]
      requires view == old(view) + Constant(Ids(g), r)
      requires forall k :: k in old(outputMap) ==> Ids(k) == old(Ids(k))
      requires forall k :: k in outputMap && k.Uber? ==> k.u.Sized()
      ensures Valid()
    {
      hide IdsOf;
      InsertKey(old(CoverNow()), old(outputMap), old(view), g, Ids(g), r);
      hide Apart;
      hide Shows;
      assert CoverNow() == old(CoverNow())[g := Ids(g)];
    }

    /** Maps the ids of a group or ubergroup to a routine, taking them from whatever had them. */
    method AddMapping(g: GroupPtr, r: Routine?) returns (outcome: Outcome)
      requires Valid()
      requires g.Uber? ==> g.u.Sized()
      modifies this, Ubers()
      ensures Valid()
      ensures outcome == if r != null && g.Uber? && old(g.u.groups) == {} then InvalidUbergroup else Done
      ensures g.Null? || r == null || outcome == InvalidUbergroup ==> view == old(view) && outputMap == old(outputMap)
      ensures !g.Null? && r != null && outcome == Done ==>
                && g in outputMap && outputMap[g] == r && Ids(g) == old(Ids(g))
                && view == old(view) + Constant(Ids(g), r)
                && Empties() == {}
      ensures forall k :: k in outputMap && k != g ==> k in old(outputMap) && outputMap[k] == old(outputMap)[k]
      ensures forall u :: u in old(Ubers()) ==> u.Kept()
      ensures g.Uber? ==> unchanged(g.u)
    {
      hide Apart;
      hide Shows;
      hide IdsOf;
      if g.Null? || r == null {
        return Done;
      }
      if g.Uber? && |g.u.groups| == 0 {
        return InvalidUbergroup;
      }
      SomeId(g);
      MakeRoom(g);
      assert (old(view) - Ids(g)) + Constant(Ids(g), r) == old(view) + Constant(Ids(g), r);
      Insert(g, r);
      outcome := Done;
    }

    /** Takes the new key's ids from all others, and clears out what that left empty. */
    method MakeRoom(g: GroupPtr)
      requires Valid() && !g.Null?
      modifies this, Ubers()
      ensures Valid() && Empties() == {}
      ensures Ids(g) == old(Ids(g)) && (g.Uber? ==> unchanged(g.u))
      ensures view == old(view) - Ids(g)
      ensures PartOf(outputMap, old(outputMap))
      ensures forall u :: u in old(Ubers()) ==> u.Kept()
    {
      hide Apart;
      hide Shows;
      if g.Uber? {
        RemoveMappingsInUbergroup(g.u);
      } else {
        SingleId(g);
        var hit := RemoveMappingForGroup(g);
      }
      hide IdsOf;
      RemoveEmptyUbergroups();
    }
  }

  predicate Distinct(groups: seq<OutputGroup>) {
    forall i, j :: 0 <= i < j < |groups| ==> groups[i] != groups[j]
  }

  lemma SingleId(g: GroupPtr)
    requires g.Single?
    ensures Ids(g) == {g.g.group.id}
  {
  }

  lemma SomeId(g: GroupPtr)
    requires g.Uber? ==> g.u.groups != {}
    ensures !g.Null? ==> Ids(g) != {}
  {
    if g.Uber? {
      var m :| m in g.u.groups;
      assert m.group.id in Ids(g);
    } else if g.Single? {
      assert g.g.group.id in Ids(g);
    }
  }
}
