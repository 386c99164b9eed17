/** Output groups, ubergroups and the routines that draw into their buffers. */
module OutputGroups {
  datatype HSIPixel = HSIPixel(h: real, s: real, i: real)

  const BLACK := HSIPixel(0.0, 0.0, 0.0)

  /** A row of the group table: a range of the framebuffer, both ends included. */
  datatype GroupRow = GroupRow(id: int, start: int, end: int)

  type DbGroup = g: GroupRow | 0 <= g.start <= g.end witness GroupRow(0, 0, 0)

  function NumPixels(g: DbGroup): (n: nat)
    ensures n >= 1
  {
    g.end - g.start + 1
  }

  /** A routine draws, in every frame, some pixel at each index of the buffer it is attached to. */
  class Routine {
    const draw: (int, nat, nat) -> HSIPixel
    var buffer: array?<HSIPixel>

    constructor (draw: (int, nat, nat) -> HSIPixel)
      ensures this.draw == draw && buffer == null
    {
      this.draw := draw;
      buffer := null;
    }

    function Drawn(frame: int, n: nat): (pixels: seq<HSIPixel>)
      ensures |pixels| == n
    {
      seq(n, j requires 0 <= j < n => draw(frame, n, j))
    }

    /** Without a buffer there is nothing to draw into. */
    method Execute(frame: int)
      modifies buffer
      ensures buffer != null ==> buffer[..] == Drawn(frame, buffer.Length)
    {
      if buffer == null {
        return;
      }
      for j := 0 to buffer.Length
        invariant forall k :: 0 <= k < j ==> buffer[k] == draw(frame, buffer.Length, k)
      {
        buffer[j] := draw(frame, buffer.Length, j);
      }
    }
  }

  class OutputGroup {
    const group: DbGroup
    var brightness: real
    var buffer: array<HSIPixel>
    var bufferChanged: bool
    var bufferBoundRoutine: Routine?

    constructor (g: DbGroup)
      ensures group == g && brightness == 1.0 && bufferChanged && bufferBoundRoutine == null
      ensures fresh(buffer) && buffer.Length == g.end - g.start + 1
      ensures forall j :: 0 <= j < buffer.Length ==> buffer[j] == HSIPixel(0.0, 0.0, 0.0)
    {
      group := g;
      brightness := 1.0;
      buffer := new HSIPixel[NumPixels(g)](_ => BLACK);
      bufferChanged := true;
      bufferBoundRoutine := null;
    }

    /** The routine last bound still draws into this group's buffer. */
    ghost predicate Bound(r: Routine)
      reads this`buffer, this`bufferChanged, this`bufferBoundRoutine, r`buffer
    {
      && buffer.Length == NumPixels(group)
      && (bufferBoundRoutine == r && !bufferChanged ==> r.buffer == buffer)
    }

    /** The routine is attached and no attach is due. */
    ghost predicate Settled(r: Routine)
      reads this`buffer, this`bufferChanged, this`bufferBoundRoutine, r`buffer
    {
      bufferBoundRoutine == r && !bufferChanged && r.buffer == buffer
    }

    /** Attaches the buffer unless this routine was the last one bound and the buffer is the same since. */
    method BindBufferToRoutine(r: Routine)
      modifies this`bufferChanged, this`bufferBoundRoutine, r`buffer
      ensures bufferBoundRoutine == r && !bufferChanged
      ensures r.buffer == if old(bufferBoundRoutine == r && !bufferChanged) then old(r.buffer) else buffer
    {
      if r != bufferBoundRoutine || bufferChanged {
        r.buffer := buffer;
        bufferBoundRoutine := r;
        bufferChanged := false;
      }
    }
  }

  // ---- the pixels of a set of groups ----

  ghost function TotalPixels(groups: set<OutputGroup>): nat {
    if groups == {} then 0 else
    var g :| g in groups;
    NumPixels(g.group) + TotalPixels(groups - {g})
  }

  lemma {:induction false} TotalWithout(groups: set<OutputGroup>, g: OutputGroup)
    requires g in groups
    ensures TotalPixels(groups) == NumPixels(g.group) + TotalPixels(groups - {g})
    decreases |groups|
  {
    var h :| h in groups && TotalPixels(groups) == NumPixels(h.group) + TotalPixels(groups - {h});
    if h != g {
      TotalWithout(groups - {h}, g);
      TotalWithout(groups - {g}, h);
      assert groups - {h} - {g} == groups - {g} - {h};
    }
  }

  /** A member's own pixels are never more than the whole. */
  lemma TotalCovers(groups: set<OutputGroup>, g: OutputGroup)
    requires g in groups
    ensures NumPixels(g.group) <= TotalPixels(groups)
  {
    TotalWithout(groups, g);
  }

  /** The groups of the set that do not have one of the given ids. */
  ghost function Without(groups: set<OutputGroup>, ids: set<int>): set<OutputGroup> {
    set g | g in groups && g.group.id !in ids
  }

  function IdsOf(groups: set<OutputGroup>): set<int> {
    set g | g in groups :: g.group.id
  }

  class OutputUberGroup {
    var groups: set<OutputGroup>
    var buffer: array?<HSIPixel>
    var bufferChanged: bool
    var bufferBoundRoutine: Routine?

    /** The buffers given back so far. */
    ghost var freed: set<array<HSIPixel>>

    /** The buffer is as long as the members' pixels together. */
    ghost predicate Sized()
      reads this`groups, this`buffer
    {
      if groups == {} then buffer == null else buffer != null && buffer.Length == TotalPixels(groups)
    }

    constructor (members: set<OutputGroup>)
      ensures groups == members && Sized()
      ensures bufferBoundRoutine == null && freed == {}
      ensures buffer != null ==> fresh(buffer)
    {
      groups := members;
      freed := {};
      buffer := null;
      bufferChanged := false;
      bufferBoundRoutine := null;
      new;
      ResizeBuffer();
    }

    /** Attaching, if it is due, leaves the routine with this ubergroup's own buffer. */
    ghost predicate Bound(r: Routine)
      reads this`groups, this`buffer, this`bufferChanged, this`bufferBoundRoutine, r`buffer
    {
      Sized() && (bufferBoundRoutine == r && !bufferChanged ==> r.buffer == buffer)
    }

    ghost predicate Settled(r: Routine)
      reads this`buffer, this`bufferChanged, this`bufferBoundRoutine, r`buffer
    {
      bufferBoundRoutine == r && !bufferChanged && r.buffer == buffer
    }

    /** What every run keeps: a routine for which no attach is due has the current buffer, or one that was
        freed when the last member went. */
    ghost predicate Attached(r: Routine)
      reads this, r`buffer
    {
      && Sized() && (buffer == null || buffer !in freed)
      && (bufferBoundRoutine == r && !bufferChanged ==> r.buffer == buffer || (buffer == null && r.buffer in freed))
    }

    /** The condition under which a turn draws through a freed buffer: the ubergroup is empty, no attach
        is due, and the routine has a buffer. */
    predicate Dangles(r: Routine)
      reads this, r`buffer
    {
      groups == {} && bufferBoundRoutine == r && !bufferChanged && r.buffer != null
    }

    /** What any number of resizes leaves of a binding. */
    twostate predicate Kept()
      reads this
    {
      && bufferBoundRoutine == old(bufferBoundRoutine) && groups <= old(groups)
      && if buffer == old(buffer) then bufferChanged == old(bufferChanged) && freed == old(freed) else
         && old(freed) <= freed && (buffer == null || buffer !in freed)
         && (old(buffer) != null ==> old(buffer) in freed) && (buffer != null ==> fresh(buffer))
         && (if buffer != null then bufferChanged else old(bufferChanged) ==> bufferChanged)
    }

    twostate lemma KeptAttached(r: Routine)
      requires old(Attached(r)) && Kept() && Sized() && r.buffer == old(r.buffer)
      ensures Attached(r)
    {
    }

    /** What binding leaves the routine with. */
    function AttachedBy(r: Routine): array?<HSIPixel>
      reads this`buffer, this`bufferChanged, this`bufferBoundRoutine, r`buffer
    {
      if bufferBoundRoutine == r && !bufferChanged then r.buffer else buffer
    }

    method BindBufferToRoutine(r: Routine)
      modifies this`bufferChanged, this`bufferBoundRoutine, r`buffer
      ensures bufferBoundRoutine == r && !bufferChanged && r.buffer == old(AttachedBy(r))
      ensures r.buffer == if old(bufferBoundRoutine == r && !bufferChanged) then old(r.buffer) else buffer
    {
      if r != bufferBoundRoutine || bufferChanged {
        r.buffer := buffer;
        bufferBoundRoutine := r;
        bufferChanged := false;
      }
    }

    method CountPixels() returns (elements: nat)
      ensures elements == TotalPixels(groups)
    {
      elements := 0;
      var todo := groups;
      while todo != {}
        invariant todo <= groups
        invariant elements + TotalPixels(todo) == TotalPixels(groups)
      {
        var g :| g in todo;
        TotalWithout(todo, g);
        elements := elements + NumPixels(g.group);
        todo := todo - {g};
      }
    }

    /** The old buffer goes. An ubergroup without pixels gets none, and is not marked as changed. */
    method ResizeBuffer()
      modifies this`buffer, this`bufferChanged, this`freed
      ensures Sized()
      ensures buffer != null ==>
                && fresh(buffer) && bufferChanged
                && forall j :: 0 <= j < buffer.Length ==> buffer[j] == HSIPixel(0.0, 0.0, 0.0)
      ensures buffer == null ==> bufferChanged == old(bufferChanged)
      ensures freed == old(freed) + if old(buffer) == null then {} else {old(buffer)}
    {
      if buffer != null {
        freed := freed + {buffer};
        buffer := null;
      }
      var n := CountPixels();
      TotalIsPositive(groups);
      if n > 0 {
        buffer := new HSIPixel[n](_ => BLACK);
        bufferChanged := true;
      }
    }

    method ContainsMember(id: int) returns (found: bool)
      ensures found <==> id in IdsOf(groups)
    {
      var todo := groups;
      while todo != {}
        invariant todo <= groups
        invariant forall g :: g in groups - todo ==> g.group.id != id
      {
        var g :| g in todo;
        if g.group.id == id {
          return true;
        }
        todo := todo - {g};
      }
      found := false;
    }

    /** Removes every member with the given id, and resizes in any case. */
    method RemoveMember(id: int)
      modifies this`groups, this`buffer, this`bufferChanged, this`freed
      ensures groups == Without(old(groups), {id})
      ensures Sized() && Kept()
      ensures buffer != null ==> fresh(buffer) && bufferChanged
      ensures buffer == null ==> bufferChanged == old(bufferChanged)
    {
      var found := ContainsMember(id);
      if found {
        var todo := groups;
        while todo != {}
          modifies this`groups
          invariant todo <= groups <= old(groups)
          invariant groups == todo + Without(old(groups) - todo, {id})
        {
          var g :| g in todo;
          todo := todo - {g};
          if g.group.id == id {
            groups := groups - {g};
          }
        }
      }
      ResizeBuffer();
    }
  }

  lemma TotalIsPositive(groups: set<OutputGroup>)
    ensures TotalPixels(groups) == 0 <==> groups == {}
  {
    if g :| g in groups {
      TotalWithout(groups, g);
    }
  }

  /** What the output map is keyed by: a pointer to either kind of group. */
  datatype GroupPtr = Null | Single(g: OutputGroup) | Uber(u: OutputUberGroup)

  ghost function Members(k: GroupPtr): set<OutputGroup>
    reads (match k case Uber(u) => {u} case _ => {})`groups
  {
    match k
    case Null => {}
    case Single(g) => {g}
    case Uber(u) => u.groups
  }

  ghost function Ids(k: GroupPtr): set<int>
    reads (match k case Uber(u) => {u} case _ => {})`groups
  {
    IdsOf(Members(k))
  }
}
