/** The multiblock engine: parts (tile entities placed in the world) join
    clusters owned by controllers, and a per-world registry resolves orphans,
    merges, splits and dead controllers once per tick. */
module Multiblock {
  import opened Coords
  import opened Wrappers
  import opened Validation
  import opened Pools

  // ===========================================================================
  // Exception messages. Those that format hash codes or coordinates are cut
  // before the formatted part; the same-reference message drops its leading
  // "[CLIENT] " or "[SERVER] " side tag.

  const DifferentClassesMessage: string := "Attempting to merge two multiblocks with different master classes - this should never happen!"
  const SameReferenceMessage: string := "Two controllers with the same reference coord - this should never happen!"
  const ConsumeOrderMessage: string := "The controller with the lowest minimum-coord value must consume the one with the higher coords"
  const DetachUnattachedMessage: string := "Detaching but the current controller is already null!"
  const DetachWrongMessage: string := "Detaching from wrong controller"
  const NotOrphanMessage: string := "Orphaning a non-orphaned block!"
  const IdenticalReferenceMessage: string := "Found two controllers with identical reference coord"

  // ===========================================================================
  // The world as the multiblock code sees it

  /** The tile entities that are multiblock parts, by position, and the chunk
      columns that are currently loaded. A position with some other tile entity,
      or none, has no entry. */
  datatype World = World(tiles: map<Coord, Part>, loaded: set<(int, int)>) {

    /** Every part sits at the position it reports. */
    ghost predicate Valid() {
      forall c :: c in tiles ==> tiles[c].pos == c
    }

    /** `chunkProvider.chunkExists(c.x >> 4, c.z >> 4)`. */
    predicate ChunkLoaded(c: Coord) {
      ChunkOf(c) in loaded
    }

    /** In a loaded chunk and holding a part. */
    predicate Resolves(c: Coord) {
      ChunkLoaded(c) && c in tiles
    }

    function Parts(): set<Part> {
      tiles.Values
    }

    /** The parts at the given positions. */
    function PartsAt(s: set<Coord>): set<Part> {
      set c | c in s && c in tiles :: tiles[c]
    }

    /** The positions of `s` that resolve. */
    function ResolvingIn(s: set<Coord>): set<Coord> {
      set c | c in s && Resolves(c)
    }

    lemma ResolvingInAdd(s: set<Coord>, c: Coord)
      ensures ResolvingIn(s + {c}) == ResolvingIn(s) + (if Resolves(c) then {c} else {})
    {
    }

    /** What each part says about the box positions it refuses. */
    function Shapes(): Shapes {
      map c | c in tiles :: tiles[c].rejects
    }
  }

  lemma PartAtItsPosition(w: World, p: Part)
    requires w.Valid() && p in w.Parts()
    ensures p.pos in w.tiles && w.tiles[p.pos] == p
  {
    var c :| c in w.tiles && w.tiles[c] == p;
  }

  // ===========================================================================
  // Controllers

  datatype AssemblyState = Disassembled | Assembled | Paused

  /** Lifecycle callbacks a controller fires on itself, in order. */
  datatype MachineEvent = MachineAssembled | MachineRestored | MachinePaused | MachineDisassembled

  /** What `getNewMultiblockControllerObject` builds: the concrete controller
      class and the size limits it declares. */
  datatype Blueprint = Blueprint(kind: nat, limits: Limits)

  class Controller {
    /** The concrete subclass (`getClass()`). */
    const kind: nat
    const limits: Limits

    /** `connectedBlocks`. */
    var members: set<Coord>
    /** `referenceCoord`: meant to be the least member in coordinate order. */
    var reference: Option<Coord>
    var state: AssemblyState
    /** `shouldCheckForDisconnections`. */
    var shouldCheck: bool
    /** `lastValidationException`. */
    var lastError: Option<Problem>
    var minCoord: Coord
    var maxCoord: Coord
    var events: seq<MachineEvent>

    constructor (b: Blueprint)
      ensures kind == b.kind && limits == b.limits
      ensures members == {} && reference == None && state == Disassembled
      ensures minCoord == Coord(0, 0, 0) && maxCoord == Coord(0, 0, 0)
      ensures shouldCheck && lastError == None && events == []
    {
      kind := b.kind;
      limits := b.limits;
      members := {};
      reference := None;
      state := Disassembled;
      minCoord := Coord(0, 0, 0);
      maxCoord := Coord(0, 0, 0);
      shouldCheck := true;
      lastError := None;
      events := [];
    }

    predicate HasBlock(c: Coord) reads this { c in members }

    predicate IsEmpty() reads this { members == {} }

    predicate IsAssembled() reads this { state == Assembled }

    /** The part at the reference position, if the world holds one there. */
    function ReferencePart(w: World): set<Part>
      reads this
    {
      if reference.Some? && reference.value in w.tiles then {w.tiles[reference.value]} else {}
    }

    /** `attachBlock`: the part's position joins the members and the part points
        at this controller. The reference moves to the part when there was none
        or the part is smaller; the save-delegate flag follows the reference and
        the controller is marked dirty. Moving the reference tells the part at
        the old reference to forfeit, which throws when no part is there. */
    method AttachBlock(p: Part, w: World, reg: Registry) returns (o: Outcome)
      requires w.Valid()
      modifies this`members, this`reference, p`controller, p`saveDelegate, ReferencePart(w)`saveDelegate, reg`dirty
      ensures members == old(members) + {p.pos} && p.controller == this
      ensures var moved := old(reference).None? || Compare(p.pos, old(reference).value) < 0;
        && (o.Fail? <==> moved && old(reference).Some? && old(reference).value !in w.tiles)
        && (o.Fail? ==> o == Fail(NullPointer) && reference == old(reference) &&
                        p.saveDelegate == old(p.saveDelegate) && reg.dirty == old(reg.dirty))
        && (o.Pass? ==>
              && reference == Some(if moved then p.pos else old(reference).value)
              && p.saveDelegate == moved
              && reg.dirty == old(reg.dirty) + {this}
              && (old(reference).Some? && moved ==> !w.tiles[old(reference).value].saveDelegate))
      ensures !(old(reference).Some? && old(reference).value in w.tiles && Compare(p.pos, old(reference).value) < 0) ==>
        forall q :: q in w.Parts() && q != p ==> q.saveDelegate == old(q.saveDelegate)
      ensures (old(reference).None? && old(members) <= {p.pos}) ||
              (old(reference).Some? && IsLeast(old(reference).value, old(members)))
        ==> o.Pass? ==> reference.Some? && IsLeast(reference.value, members)
    {
      var coord := p.pos;
      members := members + {coord};
      p.OnAttached(this);
      if reference.None? {
        reference := Some(coord);
        p.BecomeSaveDelegate();
      } else if Compare(coord, reference.value) < 0 {
        if reference.value !in w.tiles {
          return Fail(NullPointer);
        }
        w.tiles[reference.value].ForfeitSaveDelegate();
        reference := Some(coord);
        p.BecomeSaveDelegate();
      } else {
        p.ForfeitSaveDelegate();
      }
      reg.AddDirtyController(this);
      if old(reference).Some? && IsLeast(old(reference).value, old(members)) {
        LeastInsert(old(reference).value, old(members), coord);
      }
      return Pass;
    }

    /** `onDetachBlock`: the part is told to detach (which throws if it is not
        attached here), loses the save-delegate flag, and the controller will
        look for disconnections. */
    method OnDetachBlock(p: Part) returns (o: Outcome)
      modifies p`controller, p`saveDelegate, this`shouldCheck
      ensures o.Pass? <==> old(p.controller) == this
      ensures o == DetachVerdict(old(p.controller), this)
      ensures o.Pass? ==> p.controller == null && !p.saveDelegate && shouldCheck
      ensures o.Fail? ==> unchanged(p) && shouldCheck == old(shouldCheck)
    {
      o := p.OnDetached(this);
      if o.Fail? {
        return;
      }
      p.ForfeitSaveDelegate();
      shouldCheck := true;
    }

    /** `detachBlock`: a chunk unload pauses an assembled machine; then the part
        is detached (a part not attached here throws, after the pause) and its
        position leaves the members. An emptied controller is marked dead;
        otherwise it is marked dirty and, if the reference was the detached
        position, a new one is elected: the least member in a loaded chunk that
        holds a part, which becomes the save delegate. */
    method DetachBlock(p: Part, unloading: bool, w: World, reg: Registry) returns (o: Outcome)
      requires w.Valid()
      modifies this`state, this`events, this`members, this`reference, this`shouldCheck
      modifies p`controller, w.Parts()`saveDelegate, p`saveDelegate, reg`dirty, reg`dead
      ensures unloading && old(state) == Assembled ==> state == Paused && events == old(events) + [MachinePaused]
      ensures !(unloading && old(state) == Assembled) ==> state == old(state) && events == old(events)
      ensures o == DetachVerdict(old(p.controller), this)
      ensures o.Fail? ==>
        && unchanged(p) && members == old(members) && reference == old(reference)
        && shouldCheck == old(shouldCheck) && reg.dirty == old(reg.dirty) && reg.dead == old(reg.dead)
      ensures o.Pass? ==>
        && p.controller == null && !p.saveDelegate && shouldCheck
        && members == old(members) - {p.pos}
        && (members == {} ==> reg.dead == old(reg.dead) + {this} && reg.dirty == old(reg.dirty))
        && (members != {} ==> reg.dirty == old(reg.dirty) + {this} && reg.dead == old(reg.dead))
      ensures o.Pass? && old(reference).Some? && old(reference) != Some(p.pos) ==> reference == old(reference)
      ensures o.Pass? && members == {} ==> reference == (if old(reference) == Some(p.pos) then None else old(reference))
      ensures o.Pass? && members != {} && (old(reference).None? || old(reference) == Some(p.pos)) ==>
        && (reference.None? <==> w.ResolvingIn(members) == {})
        && (reference.Some? ==> IsLeast(reference.value, w.ResolvingIn(members)) && w.tiles[reference.value].saveDelegate)
      ensures forall q :: q in w.Parts() && q != p && !(reference != old(reference) && reference == Some(q.pos)) ==>
        q.saveDelegate == old(q.saveDelegate)
    {
      var coord := p.pos;
      PauseForUnload(unloading);
      o := OnDetachBlock(p);
      if o.Fail? {
        return;
      }
      ForgetBlock(coord, w, reg);
    }

    /** The first step of `detachBlock`: a chunk unload pauses an assembled machine. */
    method PauseForUnload(unloading: bool)
      modifies this`state, this`events
      ensures unloading && old(state) == Assembled ==> state == Paused && events == old(events) + [MachinePaused]
      ensures !(unloading && old(state) == Assembled) ==> state == old(state) && events == old(events)
    {
      if unloading && state == Assembled {
        state := Paused;
        events := events + [MachinePaused];
      }
    }

    /** The second half of `detachBlock`, once the part has detached: the
        position leaves the members, then the controller is marked dead or dirty
        and a new reference is elected when needed. */
    method ForgetBlock(coord: Coord, w: World, reg: Registry)
      requires w.Valid()
      modifies this`members, this`reference, w.Parts()`saveDelegate, reg`dirty, reg`dead
      ensures members == old(members) - {coord}
      ensures members == {} ==> reg.dead == old(reg.dead) + {this} && reg.dirty == old(reg.dirty)
      ensures members != {} ==> reg.dirty == old(reg.dirty) + {this} && reg.dead == old(reg.dead)
      ensures old(reference).Some? && old(reference) != Some(coord) ==> reference == old(reference)
      ensures members == {} ==> reference == (if old(reference) == Some(coord) then None else old(reference))
      ensures members != {} && (old(reference).None? || old(reference) == Some(coord)) ==>
        && (reference.None? <==> w.ResolvingIn(members) == {})
        && (reference.Some? ==> IsLeast(reference.value, w.ResolvingIn(members)) && w.tiles[reference.value].saveDelegate)
      ensures forall q :: q in w.Parts() && !(reference != old(reference) && reference == Some(q.pos)) ==>
        q.saveDelegate == old(q.saveDelegate)
    {
      members := members - {coord};
      if reference == Some(coord) {
        reference := None;
      }
      if members == {} {
        reg.AddDeadController(this);
        return;
      }
      reg.AddDirtyController(this);
      if reference.None? {
        reference := LeastResolving(w, members);
        if reference.Some? {
          w.tiles[reference.value].BecomeSaveDelegate();
        }
      }
    }

    // -------------------------------------------------------------------------
    // Validation and the assembly state machine

    /** The size limits and every cell of the bounding box pass. */
    ghost predicate Whole(w: World)
      reads this
    {
      SizeProblem(limits, |members|, minCoord, maxCoord).None? && CellsPass(w.Shapes(), minCoord, maxCoord)
    }

    /** `p` is what validation reports: the first failing size check, or else
        the verdict on the first refused cell in x, y, z order. */
    ghost predicate FirstProblem(w: World, p: Problem)
      reads this
    {
      var size := SizeProblem(limits, |members|, minCoord, maxCoord);
      size == Some(p) ||
      (size.None? && exists c :: FirstRefused(w.Shapes(), minCoord, maxCoord, c) &&
                                 CellProblem(w.Shapes(), minCoord, maxCoord, c) == Some(p))
    }

    /** `isMachineWhole`: the size checks, then the nested x, y, z loops over the
        bounding box, stopping at the first refused cell. */
    method IsMachineWhole(w: World) returns (problem: Option<Problem>)
      ensures problem.None? <==> Whole(w)
      ensures problem.Some? ==> FirstProblem(w, problem.value)
    {
      problem := SizeProblem(limits, |members|, minCoord, maxCoord);
      if problem.Some? {
        return;
      }
      var lo, hi, shapes := minCoord, maxCoord, w.Shapes();
      var x := lo.x;
      while x <= hi.x
        invariant lo.x <= x
        invariant forall d :: InBox(lo, hi, d) && d.x < x ==> CellProblem(shapes, lo, hi, d).None?
      {
        var y := lo.y;
        while y <= hi.y
          invariant lo.y <= y
          invariant forall d :: InBox(lo, hi, d) && (d.x < x || (d.x == x && d.y < y)) ==>
            CellProblem(shapes, lo, hi, d).None?
        {
          var z := lo.z;
          while z <= hi.z
            invariant lo.z <= z
            invariant forall d :: InBox(lo, hi, d) && (d.x < x || (d.x == x && (d.y < y || (d.y == y && d.z < z)))) ==>
              CellProblem(shapes, lo, hi, d).None?
          {
            var c := Coord(x, y, z);
            var verdict := CellProblem(shapes, lo, hi, c);
            if verdict.Some? {
              assert FirstRefused(shapes, lo, hi, c);
              return verdict;
            }
            z := z + 1;
          }
          y := y + 1;
        }
        x := x + 1;
      }
    }

    /** `checkIfMachineIsWhole`: records the validation error (none when whole),
        assembles a whole machine and disassembles one that was assembled and no
        longer is; a paused or disassembled machine that is not whole stays as
        it is. */
    method CheckIfMachineIsWhole(w: World)
      modifies this`lastError, this`state, this`events
      ensures lastError.None? <==> Whole(w)
      ensures lastError.Some? ==> FirstProblem(w, lastError.value)
      ensures Whole(w) ==>
        (state == Assembled && events == old(events) + [if old(state) == Paused then MachineRestored else MachineAssembled])
      ensures !Whole(w) && old(state) == Assembled ==> state == Disassembled && events == old(events) + [MachineDisassembled]
      ensures !Whole(w) && old(state) != Assembled ==> state == old(state) && events == old(events)
    {
      var oldState := state;
      lastError := None;
      var problem := IsMachineWhole(w);
      lastError := problem;
      if problem.None? {
        AssembleMachine(oldState);
      } else if oldState == Assembled {
        DisassembleMachine();
      }
    }

    /** `assembleMachine`: the machine becomes assembled, firing "restored" when
        it was paused and "assembled" otherwise. */
    method AssembleMachine(oldState: AssemblyState)
      modifies this`state, this`events
      ensures state == Assembled
      ensures events == old(events) + [if oldState == Paused then MachineRestored else MachineAssembled]
    {
      state := Assembled;
      if oldState == Paused {
        events := events + [MachineRestored];
      } else {
        events := events + [MachineAssembled];
      }
    }

    /** `disassembleMachine`. */
    method DisassembleMachine()
      modifies this`state, this`events
      ensures state == Disassembled && events == old(events) + [MachineDisassembled]
    {
      state := Disassembled;
      events := events + [MachineDisassembled];
    }

    // -------------------------------------------------------------------------
    // Bounding box

    /** `recalculateMinMaxCoords`: starts from the empty box (maximum-int lower
        corner, minimum-int upper corner) and widens it over the members. */
    method RecalculateMinMaxCoords()
      modifies this`minCoord, this`maxCoord
      ensures forall c :: c in members ==> InBox(minCoord, maxCoord, c)
      ensures members == {} ==> minCoord == Coord(IntMax, IntMax, IntMax) && maxCoord == Coord(IntMin, IntMin, IntMin)
      ensures members != {} && AllInt(members) ==> Tight(minCoord, maxCoord, members)
      ensures minCoord.x <= IntMax && minCoord.y <= IntMax && minCoord.z <= IntMax
      ensures maxCoord.x >= IntMin && maxCoord.y >= IntMin && maxCoord.z >= IntMin
    {
      minCoord, maxCoord := BoundsOf(members);
      SpansBox(minCoord, maxCoord, members);
    }

    /** What the split pass leaves in a controller that kept members: its box
        is tight around them, and a validation error is recorded exactly when
        the machine is not whole. */
    ghost predicate Revalidated(w: World)
      reads this
    {
      members != {} ==>
        && (lastError.None? <==> Whole(w))
        && (AllInt(members) ==> Tight(minCoord, maxCoord, members))
    }

    /** The dirty pass of the registry as written: `checkIfMachineIsWhole`
        runs before `recalculateMinMaxCoords`, so validation judges the box the
        controller had before this pass rather than the box of its members. */
    method RevalidateAsWritten(w: World)
      modifies this`lastError, this`state, this`events, this`minCoord, this`maxCoord
      ensures lastError.None? <==>
        SizeProblem(limits, |members|, old(minCoord), old(maxCoord)).None? && CellsPass(w.Shapes(), old(minCoord), old(maxCoord))
      ensures members != {} && AllInt(members) ==> Tight(minCoord, maxCoord, members)
    {
      CheckIfMachineIsWhole(w);
      RecalculateMinMaxCoords();
    }

    /** The dirty pass as intended: the box is recomputed from the members,
        then the machine is validated against it. */
    method Revalidate(w: World)
      modifies this`lastError, this`state, this`events, this`minCoord, this`maxCoord
      ensures forall c :: c in members ==> InBox(minCoord, maxCoord, c)
      ensures members != {} && AllInt(members) ==> Tight(minCoord, maxCoord, members)
      ensures lastError.None? <==> Whole(w)
      ensures lastError.Some? ==> FirstProblem(w, lastError.value)
      ensures Revalidated(w)
      ensures Whole(w) ==>
        (state == Assembled && events == old(events) + [if old(state) == Paused then MachineRestored else MachineAssembled])
      ensures !Whole(w) && old(state) == Assembled ==> state == Disassembled && events == old(events) + [MachineDisassembled]
      ensures !Whole(w) && old(state) != Assembled ==> state == old(state) && events == old(events)
    {
      RecalculateMinMaxCoords();
      CheckIfMachineIsWhole(w);
    }

    // -------------------------------------------------------------------------
    // Updates

    /** `updateMultiblockEntity`, its guards only: an empty controller is marked
        dead; the game logic runs only for an assembled machine. */
    method UpdateMultiblockEntity(reg: Registry) returns (ran: bool)
      modifies reg`dead
      ensures ran <==> members != {} && state == Assembled
      ensures reg.dead == old(reg.dead) + (if members == {} then {this} else {})
    {
      if members == {} {
        reg.AddDeadController(this);
        return false;
      }
      if state != Assembled {
        return false;
      }
      return true;
    }

    // -------------------------------------------------------------------------
    // Merging

    /** `shouldConsume`: the controller with the smaller reference consumes the
        other one. Different controller classes and equal references (including
        a missing reference on the other side, which compares as equal) throw;
        a missing reference of its own throws NullPointerException. */
    function ShouldConsume(other: Controller): (r: Result<bool>)
      reads this, other
      ensures r == Ok(true) <==>
        other.kind == kind && other != this && reference.Some? && other.reference.Some? &&
        LexLess(reference.value, other.reference.value)
      ensures r == Ok(false) <==>
        other.kind == kind && (other == this ||
          (reference.Some? && other.reference.Some? && LexLess(other.reference.value, reference.value)))
      ensures other.kind != kind ==> r == Err(IllegalArgument(DifferentClassesMessage))
      ensures other.kind == kind && other != this && reference.None? ==> r == Err(NullPointer)
      ensures other.kind == kind && other != this && reference.Some? &&
              (other.reference.None? || other.reference == reference) ==>
        r == Err(IllegalArgument(SameReferenceMessage))
    {
      if other.kind != kind then
        Err(IllegalArgument(DifferentClassesMessage))
      else if other == this then Ok(false)
      else if reference.None? then Err(NullPointer)
      else
        var res := CompareTo(reference.value, if other.reference.Some? then CoordObj(other.reference.value) else NullObj);
        if res < 0 then Ok(true)
        else if res > 0 then Ok(false)
        else Err(IllegalArgument(SameReferenceMessage))
    }

    /** The part at the reference position, when its chunk is loaded. */
    function LoadedReferencePart(w: World): set<Part>
      reads this
    {
      if reference.Some? && w.Resolves(reference.value) then {w.tiles[reference.value]} else {}
    }

    /** `_onAssimilated`: the loaded reference part forfeits the save-delegate
        flag, the reference is cleared and the members are dropped. */
    method OnAssimilated(w: World)
      modifies this`reference, this`members, LoadedReferencePart(w)`saveDelegate
      ensures reference == None && members == {}
      ensures old(reference).Some? && w.Resolves(old(reference).value) ==> !w.tiles[old(reference).value].saveDelegate
    {
      if reference.Some? {
        if w.Resolves(reference.value) {
          w.tiles[reference.value].ForfeitSaveDelegate();
        }
        reference := None;
      }
      members := {};
    }

    /** `assimilate`: refuses (with the source's exceptions) unless this
        reference is smaller than the other's; then tears the other controller
        down and takes over each of its former positions that holds a part,
        pointing those parts here. */
    method Assimilate(other: Controller, w: World) returns (o: Outcome)
      requires w.Valid()
      modifies this`members, other`members, other`reference, other.LoadedReferencePart(w)`saveDelegate
      modifies w.PartsAt(other.members)`controller
      ensures o == AssimilateVerdict(old(reference), old(other.reference))
      ensures o.Fail? ==>
        (members == old(members) && other.members == old(other.members) && other.reference == old(other.reference))
      ensures o.Pass? ==> other.reference == None
      ensures o.Pass? && other != this ==>
        other.members == {} && reference == old(reference) &&
        members == old(members) + (old(other.members) * w.tiles.Keys)
      ensures o.Pass? && other == this ==> members == old(members) * w.tiles.Keys
      ensures o.Pass? ==> forall c :: c in old(other.members) && c in w.tiles ==> w.tiles[c].controller == this
      ensures forall q :: q in w.Parts() && (o.Fail? || q.pos !in old(other.members)) ==> q.controller == old(q.controller)
      ensures forall q :: q in w.Parts() ==> q.controller == old(q.controller) || q.controller == this
      ensures o.Pass? && other != this && old(reference).Some? && IsLeast(old(reference).value, old(members)) &&
        old(other.reference).Some? && IsLeast(old(other.reference).value, old(other.members))
        ==> IsLeast(reference.value, members)
    {
      o := AssimilateVerdict(reference, other.reference);
      if o.Fail? {
        return;
      }
      var toAcquire := other.members;
      other.OnAssimilated(w);
      Acquire(toAcquire, w);
      if other != this && old(reference).Some? && IsLeast(old(reference).value, old(members)) &&
         old(other.reference).Some? && IsLeast(old(other.reference).value, toAcquire)
      {
        forall e | e in members
          ensures Compare(reference.value, e) <= 0
        {
          if e !in old(members) {
            CompareTransitive(reference.value, old(other.reference).value, e);
          }
        }
      }
    }

    /** The acquisition loop of `assimilate`: each position that holds a part
        becomes a member and its part points here. */
    method Acquire(toAcquire: set<Coord>, w: World)
      requires w.Valid()
      modifies this`members, w.PartsAt(toAcquire)`controller
      ensures members == old(members) + (toAcquire * w.tiles.Keys)
      ensures forall c :: c in toAcquire && c in w.tiles ==> w.tiles[c].controller == this
      ensures forall q :: q in w.Parts() && q.pos !in toAcquire ==> q.controller == old(q.controller)
      ensures forall q :: q in w.Parts() ==> q.controller == old(q.controller) || q.controller == this
    {
      var rest := toAcquire;
      ghost var seen: set<Coord> := {};
      while rest != {}
        invariant rest + seen == toAcquire && rest !! seen
        invariant members == old(members) + (seen * w.tiles.Keys)
        invariant forall c :: c in seen && c in w.tiles ==> w.tiles[c].controller == this
        invariant forall q :: q in w.Parts() && q.pos !in seen ==> q.controller == old(q.controller)
        invariant forall q :: q in w.Parts() ==> q.controller == old(q.controller) || q.controller == this
        decreases rest
      {
        var c :| c in rest;
        if c in w.tiles {
          members := members + {c};
          w.tiles[c].OnMergedIntoOtherMultiblock(this);
        }
        rest := rest - {c};
        seen := seen + {c};
      }
    }

    /** The other controller after one step of the merge loop. */
    ghost predicate Absorbed(d: Controller, skipEmpty: bool, oldMembers: set<Coord>, oldReference: Option<Coord>)
      reads d`members, d`reference
    {
      d.members == {} && (d.reference == None || (skipEmpty && oldMembers == {} && d.reference == oldReference))
    }

    /** One step of the merge loop: assimilate `d` unless it is skipped as empty. */
    method MergeStep(d: Controller, skipEmpty: bool, w: World, p: Part) returns (o: Outcome)
      requires w.Valid() && d != this && p.controller == this
      modifies this`members, d`members, d`reference, w.Parts()`controller, w.Parts()`saveDelegate
      ensures reference == old(reference) && old(members) <= members
      ensures o.Pass? <==> (skipEmpty && old(d.members) == {}) || AssimilateVerdict(reference, old(d.reference)).Pass?
      ensures o.Pass? ==> Absorbed(d, skipEmpty, old(d.members), old(d.reference))
      ensures o.Pass? ==> members == old(members) + (old(d.members) * w.tiles.Keys)
      ensures o.Pass? ==> forall c :: c in old(d.members) && c in w.tiles ==> w.tiles[c].controller == this
      ensures forall q :: q in w.Parts() ==> q.controller == old(q.controller) || q.controller == this
      ensures p.controller == this
    {
      if skipEmpty && d.members == {} {
        return Pass;
      }
      o := Assimilate(d, w);
    }

    /** Every controller of `others` is skipped as empty or passes the guard of
        `assimilate` against `mine`. */
    ghost predicate AllAdmitted(mine: Option<Coord>, skipEmpty: bool, others: seq<Controller>)
      reads Elems(others)
    {
      others == [] ||
      (((skipEmpty && others[0].members == {}) || AssimilateVerdict(mine, others[0].reference).Pass?) &&
       AllAdmitted(mine, skipEmpty, others[1..]))
    }

    /** The recursive statement of the guard, controller by controller. */
    lemma {:induction false} AllAdmittedIff(mine: Option<Coord>, skipEmpty: bool, others: seq<Controller>)
      ensures AllAdmitted(mine, skipEmpty, others) <==>
        forall d :: d in others ==> (skipEmpty && d.members == {}) || AssimilateVerdict(mine, d.reference).Pass?
    {
      if others != [] {
        AllAdmittedIff(mine, skipEmpty, others[1..]);
        assert forall d :: d in others <==> d == others[0] || d in others[1..];
      }
    }

    /** The merge loop of `onBlockAdded` and `clientCheckForMerges`: each other
        controller is assimilated here in order (with `skipEmpty`, empty ones
        are passed over); the first refusal stops the loop. */
    method AssimilateAll(others: seq<Controller>, skipEmpty: bool, w: World, p: Part) returns (o: Outcome)
      requires w.Valid() && Distinct(others) && this !in others && p.controller == this
      modifies this`members, Elems(others)`members, Elems(others)`reference, w.Parts()`controller, w.Parts()`saveDelegate
      ensures reference == old(reference) && old(members) <= members
      ensures o.Pass? <==> old(AllAdmitted(reference, skipEmpty, others))
      ensures o.Pass? ==> forall d :: d in others ==> Absorbed(d, skipEmpty, old(d.members), old(d.reference))
      ensures o.Pass? ==> members == old(members) + (old(MembersOf(Elems(others))) * w.tiles.Keys)
      ensures o.Pass? ==> forall c :: c in old(MembersOf(Elems(others))) && c in w.tiles ==> w.tiles[c].controller == this
      ensures forall q :: q in w.Parts() ==> q.controller == old(q.controller) || q.controller == this
      ensures p.controller == this
      decreases |others|
    {
      if others == [] {
        return Pass;
      }
      assert Elems(others) == {others[0]} + Elems(others[1..]);
      MembersOfSplit(others[0], Elems(others[1..]));
      ghost var rest := MembersOf(Elems(others[1..]));
      ghost var first := others[0].members;
      ghost var start := members;
      o := MergeStep(others[0], skipEmpty, w, p);
      if o.Fail? {
        return;
      }
      assert Distinct(others[1..]);
      assert MembersOf(Elems(others[1..])) == rest;
      o := AssimilateAll(others[1..], skipEmpty, w, p);
      assert forall d :: d in others ==> d == others[0] || d in others[1..];
      assert Elems(others[1..]) <= Elems(others);
      if o.Pass? {
        GainSplit(start, first, rest, w.tiles.Keys);
      }
    }

    // -------------------------------------------------------------------------
    // Tear-down

    /** `detachAllBlocks`: every member in a loaded chunk that holds a part is
        detached (a part attached elsewhere throws), then the members are
        cleared. The parts detached are returned. */
    method DetachAllBlocks(w: World) returns (r: Result<set<Part>>)
      requires w.Valid()
      modifies w.PartsAt(w.ResolvingIn(members))`controller, w.PartsAt(w.ResolvingIn(members))`saveDelegate, this`shouldCheck, this`members
      ensures r.Ok? <==> forall c :: c in w.ResolvingIn(old(members)) ==> old(w.tiles[c].controller) == this
      ensures r.Ok? ==> members == {} && r.value == w.PartsAt(w.ResolvingIn(old(members)))
      ensures r.Ok? ==> forall q :: q in r.value ==> q.controller == null && !q.saveDelegate
      ensures r.Err? ==> members == old(members) && r.error.IllegalArgument?
    {
      var todo := w.ResolvingIn(members);
      var parts: set<Part> := {};
      var rest := todo;
      while rest != {}
        invariant rest <= todo
        invariant parts == w.PartsAt(todo - rest)
        invariant forall c :: c in todo - rest ==> old(w.tiles[c].controller) == this
        invariant forall q :: q in parts ==> q.controller == null && !q.saveDelegate
        invariant forall c :: c in rest ==> w.tiles[c].controller == old(w.tiles[c].controller)
        modifies w.PartsAt(todo)`controller, w.PartsAt(todo)`saveDelegate, this`shouldCheck
        decreases rest
      {
        var c :| c in rest;
        var part := w.tiles[c];
        var d := OnDetachBlock(part);
        if d.Fail? {
          return Err(d.error);
        }
        parts := parts + {part};
        rest := rest - {c};
      }
      members := {};
      return Ok(parts);
    }

    // -------------------------------------------------------------------------
    // Splitting

    /** `checkForDisconnections`: nothing happens unless the controller was
        asked to check and has members. Then the positions that no longer
        resolve are dropped and the reference is re-elected among what
        resolves; the parts still attached are visited breadth first from the
        part at the reference, through neighbours of this controller; and every
        member whose part was not reached is detached (a part attached
        elsewhere throws) and returned. */
    method CheckForDisconnections(w: World) returns (r: Result<Option<set<Part>>>)
      requires w.Valid()
      modifies this`shouldCheck, this`reference, this`members
      modifies w.Parts()`visited, w.Parts()`controller, w.Parts()`saveDelegate
      ensures !old(shouldCheck) || old(members) == {} ==>
        && r == Ok(None) && members == old(members) && reference == old(reference)
        && shouldCheck == old(shouldCheck)
        && forall q :: q in w.Parts() ==>
             q.visited == old(q.visited) && q.controller == old(q.controller) && q.saveDelegate == old(q.saveDelegate)
      ensures old(shouldCheck) && old(members) != {} && w.ResolvingIn(old(members)) == {} ==>
        r == Ok(None) && members == {} && !shouldCheck
      ensures old(shouldCheck) && w.ResolvingIn(old(members)) != {} ==>
        var kept := w.ResolvingIn(old(members));
        && reference.Some? && IsLeast(reference.value, Kept(w, old(reference), old(members)))
        && members <= kept
        && (r.Err? <==> exists c :: c in kept && c != reference.value && old(w.tiles[c].controller) != this)
        && (r.Ok? ==>
              var start := w.tiles[reference.value];
              && r.value.Some?
              && r.value.value == w.PartsAt(kept - members)
              && (forall q :: q in r.value.value ==> q.controller == null && !q.saveDelegate)
              && shouldCheck == (r.value.value != {})
              && (forall c :: c in members ==>
                    exists path :: RouteIn(w, path, start, old(Attached(w, this))) && path[|path| - 1] == w.tiles[c])
              && ((forall q :: q in w.Parts() && w.ChunkLoaded(q.pos) && old(q.controller) == this ==> q.pos in old(members)) ==>
                    forall c, path ::
                      (c in kept && RouteIn(w, path, start, old(Attached(w, this))) && path[|path| - 1] == w.tiles[c])
                      ==> c in members))
    {
      if !shouldCheck || members == {} {
        return Ok(None);
      }
      shouldCheck := false;
      Prune(w);
      if reference.None? || members == {} {
        return Ok(None);
      }
      r := Separate(w, old(Attached(w, this)));
    }

    /** The visit from the reference and the last pass, once the members all
        resolve and are unvisited and the reference is the least of them. */
    method Separate(w: World, ghost mine: set<Part>) returns (r: Result<Option<set<Part>>>)
      requires w.Valid() && reference.Some? && w.Resolves(reference.value) && mine == Attached(w, this)
      requires forall c :: c in members ==> w.Resolves(c) && !w.tiles[c].visited
      modifies this`shouldCheck, this`members
      modifies w.Parts()`visited, w.Parts()`controller, w.Parts()`saveDelegate
      ensures members <= old(members) && forall c :: c in old(members) ==> c in w.tiles
      ensures r.Err? <==> exists c :: c in old(members) && c != reference.value && old(w.tiles[c].controller) != this
      ensures r.Ok? ==>
        var start := w.tiles[reference.value];
        && r.value.Some?
        && r.value.value == w.PartsAt(old(members) - members)
        && (forall q :: q in r.value.value ==> q.controller == null && !q.saveDelegate)
        && shouldCheck == (old(shouldCheck) || r.value.value != {})
        && (forall c :: c in members ==>
              exists path :: RouteIn(w, path, start, mine) && path[|path| - 1] == w.tiles[c])
        && ((forall q :: q in mine && w.ChunkLoaded(q.pos) ==> q.pos in old(members)) ==>
              forall c, path ::
                (c in old(members) && RouteIn(w, path, start, mine) && path[|path| - 1] == w.tiles[c])
                ==> c in members)
    {
      var start := w.tiles[reference.value];
      FloodMembers(start, w, mine);
      var swept := Sweep(w);
      if swept.Err? {
        return Err(swept.error);
      }
      return Ok(Some(swept.value));
    }

    /** The visit from `start`, stated for the members: a member is visited
        exactly when a walk through this controller leads to its part, and
        when every loaded part of the controller is a member, no member a walk
        leads to is left unvisited. */
    method FloodMembers(start: Part, w: World, ghost mine: set<Part>)
      requires w.Valid() && start in w.Parts() && mine == Attached(w, this)
      requires forall c :: c in members ==> w.Resolves(c) && !w.tiles[c].visited
      modifies w.Parts()`visited
      ensures forall c :: c in members ==> c in w.tiles
      ensures forall c :: c in members && w.tiles[c] != start && w.tiles[c].controller != this ==> !w.tiles[c].visited
      ensures start.visited
      ensures forall c :: c in members && w.tiles[c].visited ==>
        exists path :: RouteIn(w, path, start, mine) && path[|path| - 1] == w.tiles[c]
      ensures (forall q :: q in mine && w.ChunkLoaded(q.pos) ==> q.pos in members) ==>
        forall c, path :: (c in members && RouteIn(w, path, start, mine) && path[|path| - 1] == w.tiles[c]) ==> w.tiles[c].visited
    {
      ghost var reached := Flood(start, w);
      forall c | c in members && w.tiles[c].visited
        ensures exists path :: RouteIn(w, path, start, mine) && path[|path| - 1] == w.tiles[c]
      {
        assert w.tiles[c] in reached;
      }
      if forall q :: q in mine && w.ChunkLoaded(q.pos) ==> q.pos in members {
        forall q | q in w.Parts() && q !in reached && q.pos in members ensures !q.visited {
          PartAtItsPosition(w, q);
        }
        ReachedIsClosed(w, start, this, reached, members);
      }
    }

    /** The first pass of `checkForDisconnections`: a reference that no longer
        resolves is dropped, the members that do not resolve are dropped, the
        parts of the others are marked unvisited, and the reference becomes the
        least of what resolves. */
    method Prune(w: World)
      requires w.Valid()
      modifies this`reference, this`members, w.PartsAt(members)`visited
      ensures members == w.ResolvingIn(old(members))
      ensures reference.None? <==> Kept(w, old(reference), old(members)) == {}
      ensures reference.Some? ==> IsLeast(reference.value, Kept(w, old(reference), old(members)))
      ensures forall c :: c in members ==> !w.tiles[c].visited
      ensures forall q :: q in w.Parts() && q.pos !in members ==> q.visited == old(q.visited)
    {
      if reference.Some? && !w.Resolves(reference.value) {
        reference := None;
      }
      var dead := PruneScan(w);
      members := members - dead;
    }

    /** The loop of the first pass: the members that do not resolve are
        collected, the parts of the others are marked unvisited and the
        reference is lowered to the least of them. */
    method PruneScan(w: World) returns (dead: set<Coord>)
      requires w.Valid()
      modifies this`reference, w.PartsAt(members)`visited
      ensures dead == members - w.ResolvingIn(members)
      ensures var base := if old(reference).Some? then {old(reference).value} else {};
        && (reference.None? <==> base + w.ResolvingIn(members) == {})
        && (reference.Some? ==> IsLeast(reference.value, base + w.ResolvingIn(members)))
      ensures forall q :: q in w.Parts() ==> q.visited == (q.pos !in w.ResolvingIn(members) && old(q.visited))
    {
      ghost var base: set<Coord> := if reference.Some? then {reference.value} else {};
      var rest := members;
      ghost var alive: set<Coord> := {};
      dead := {};
      forall q | q in w.Parts() ensures q.pos in w.tiles && w.tiles[q.pos] == q {
        PartAtItsPosition(w, q);
      }
      while rest != {}
        invariant rest + alive + dead == members
        invariant rest !! alive && rest !! dead && alive !! dead
        invariant (forall c :: c in alive ==> w.Resolves(c)) && forall c :: c in dead ==> !w.Resolves(c)
        invariant reference.None? <==> base + alive == {}
        invariant reference.Some? ==> IsLeast(reference.value, base + alive)
        invariant forall q :: q in w.Parts() ==> q.visited == (q.pos !in alive && old(q.visited))
        decreases rest
      {
        var c :| c in rest;
        if !w.Resolves(c) {
          dead := dead + {c};
        } else {
          PruneVisit(c, w, base, alive);
          alive := alive + {c};
        }
        rest := rest - {c};
      }
      assert alive == w.ResolvingIn(members);
    }

    /** A resolving member in the first pass: its part is marked unvisited
        and it replaces a missing or greater reference. */
    method PruneVisit(c: Coord, w: World, ghost base: set<Coord>, ghost alive: set<Coord>)
      requires w.Valid() && w.Resolves(c)
      requires reference.None? <==> base + alive == {}
      requires reference.Some? ==> IsLeast(reference.value, base + alive)
      modifies this`reference, w.PartsAt({c})`visited
      ensures reference.Some? && IsLeast(reference.value, base + alive + {c})
      ensures !w.tiles[c].visited
    {
      w.tiles[c].SetUnvisited();
      if reference.None? || Compare(c, reference.value) < 0 {
        reference := Some(c);
      }
    }

    /** The breadth-first visit of `checkForDisconnections` from `start`: a
        part taken from the queue is marked visited, and each of its neighbours
        that belongs to this controller and is not visited yet is marked and
        queued. The parts reached are returned. */
    method Flood(start: Part, w: World) returns (ghost reached: set<Part>)
      requires w.Valid() && start in w.Parts()
      modifies w.Parts()`visited
      ensures start in reached && reached <= w.Parts()
      ensures forall q :: q in reached ==> q.visited && (q == start || q.controller == this)
      ensures forall q :: q in w.Parts() && q !in reached ==> q.visited == old(q.visited)
      ensures forall q :: q in reached ==> exists path :: Route(w, path, start, this) && path[|path| - 1] == q
      ensures forall a, n :: a in reached && n in w.Parts() && n in LoadedParts(w, Neighbours(a.pos)) && n.controller == this ==>
        n.visited
    {
      ghost var mine := Attached(w, this);
      assert OwnedBy(w, mine, this);
      ghost var V0 := set q | q in w.Parts() && q.visited;
      ghost var V := V0;
      var queue := [start];
      reached := {start};
      ghost var done: set<Part> := {};
      ghost var route: map<Part, seq<Part>> := map[start := [start]];
      while queue != []
        invariant Flooding(w, start, mine, V0, V, done, reached, queue, route)
        invariant forall q :: q in w.Parts() ==> (q.visited <==> q in V)
        invariant OwnedBy(w, mine, this)
        decreases w.Parts() - done
      {
        FloodingHead(w, start, mine, V0, V, done, reached, queue, route);
        var queue', nearby, reached', V' := FloodStep(queue, mine, V, reached, w);
        var route' := ExtendRoutes(w, start, mine, route, reached, reached', queue[0], nearby);
        FloodAdvance(w, start, mine, V0, V, done, reached, queue, route, nearby, V', reached', queue', route');
        assert w.Parts() - (done + {queue[0]}) < w.Parts() - done;
        queue, done, reached, route, V := queue', done + {queue[0]}, reached', route', V';
      }
      FloodingDone(w, start, mine, V0, V, done, reached, queue, route);
      forall q | q in w.Parts() && q !in reached ensures q.visited == old(q.visited) {
        assert q in V <==> q in V0;
      }
      forall q | q in reached ensures q.visited && (q == start || q.controller == this) {
        assert q in V;
      }
      forall q | q in reached ensures exists path :: Route(w, path, start, this) && path[|path| - 1] == q {
        RouteOwned(w, route[q], start, mine, this);
      }
    }

    /** One turn of the visit: the head of the queue is taken and marked, and
        its unvisited neighbours in this controller are queued. */
    method FloodStep(queue: seq<Part>, ghost mine: set<Part>, ghost V: set<Part>, ghost reached: set<Part>, w: World)
      returns (queue': seq<Part>, ghost nearby: seq<Part>, ghost reached': set<Part>, ghost V': set<Part>)
      requires w.Valid() && queue != [] && reached <= w.Parts()
      requires forall q :: q in w.Parts() ==> (q.visited <==> q in V)
      requires OwnedBy(w, mine, this)
      requires Distinct(queue) && Elems(queue) <= reached && reached <= V + {queue[0]}
      modifies w.Parts()`visited
      ensures forall q :: q in w.Parts() ==> (q.visited <==> q in V')
      ensures nearby == LoadedParts(w, Neighbours(queue[0].pos)) && Elems(nearby) <= w.Parts()
      ensures reached <= reached' && V' == V + {queue[0]} + (reached' - reached)
      ensures reached' - reached <= mine && reached' - reached <= Elems(nearby)
      ensures Distinct(queue') && Elems(queue') == Elems(queue[1..]) + (reached' - reached)
      ensures forall n :: n in nearby && n in mine ==> n in V'
    {
      var part := queue[0];
      var rest := queue[1..];
      assert Elems(queue) == {part} + Elems(rest) by {
        assert queue == [part] + rest;
      }
      part.SetVisited();
      var near := part.GetNeighboringParts(w);
      forall q | q in near ensures q in w.Parts() {
        LoadedPartsMembers(w, Neighbours(part.pos), q);
      }
      queue', reached', V' := VisitNeighbours(near, rest, mine, V + {part}, reached, w);
      nearby := near;
    }

    /** The inner loop of the visit: the neighbours of `part` that belong to
        this controller and are not visited yet are marked and queued. */
    method VisitNeighbours(nearby: seq<Part>, queue: seq<Part>, ghost mine: set<Part>, ghost V: set<Part>,
                           ghost reached: set<Part>, w: World)
      returns (queue': seq<Part>, ghost reached': set<Part>, ghost V': set<Part>)
      requires w.Valid() && (forall q :: q in nearby ==> q in w.Parts())
      requires forall q :: q in w.Parts() ==> (q.visited <==> q in V)
      requires OwnedBy(w, mine, this)
      requires Distinct(queue) && Elems(queue) <= reached && reached <= V
      modifies w.Parts()`visited
      ensures forall q :: q in w.Parts() ==> (q.visited <==> q in V')
      ensures reached <= reached' && V' == V + (reached' - reached)
      ensures reached' - reached <= mine && reached' - reached <= Elems(nearby)
      ensures Distinct(queue') && Elems(queue') == Elems(queue) + (reached' - reached)
      ensures forall n :: n in nearby && n in mine ==> n in V'
    {
      queue', reached', V' := queue, reached, V;
      var i := 0;
      while i < |nearby|
        invariant 0 <= i <= |nearby|
        invariant forall q :: q in w.Parts() ==> (q.visited <==> q in V')
        invariant reached <= reached' && V' == V + (reached' - reached)
        invariant reached' - reached <= mine && reached' - reached <= Elems(nearby)
        invariant Distinct(queue') && Elems(queue') == Elems(queue) + (reached' - reached)
        invariant forall j :: 0 <= j < i && nearby[j] in mine ==> nearby[j] in V'
        invariant OwnedBy(w, mine, this)
      {
        var n := nearby[i];
        if n.controller == this && !n.visited {
          n.SetVisited();
          assert Elems(queue' + [n]) == Elems(queue') + {n};
          queue' := queue' + [n];
          reached' := reached' + {n};
          V' := V' + {n};
        }
        i := i + 1;
      }
      forall n | n in nearby && n in mine ensures n in V' {
        var j :| 0 <= j < |nearby| && nearby[j] == n;
      }
    }

    /** The last pass of `checkForDisconnections`: every member whose part was
        not visited is detached (a part attached elsewhere throws) and leaves
        the members. The parts detached are returned. */
    method Sweep(w: World) returns (r: Result<set<Part>>)
      requires w.Valid() && forall c :: c in members ==> c in w.tiles
      modifies this`members, this`shouldCheck, w.PartsAt(members)`controller, w.PartsAt(members)`saveDelegate
      ensures r.Ok? <==> forall c :: c in old(members) && !w.tiles[c].visited ==> old(w.tiles[c].controller) == this
      ensures r.Err? ==> members == old(members) && r.error.IllegalArgument?
      ensures r.Ok? ==>
        && members == (set c | c in old(members) && w.tiles[c].visited)
        && r.value == w.PartsAt(old(members) - members)
        && (forall q :: q in r.value ==> q.controller == null && !q.saveDelegate)
        && shouldCheck == (old(shouldCheck) || r.value != {})
    {
      var failure, dead, removed := SweepScan(w);
      if failure.Some? {
        return Err(failure.value);
      }
      members := members - dead;
      return Ok(removed);
    }

    /** The loop of the last pass: the members whose parts were not visited
        are detached one by one, stopping at the first that throws. The
        three-argument `onOrphaned` hook called before each detach is not
        defined anywhere and changes nothing here. */
    method SweepScan(w: World) returns (failure: Option<JavaException>, dead: set<Coord>, removed: set<Part>)
      requires w.Valid() && forall c :: c in members ==> c in w.tiles
      modifies this`shouldCheck, w.PartsAt(members)`controller, w.PartsAt(members)`saveDelegate
      ensures failure.None? <==> forall c :: c in members && !w.tiles[c].visited ==> old(w.tiles[c].controller) == this
      ensures failure.Some? ==> failure.value.IllegalArgument?
      ensures failure.None? ==>
        && dead == (set c | c in members && !w.tiles[c].visited)
        && removed == w.PartsAt(dead)
        && (forall q :: q in removed ==> q.controller == null && !q.saveDelegate)
        && shouldCheck == (old(shouldCheck) || removed != {})
    {
      var rest := members;
      dead, removed := {}, {};
      ghost var seen: set<Coord> := {};
      while rest != {}
        invariant rest + seen == members && rest !! seen
        invariant dead == set c | c in seen && !w.tiles[c].visited
        invariant removed == w.PartsAt(dead)
        invariant forall c :: c in dead ==> old(w.tiles[c].controller) == this
        invariant forall q :: q in removed ==> q.controller == null && !q.saveDelegate
        invariant forall c :: c in rest ==> w.tiles[c].controller == old(w.tiles[c].controller)
        invariant shouldCheck == (old(shouldCheck) || removed != {})
        decreases rest
      {
        var c :| c in rest;
        var part := w.tiles[c];
        if !part.visited {
          var d := OnDetachBlock(part);
          if d.Fail? {
            return Some(d.error), dead, removed;
          }
          dead := dead + {c};
          removed := removed + {part};
        }
        rest := rest - {c};
        seen := seen + {c};
      }
      return None, dead, removed;
    }
  }

  /** The election loop of `detachBlock`: the least position of `s` in a loaded
      chunk that holds a part, skipping the others. */
  method LeastResolving(w: World, s: set<Coord>) returns (r: Option<Coord>)
    ensures r.None? <==> w.ResolvingIn(s) == {}
    ensures r.Some? ==> IsLeast(r.value, w.ResolvingIn(s))
  {
    r := None;
    var rest := s;
    ghost var seen: set<Coord> := {};
    while rest != {}
      invariant rest + seen == s && rest !! seen
      invariant r.None? <==> w.ResolvingIn(seen) == {}
      invariant r.Some? ==> IsLeast(r.value, w.ResolvingIn(seen))
      decreases rest
    {
      var c :| c in rest;
      if w.Resolves(c) && (r.None? || Compare(c, r.value) < 0) {
        r := Some(c);
      }
      assert w.ResolvingIn(seen + {c}) == w.ResolvingIn(seen) + (if w.Resolves(c) then {c} else {});
      rest := rest - {c};
      seen := seen + {c};
    }
  }

  /** `assimilate`'s guard. A missing own reference with a present other
      reference dereferences null. */
  function AssimilateVerdict(mine: Option<Coord>, theirs: Option<Coord>): Outcome {
    if theirs.None? then Pass
    else if mine.None? then Fail(NullPointer)
    else if Compare(mine.value, theirs.value) >= 0 then
      Fail(IllegalArgument(ConsumeOrderMessage))
    else Pass
  }

  /** Java `int` range for every coordinate of every position. */
  predicate AllInt(s: set<Coord>) {
    forall c :: c in s ==> IsInt(c.x) && IsInt(c.y) && IsInt(c.z)
  }

  function Along(c: Coord, a: Axis): int {
    match a
    case X => c.x
    case Y => c.y
    case Z => c.z
  }

  /** The accumulation loop of `recalculateMinMaxCoords`. */
  method BoundsOf(s: set<Coord>) returns (lo: Coord, hi: Coord)
    ensures Spans(lo.x, hi.x, s, X) && Spans(lo.y, hi.y, s, Y) && Spans(lo.z, hi.z, s, Z)
  {
    var lx, ly, lz := IntMax, IntMax, IntMax;
    var hx, hy, hz := IntMin, IntMin, IntMin;
    var rest := s;
    ghost var seen: set<Coord> := {};
    while rest != {}
      invariant rest + seen == s && rest !! seen
      invariant Spans(lx, hx, seen, X) && Spans(ly, hy, seen, Y) && Spans(lz, hz, seen, Z)
      decreases rest
    {
      var c :| c in rest;
      SpansStep(lx, hx, seen, X, c);
      SpansStep(ly, hy, seen, Y, c);
      SpansStep(lz, hz, seen, Z, c);
      lx, hx := Lower(lx, Along(c, X)), Upper(hx, Along(c, X));
      ly, hy := Lower(ly, Along(c, Y)), Upper(hy, Along(c, Y));
      lz, hz := Lower(lz, Along(c, Z)), Upper(hz, Along(c, Z));
      rest := rest - {c};
      seen := seen + {c};
    }
    lo := Coord(lx, ly, lz);
    hi := Coord(hx, hy, hz);
  }

  /** The loop state of `recalculateMinMaxCoords` along one axis after the
      positions `seen`: `[l, h]` holds them all, starts from the empty interval
      of the integer extremes, and each bound is a sentinel or attained. */
  ghost predicate Spans(l: int, h: int, seen: set<Coord>, a: Axis) {
    (forall c :: c in seen ==> l <= Along(c, a) <= h) &&
    l <= IntMax && h >= IntMin &&
    (l == IntMax || exists c :: c in seen && Along(c, a) == l) &&
    (h == IntMin || exists c :: c in seen && Along(c, a) == h)
  }

  function Lower(l: int, v: int): int { if v < l then v else l }

  function Upper(h: int, v: int): int { if v > h then v else h }

  lemma SpansStep(l: int, h: int, seen: set<Coord>, a: Axis, c: Coord)
    requires Spans(l, h, seen, a)
    ensures Spans(Lower(l, Along(c, a)), Upper(h, Along(c, a)), seen + {c}, a)
  {
  }

  lemma SpansTight(l: int, h: int, s: set<Coord>, a: Axis)
    requires Spans(l, h, s, a) && s != {} && AllInt(s)
    ensures exists c :: c in s && Along(c, a) == l
    ensures exists c :: c in s && Along(c, a) == h
  {
    var c :| c in s;
    assert IsInt(Along(c, a)) by { match a case X => case Y => case Z => }
  }

  lemma SpansBox(lo: Coord, hi: Coord, s: set<Coord>)
    requires Spans(lo.x, hi.x, s, X) && Spans(lo.y, hi.y, s, Y) && Spans(lo.z, hi.z, s, Z)
    ensures forall c :: c in s ==> InBox(lo, hi, c)
    ensures s != {} && AllInt(s) ==> Tight(lo, hi, s)
  {
    forall c | c in s
      ensures InBox(lo, hi, c)
    {
      assert lo.x <= Along(c, X) <= hi.x && lo.y <= Along(c, Y) <= hi.y && lo.z <= Along(c, Z) <= hi.z;
    }
    if s != {} && AllInt(s) {
      forall a: Axis
        ensures (exists c :: c in s && Along(c, a) == Along(lo, a)) && (exists c :: c in s && Along(c, a) == Along(hi, a))
      {
        match a
        case X => SpansTight(lo.x, hi.x, s, X);
        case Y => SpansTight(lo.y, hi.y, s, Y);
        case Z => SpansTight(lo.z, hi.z, s, Z);
      }
    }
  }

  /** Each face of the box touches some position of `s`. */
  ghost predicate Tight(lo: Coord, hi: Coord, s: set<Coord>) {
    forall a: Axis :: (exists c :: c in s && Along(c, a) == Along(lo, a)) && (exists c :: c in s && Along(c, a) == Along(hi, a))
  }

  /** What `onDetached(c)` does with a part whose controller is `current`. */
  function DetachVerdict(current: Controller?, c: Controller): Outcome {
    if current == null then Fail(IllegalArgument(DetachUnattachedMessage))
    else if current != c then Fail(IllegalArgument(DetachWrongMessage))
    else Pass
  }

  // ===========================================================================
  // Parts

  class Part {
    const pos: Coord
    /** The controller class this part creates when it starts a machine. */
    const blueprint: Blueprint
    /** The box positions this part refuses, with its reasons (`isGoodForFrame`, ...). */
    const rejects: map<Position, string>

    var controller: Controller?
    var visited: bool
    /** `saveMultiblockData`: this part saves the controller's data. */
    var saveDelegate: bool

    constructor (pos: Coord, blueprint: Blueprint, rejects: map<Position, string>)
      ensures this.pos == pos && this.blueprint == blueprint && this.rejects == rejects
      ensures controller == null && !visited && !saveDelegate
    {
      this.pos := pos;
      this.blueprint := blueprint;
      this.rejects := rejects;
      controller := null;
      visited := false;
      saveDelegate := false;
    }

    predicate IsConnected() reads this { controller != null }

    predicate IsVisited() reads this { visited }

    method SetVisited()
      modifies this`visited
      ensures IsVisited()
    {
      visited := true;
    }

    method SetUnvisited()
      modifies this`visited
      ensures !IsVisited()
    {
      visited := false;
    }

    method BecomeSaveDelegate()
      modifies this`saveDelegate
      ensures saveDelegate
    {
      saveDelegate := true;
    }

    method ForfeitSaveDelegate()
      modifies this`saveDelegate
      ensures !saveDelegate
    {
      saveDelegate := false;
    }

    method OnAttached(c: Controller)
      modifies this`controller
      ensures controller == c && IsConnected()
    {
      controller := c;
    }

    /** `onMergedIntoOtherMultiblock`, also what the controller's call of the
        part's `onAssimilated` stands for. */
    method OnMergedIntoOtherMultiblock(c: Controller)
      modifies this`controller
      ensures controller == c
    {
      controller := c;
    }

    /** `onDetached`: throws unless attached to `c`; then forgets the controller. */
    method OnDetached(c: Controller) returns (o: Outcome)
      modifies this`controller
      ensures o == DetachVerdict(old(controller), c)
      ensures o.Pass? <==> old(controller) == c
      ensures o.Pass? ==> !IsConnected()
      ensures o.Fail? ==> controller == old(controller)
    {
      if controller == null {
        return Fail(IllegalArgument(DetachUnattachedMessage));
      } else if controller != c {
        return Fail(IllegalArgument(DetachWrongMessage));
      }
      controller := null;
      return Pass;
    }

    /** `assertDetached`: a part still pointing at a controller is repaired. */
    method AssertDetached()
      modifies this`controller
      ensures !IsConnected()
    {
      if controller != null {
        controller := null;
      }
    }

    /** The part is the tile entity at its own position. */
    predicate InWorld(w: World) {
      pos in w.tiles && w.tiles[pos] == this
    }

    /** The controllers this part's connected neighbours belong to. */
    ghost function NeighbourOwners(w: World): set<Controller>
      reads w.Parts()
    {
      set c | c in Neighbours(pos) && w.Resolves(c) && w.tiles[c].controller != null :: w.tiles[c].controller
    }

    /** `getNeighboringParts`: the parts at the six face neighbours, in the
        source's order, skipping positions whose chunk is not loaded. */
    method GetNeighboringParts(w: World) returns (r: seq<Part>)
      ensures r == LoadedParts(w, Neighbours(pos))
    {
      var ns := Neighbours(pos);
      r := [];
      var i := 0;
      while i < |ns|
        invariant 0 <= i <= |ns|
        invariant r == LoadedParts(w, ns[..i])
      {
        assert ns[..i + 1][..i] == ns[..i];
        if w.ChunkLoaded(ns[i]) && ns[i] in w.tiles {
          r := r + [w.tiles[ns[i]]];
        }
        i := i + 1;
      }
      assert ns[..i] == ns;
    }

    /** `createNewMultiblock`: a fresh controller of this part's class, with
        this part attached as its only member and reference. */
    method CreateNewMultiblock(w: World, reg: Registry) returns (c: Controller)
      requires w.Valid()
      modifies this`controller, this`saveDelegate, reg`dirty
      ensures fresh(c) && c.kind == blueprint.kind && c.limits == blueprint.limits
      ensures controller == c && saveDelegate
      ensures c.members == {pos} && c.reference == Some(pos) && c.state == Disassembled && c.shouldCheck
      ensures c.minCoord == Coord(0, 0, 0) && c.maxCoord == Coord(0, 0, 0) && c.events == [] && c.lastError == None
      ensures reg.dirty == old(reg.dirty) + {c}
    {
      c := new Controller(blueprint);
      var o := c.AttachBlock(this, w, reg);
    }

    /** `attachToNeighbors`: the controllers of the connected neighbours are
        listed once each. With none the result is null and nothing changes.
        Otherwise the part attaches to the one with the least reference (the
        selection of `onBlockAdded`, which throws on a missing or repeated
        reference) and the listed controllers are returned. */
    method AttachToNeighbors(w: World, reg: Registry) returns (r: Result<Option<set<Controller>>>)
      requires w.Valid()
      modifies this`controller, this`saveDelegate, w.Parts()`saveDelegate
      modifies NeighbourOwners(w)`members, NeighbourOwners(w)`reference, reg`dirty
      ensures old(NeighbourOwners(w)) == {} ==>
        r == Ok(None) && controller == old(controller) && reg.dirty == old(reg.dirty)
      ensures r.Ok? && r.value.Some? ==>
        && r.value.value == old(NeighbourOwners(w)) != {}
        && AttachedLeast(this, controller, old(Snapshot(NeighbourOwners(w))))
        && reg.dirty == old(reg.dirty) + {controller}
      ensures r.Ok? ==> (r.value.None? <==> old(NeighbourOwners(w)) == {})
      ensures r.Err? ==> controller == old(controller) || controller in old(NeighbourOwners(w))
      ensures old(Selectable(NeighbourOwners(w), w)) ==> r.Ok?
    {
      ghost var before := NeighbourOwners(w);
      var neighbours := GetNeighboringParts(w);
      var owners := DistinctControllers([], neighbours);
      OwnersListed(this, w, neighbours, [], owners);
      assert Elems(owners) == before;
      if owners == [] {
        return Ok(None);
      }
      var o := AttachToLeast(owners, before, old(Snapshot(before)), w, reg);
      if o.Fail? {
        return Err(o.error);
      }
      return Ok(Some(Elems(owners)));
    }

    /** The connected branch of `attachToNeighbors`: select the target and
        attach to it. */
    method AttachToLeast(owners: seq<Controller>, ghost listed: set<Controller>,
                         ghost before: map<Controller, (Option<Coord>, set<Coord>)>, w: World, reg: Registry)
      returns (o: Outcome)
      requires w.Valid() && Distinct(owners) && |owners| > 0 && Elems(owners) == listed && before == Snapshot(listed)
      modifies this`controller, this`saveDelegate, w.Parts()`saveDelegate, listed`members, listed`reference, reg`dirty
      ensures o.Pass? ==> AttachedLeast(this, controller, before) && reg.dirty == old(reg.dirty) + {controller}
      ensures o.Fail? ==> controller == old(controller) || controller in listed
      ensures old(Selectable(listed, w)) ==> o.Pass?
    {
      if Selectable(listed, w) {
        forall i, j | 0 <= i < j < |owners|
          ensures owners[i].reference != owners[j].reference
        {
          assert owners[i] in listed && owners[j] in listed;
        }
        assert forall j :: 0 <= j < |owners| ==> owners[j] in listed;
      }
      var sel := SelectTarget(owners);
      if sel.Err? {
        return Fail(sel.error);
      }
      var target := owners[sel.value];
      assert target in listed;
      forall d | d in before && d != target
        ensures before[target].0.Some? && before[d].0.Some? && LexLess(before[target].0.value, before[d].0.value)
      {
        var j :| 0 <= j < |owners| && owners[j] == d;
      }
      assert target.ReferencePart(w) <= w.Parts();
      o := target.AttachBlock(this, w, reg);
    }

    /** `onBlockAdded`: the controllers of the connected neighbours are listed
        once each; with none, the part starts a machine of its own. Otherwise
        the one with the least reference is chosen (two equal references throw),
        the part attaches to it, and every other listed controller is merged
        into it. */
    method OnBlockAdded(w: World, reg: Registry) returns (o: Outcome)
      requires w.Valid()
      modifies this`controller, this`saveDelegate, w.Parts()`controller, w.Parts()`saveDelegate
      modifies NeighbourOwners(w)`members, NeighbourOwners(w)`reference, reg`dirty
      ensures old(NeighbourOwners(w)) == {} ==>
        o.Pass? && controller != null && fresh(controller) &&
        controller.members == {pos} && controller.reference == Some(pos) && saveDelegate
      ensures o.Pass? && old(NeighbourOwners(w)) != {} ==> JoinedLeast(this, controller, old(Snapshot(NeighbourOwners(w))), w)
      ensures old(Selectable(NeighbourOwners(w), w)) ==> o.Pass?
    {
      ghost var before := NeighbourOwners(w);
      ghost var snap := Snapshot(before);
      assert Records(snap, before);
      var neighbours := GetNeighboringParts(w);
      var owners := DistinctControllers([], neighbours);
      OwnersListed(this, w, neighbours, [], owners);
      assert Elems(owners) == before;
      if owners == [] {
        var c := CreateNewMultiblock(w, reg);
        return Pass;
      }
      assert owners[0] in before;
      o := JoinLeast(owners, before, snap, w, reg);
    }

    /** The connected branch of `onBlockAdded`: select the target, attach to
        it, merge the rest into it. */
    method JoinLeast(owners: seq<Controller>, ghost listed: set<Controller>,
                     ghost before: map<Controller, (Option<Coord>, set<Coord>)>, w: World, reg: Registry)
      returns (o: Outcome)
      requires w.Valid() && Distinct(owners) && |owners| > 0 && Elems(owners) == listed && Records(before, Elems(owners))
      modifies this`controller, this`saveDelegate, w.Parts()`controller, w.Parts()`saveDelegate
      modifies listed`members, listed`reference, reg`dirty
      ensures o.Pass? ==> JoinedLeast(this, controller, before, w)
      ensures old(Selectable(listed, w)) ==> o.Pass?
    {
      var sel := SelectTarget(owners);
      if sel.Err? {
        return Fail(sel.error);
      }
      var target := owners[sel.value];
      var others := owners[..sel.value] + owners[sel.value + 1..];
      RemoveAt(owners, sel.value);
      forall d | d in Elems(owners) && d != target
        ensures target.reference.Some? && d.reference.Some? && LexLess(target.reference.value, d.reference.value)
      {
        var j :| 0 <= j < |owners| && owners[j] == d;
      }
      ChosenLeast(target, Elems(owners), before);
      RecordedHoldings(before, listed, listed - {target});
      ghost var held := MembersOf(Elems(others));
      assert target.members == before[target].1 && target.reference == before[target].0;
      o := AttachAndMerge(target, others, w, reg);
      if o.Pass? {
        JoinSettles(this, target, before, w, held);
      }
    }

    /** `onBlockAdded` once the target is chosen: attach to it, then merge
        every other controller into it. */
    method AttachAndMerge(target: Controller, others: seq<Controller>, w: World, reg: Registry) returns (o: Outcome)
      requires w.Valid() && Distinct(others) && target !in others
      requires forall d :: d in others ==>
        target.reference.Some? && d.reference.Some? && LexLess(target.reference.value, d.reference.value)
      modifies this`controller, this`saveDelegate, w.Parts()`controller, w.Parts()`saveDelegate
      modifies target`members, target`reference, Elems(others)`members, Elems(others)`reference, reg`dirty
      ensures o.Pass? ==>
        && controller == target
        && target.members == old(target.members) + {pos} + (old(MembersOf(Elems(others))) * w.tiles.Keys)
        && (forall c :: c in old(MembersOf(Elems(others))) && c in w.tiles ==> w.tiles[c].controller == target)
        && target.reference == Some(if old(target.reference).None? || Compare(pos, old(target.reference).value) < 0
                                    then pos else old(target.reference).value)
        && forall d :: d in others ==> d.members == {} && d.reference == None
      ensures old(target.reference).None? || old(target.reference).value in w.tiles ==> o.Pass?
    {
      assert target.ReferencePart(w) <= w.Parts();
      ghost var targetRef := target.reference;
      ghost var gain := MembersOf(Elems(others));
      o := target.AttachBlock(this, w, reg);
      assert MembersOf(Elems(others)) == gain;
      if o.Fail? || others == [] {
        assert others == [] ==> Elems(others) == {};
        return;
      }
      assert others[0] in others;
      MergeVerdictsPass(targetRef.value, target.reference.value, pos, others);
      target.AllAdmittedIff(target.reference, false, others);
      o := target.AssimilateAll(others, false, w, this);
    }

    /** `onOrphaned`: a connected part throws. Otherwise the part starts a
        machine of its own and then adopts, breadth first, every unconnected
        part reachable from it through unconnected neighbours in loaded chunks. */
    method OnOrphaned(w: World, reg: Registry) returns (o: Outcome)
      requires w.Valid() && InWorld(w)
      modifies this`controller, this`saveDelegate, w.Parts()`controller, w.Parts()`saveDelegate, reg`dirty
      ensures old(controller) != null ==>
        && o == Fail(IllegalState(NotOrphanMessage)) && reg.dirty == old(reg.dirty)
        && forall q :: q in w.Parts() ==> q.controller == old(q.controller) && q.saveDelegate == old(q.saveDelegate)
      ensures old(controller) == null ==>
        && o.Pass? && controller != null && fresh(controller) && controller.kind == blueprint.kind
        && reg.dirty == old(reg.dirty) + {controller}
        && (forall q :: q in w.Parts() ==>
              q.controller == old(q.controller) || (old(q.controller) == null && q.controller == controller))
        && controller.members == (set q | q in w.Parts() && q.controller == controller :: q.pos)
        && controller.reference.Some? && IsLeast(controller.reference.value, controller.members)
      ensures old(controller) == null ==>
        forall path: seq<Part> :: NeighbourPath(w, path, old(Unconnected(w))) && path[0] == this ==>
          path[|path| - 1].controller == controller
    {
      if controller != null {
        return Fail(IllegalState(NotOrphanMessage));
      }
      ghost var unconnected := Unconnected(w);
      var c := CreateNewMultiblock(w, reg);
      var neighbours := GetNeighboringParts(w);
      var queue := EnqueueUnconnected([], neighbours);
      ghost var attached: set<Part> := {this};
      forall q | q in queue ensures q in w.Parts() {
        LoadedPartsMembers(w, Neighbours(pos), q);
      }
      assert c.members == set q | q in attached :: q.pos;
      assert Adopting(w, c, attached, queue);
      while queue != []
        invariant fresh(c) && controller == c && c.kind == blueprint.kind && reg.dirty == old(reg.dirty) + {c}
        invariant Adopting(w, c, attached, queue)
        invariant forall q :: q in w.Parts() ==>
          q.controller == old(q.controller) || (old(q.controller) == null && q.controller == c)
        decreases |Unconnected(w)|, |queue|
      {
        queue, attached := AdoptStep(c, attached, queue, w, reg);
      }
      AdoptionComplete(w, c, attached, unconnected);
      return Pass;
    }

    /** The controller this part points at and those of its connected
        neighbours. */
    ghost function Candidates(w: World): set<Controller>
      reads this, w.Parts()
    {
      Owner() + NeighbourOwners(w)
    }

    /** `clientCheckForMerges`: like `onBlockAdded`, but the part's own
        controller is listed first. When it is the only controller around,
        nothing happens; with no controller at all the part is orphaned.
        Otherwise the part moves to the controller with the least reference
        (leaving its own with a chunk-unload detach) and every other listed
        controller that is not empty is merged into it. */
    method ClientCheckForMerges(w: World, reg: Registry) returns (o: Outcome)
      requires w.Valid() && InWorld(w)
      modifies this`controller, this`saveDelegate, w.Parts()`controller, w.Parts()`saveDelegate, reg`dirty, reg`dead
      modifies Candidates(w)`members, Candidates(w)`reference, Owner()`state, Owner()`events, Owner()`shouldCheck
      ensures old(controller) != null && old(NeighbourOwners(w)) <= {old(controller)} ==>
        && o.Pass? && controller == old(controller)
        && controller.members == old(controller.members) && controller.reference == old(controller.reference)
        && controller.state == old(controller.state)
        && reg.dirty == old(reg.dirty) && reg.dead == old(reg.dead)
        && forall q :: q in w.Parts() ==> q.controller == old(q.controller) && q.saveDelegate == old(q.saveDelegate)
      ensures old(controller) == null && old(NeighbourOwners(w)) == {} ==>
        o.Pass? && controller != null && fresh(controller) && pos in controller.members
      ensures o.Pass? && old(Candidates(w)) != {} ==>
        Rejoined(this, controller, old(controller), old(Snapshot(Candidates(w))), w)
    {
      ghost var before := Candidates(w);
      ghost var snap := Snapshot(before);
      assert Records(snap, before);
      ghost var lone := controller != null && NeighbourOwners(w) <= {controller};
      ghost var orphan := controller == null && NeighbourOwners(w) == {};
      var neighbours := GetNeighboringParts(w);
      var init := if controller == null then [] else [controller];
      var owners := DistinctControllers(init, neighbours);
      OwnersListed(this, w, neighbours, init, owners);
      assert Elems(owners) == before;
      if lone {
        assert Candidates(w) == {controller};
        OnlyElement(owners, controller);
      }
      if |owners| == 1 && owners[0] == controller {
        assert before == {controller} && !orphan;
        LoneRejoined(this, controller, snap, w);
        return Pass;
      }
      if owners == [] {
        assert before == {} && orphan && !lone;
        o := OnOrphaned(w, reg);
        assert this in w.Parts();
        return;
      }
      assert owners[0] in before && !lone && !orphan;
      o := Rejoin(owners, snap, w, reg);
    }

    /** The branch of `clientCheckForMerges` that moves and merges. */
    method Rejoin(owners: seq<Controller>, ghost before: map<Controller, (Option<Coord>, set<Coord>)>, w: World, reg: Registry)
      returns (o: Outcome)
      requires w.Valid() && InWorld(w) && Distinct(owners) && |owners| > 0 && (controller != null ==> controller in owners)
      requires Records(before, Elems(owners))
      modifies this`controller, this`saveDelegate, w.Parts()`controller, w.Parts()`saveDelegate, reg`dirty, reg`dead
      modifies Elems(owners)`members, Elems(owners)`reference, Owner()`state, Owner()`events, Owner()`shouldCheck
      ensures o.Pass? ==> Rejoined(this, controller, old(controller), before, w)
    {
      var sel := SelectTarget(owners);
      if sel.Err? {
        return Fail(sel.error);
      }
      var target := owners[sel.value];
      var others := owners[..sel.value] + owners[sel.value + 1..];
      RemoveAt(owners, sel.value);
      forall d | d in Elems(owners) && d != target
        ensures target.reference.Some? && d.reference.Some? && LexLess(target.reference.value, d.reference.value)
      {
        var j :| 0 <= j < |owners| && owners[j] == d;
      }
      ChosenLeast(target, Elems(owners), before);
      ghost var home := controller;
      if target != controller {
        ghost var left := if controller == null then target else controller;
        o := MoveTo(target, w, reg);
        if o.Fail? {
          return;
        }
        HoldingsBound(before, Elems(others), left, pos);
      } else {
        RecordedHoldings(before, Elems(owners), Elems(others));
      }
      o := SettleOn(target, others, home, before, w);
    }

    /** The merge loop of `clientCheckForMerges`, once the part is on
        `target`: every other controller that is not empty is merged into it. */
    method SettleOn(target: Controller, others: seq<Controller>, ghost home: Controller?,
                    ghost before: map<Controller, (Option<Coord>, set<Coord>)>, w: World) returns (o: Outcome)
      requires w.Valid() && InWorld(w) && controller == target && ElectedIn(target, before)
      requires Distinct(others) && target !in others && Elems(others) == before.Keys - {target}
      requires target.members == before[target].1 + (if target == home then {} else {pos})
      requires Holdings(before, Elems(others)) - {pos} <= MembersOf(Elems(others)) <= Holdings(before, Elems(others))
      requires target == home ==> MembersOf(Elems(others)) == Holdings(before, Elems(others))
      modifies target`members, Elems(others)`members, Elems(others)`reference, w.Parts()`controller, w.Parts()`saveDelegate
      ensures controller == target
      ensures o.Pass? ==> Rejoined(this, target, home, before, w)
    {
      ghost var held := MembersOf(Elems(others));
      o := target.AssimilateAll(others, true, w, this);
      if o.Pass? {
        RejoinSettles(this, target, home, before, w, held);
      }
    }

    /** The move of `clientCheckForMerges`: the part leaves its own controller
        with a chunk-unload detach, then attaches to `target`. */
    method MoveTo(target: Controller, w: World, reg: Registry) returns (o: Outcome)
      requires w.Valid() && target != controller
      modifies this`controller, this`saveDelegate, w.Parts()`saveDelegate, reg`dirty, reg`dead
      modifies target`members, target`reference
      modifies Owner()`state, Owner()`events, Owner()`members, Owner()`reference, Owner()`shouldCheck
      ensures o.Pass? ==> controller == target && target.members == old(target.members) + {pos}
      ensures forall d :: d in old(Owner()) ==> d.members == old(d.members) - {pos}
    {
      if controller != null {
        var d := controller.DetachBlock(this, true, w, reg);
      }
      assert target.ReferencePart(w) <= w.Parts();
      o := target.AttachBlock(this, w, reg);
    }

    /** The controller this part points at, as a set. */
    function Owner(): set<Controller>
      reads this
    {
      if controller == null then {} else {controller}
    }

    /** `detachSelf`: an attached part detaches from its controller (which
        cannot throw, since the part points at it); an unattached part does
        nothing. Afterwards the part is not connected. */
    method DetachSelf(unloading: bool, w: World, reg: Registry)
      requires w.Valid()
      modifies this`controller, this`saveDelegate, w.Parts()`saveDelegate, reg`dirty, reg`dead
      modifies Owner()`state, Owner()`events, Owner()`members, Owner()`reference, Owner()`shouldCheck
      ensures !IsConnected()
      ensures old(controller) == null ==>
        saveDelegate == old(saveDelegate) && reg.dirty == old(reg.dirty) && reg.dead == old(reg.dead) &&
        forall q :: q in w.Parts() ==> q.saveDelegate == old(q.saveDelegate)
      ensures var c := old(controller);
        c != null ==>
          && c.members == old(c.members) - {pos} && !saveDelegate
          && (unloading && old(c.state) == Assembled ==> c.state == Paused)
          && (!(unloading && old(c.state) == Assembled) ==> c.state == old(c.state))
          && (c.members == {} ==> c in reg.dead) && (c.members != {} ==> c in reg.dirty)
    {
      if controller != null {
        var o := controller.DetachBlock(this, unloading, w, reg);
        controller := null;
      }
    }

    /** `invalidate`: the block was removed. */
    method Invalidate(w: World, reg: Registry)
      requires w.Valid()
      modifies this`controller, this`saveDelegate, w.Parts()`saveDelegate, reg`dirty, reg`dead
      modifies Owner()`state, Owner()`events, Owner()`members, Owner()`reference, Owner()`shouldCheck
      ensures !IsConnected()
      ensures var c := old(controller); c != null ==> c.members == old(c.members) - {pos} && c.state == old(c.state)
    {
      DetachSelf(false, w, reg);
    }

    /** `onChunkUnloaded`: the chunk is unloading, so an assembled machine pauses. */
    method OnChunkUnloaded(w: World, reg: Registry)
      requires w.Valid()
      modifies this`controller, this`saveDelegate, w.Parts()`saveDelegate, reg`dirty, reg`dead
      modifies Owner()`state, Owner()`events, Owner()`members, Owner()`reference, Owner()`shouldCheck
      ensures !IsConnected()
      ensures var c := old(controller);
        c != null ==> c.members == old(c.members) - {pos} && (old(c.state) == Assembled ==> c.state == Paused)
    {
      DetachSelf(true, w, reg);
    }
  }

  // ===========================================================================
  // Neighbours and controller selection

  /** The parts at the given positions in loaded chunks, in order. */
  function LoadedParts(w: World, cs: seq<Coord>): seq<Part>
  {
    if cs == [] then []
    else
      var last := cs[|cs| - 1];
      LoadedParts(w, cs[..|cs| - 1]) + (if w.Resolves(last) then [w.tiles[last]] else [])
  }

  lemma {:induction false} LoadedPartsMembers(w: World, cs: seq<Coord>, q: Part)
    requires w.Valid()
    ensures q in LoadedParts(w, cs) <==> q in w.Parts() && q.pos in cs && w.ChunkLoaded(q.pos)
  {
    if cs != [] {
      var last := cs[|cs| - 1];
      LoadedPartsMembers(w, cs[..|cs| - 1], q);
      assert cs == cs[..|cs| - 1] + [last];
      if q in w.Parts() {
        PartAtItsPosition(w, q);
      }
    }
  }

  /** `getNeighboringParts` finds exactly the parts one step away along one
      axis whose chunk is loaded. */
  lemma NeighbouringPartsExactly(w: World, c: Coord, q: Part)
    requires w.Valid()
    ensures q in LoadedParts(w, Neighbours(c)) <==> q in w.Parts() && FaceAdjacent(c, q.pos) && w.ChunkLoaded(q.pos)
  {
    LoadedPartsMembers(w, Neighbours(c), q);
    NeighboursAreFaceAdjacent(c, q.pos);
  }

  /** The loop of `onBlockAdded` that lists the controllers of the connected
      neighbours, each once, after those already listed. */
  method DistinctControllers(init: seq<Controller>, parts: seq<Part>) returns (cs: seq<Controller>)
    requires Distinct(init)
    ensures Distinct(cs) && |init| <= |cs| && cs[..|init|] == init
    ensures forall c :: c in cs <==> c in init || exists q :: q in parts && q.controller == c
  {
    cs := init;
    var i := 0;
    while i < |parts|
      invariant 0 <= i <= |parts|
      invariant Distinct(cs) && |init| <= |cs| && cs[..|init|] == init
      invariant forall c :: c in cs <==> c in init || exists q :: q in parts[..i] && q.controller == c
    {
      assert parts[..i + 1] == parts[..i] + [parts[i]];
      var owner := parts[i].controller;
      if owner != null && owner !in cs {
        cs := cs + [owner];
      }
      i := i + 1;
    }
    assert parts[..i] == parts;
  }

  /** The state of the flood fill of `onOrphaned`: the parts of `c` are those
      adopted so far, its members are their positions, its reference is the
      least of them and sits on a part, and every unconnected loaded neighbour
      of an adopted part is queued. */
  ghost predicate Adopting(w: World, c: Controller, attached: set<Part>, queue: seq<Part>)
    reads w.Parts(), c
  {
    && attached <= w.Parts()
    && (forall q :: q in w.Parts() ==> (q.controller == c <==> q in attached))
    && c.members == (set q | q in attached :: q.pos)
    && c.reference.Some? && c.reference.value in w.tiles && IsLeast(c.reference.value, c.members)
    && (forall q :: q in queue ==> q in w.Parts())
    && forall a, n :: a in attached && n in w.Parts() && n in LoadedParts(w, Neighbours(a.pos)) && n.controller == null ==>
         n in queue
  }

  /** One turn of the flood fill: take the head of the queue; an unconnected
      part is attached and its unconnected neighbours are queued. Either one
      more part is connected or the queue is shorter. */
  method AdoptStep(c: Controller, ghost attached: set<Part>, queue: seq<Part>, w: World, reg: Registry)
    returns (queue': seq<Part>, ghost attached': set<Part>)
    requires w.Valid() && Adopting(w, c, attached, queue) && queue != [] && c in reg.dirty
    modifies w.Parts()`controller, w.Parts()`saveDelegate, c`members, c`reference, reg`dirty
    ensures Adopting(w, c, attached', queue')
    ensures reg.dirty == old(reg.dirty)
    ensures forall q :: q in w.Parts() ==>
      q.controller == old(q.controller) || (old(q.controller) == null && q.controller == c)
    ensures |Unconnected(w)| < old(|Unconnected(w)|) || (Unconnected(w) == old(Unconnected(w)) && |queue'| < |queue|)
  {
    var part := queue[0];
    if part.controller != null {
      assert Adopting(w, c, attached, queue[1..]);
      return queue[1..], attached;
    }
    assert queue == [part] + queue[1..];
    queue', attached' := AdoptHead(c, attached, part, queue[1..], w, reg);
  }

  /** The attaching turn of the flood fill. */
  method AdoptHead(c: Controller, ghost attached: set<Part>, part: Part, rest: seq<Part>, w: World, reg: Registry)
    returns (queue': seq<Part>, ghost attached': set<Part>)
    requires w.Valid() && Adopting(w, c, attached, [part] + rest) && part.controller == null && c in reg.dirty
    modifies part`controller, w.Parts()`saveDelegate, c`members, c`reference, reg`dirty
    ensures Adopting(w, c, attached', queue')
    ensures reg.dirty == old(reg.dirty) && part.controller == c
    ensures part in old(Unconnected(w)) && Unconnected(w) == old(Unconnected(w)) - {part}
  {
    ghost var before := Unconnected(w);
    assert forall a, n :: a in attached && n in LoadedParts(w, Neighbours(a.pos)) && n in before ==> n in [part] + rest;
    PartAtItsPosition(w, part);
    AttachAdopted(c, part, w, reg);
    attached' := attached + {part};
    assert Unconnected(w) == before - {part};
    var more := part.GetNeighboringParts(w);
    queue' := EnqueueUnconnected(rest, more);
    QueueCoversAfterAttach(w, attached, part, rest, more, queue', before);
  }

  /** `attachBlock` as the flood fill uses it: the reference sits on a part, so
      the call cannot throw, and it stays the least member. */
  method AttachAdopted(c: Controller, part: Part, w: World, reg: Registry)
    requires w.Valid() && part in w.Parts() && c in reg.dirty
    requires c.reference.Some? && c.reference.value in w.tiles && IsLeast(c.reference.value, c.members)
    modifies part`controller, w.Parts()`saveDelegate, c`members, c`reference, reg`dirty
    ensures part.controller == c && c.members == old(c.members) + {part.pos} && reg.dirty == old(reg.dirty)
    ensures c.reference.Some? && c.reference.value in w.tiles && IsLeast(c.reference.value, c.members)
  {
    PartAtItsPosition(w, part);
    assert c.ReferencePart(w) <= w.Parts();
    var r := c.AttachBlock(part, w, reg);
  }

  /** The queue invariant of the flood fill survives attaching the head of the
      queue and queueing its unconnected neighbours. */
  lemma QueueCoversAfterAttach(w: World, attached: set<Part>, part: Part, rest: seq<Part>, more: seq<Part>,
                               queue': seq<Part>, before: set<Part>)
    requires w.Valid()
    requires forall a, n :: a in attached && n in LoadedParts(w, Neighbours(a.pos)) && n in before ==> n in [part] + rest
    requires Unconnected(w) == before - {part}
    requires more == LoadedParts(w, Neighbours(part.pos))
    requires forall x :: x in queue' <==> x in rest || (x in more && x.controller == null)
    ensures forall q :: q in more ==> q in w.Parts()
    ensures forall a, n :: a in attached + {part} && n in w.Parts() && n in LoadedParts(w, Neighbours(a.pos)) && n.controller == null ==>
      n in queue'
  {
    forall q | q in more ensures q in w.Parts() {
      LoadedPartsMembers(w, Neighbours(part.pos), q);
    }
    forall a, n | a in attached + {part} && n in w.Parts() && n in LoadedParts(w, Neighbours(a.pos)) && n.controller == null
      ensures n in queue'
    {
      if a != part {
        assert n in Unconnected(w);
        assert n in [part] + rest;
      }
    }
  }

  /** With the queue drained, no part of `c` has an unconnected loaded
      neighbour, so every walk through formerly unconnected parts from a part
      of `c` ends in `c`. */
  lemma AdoptionComplete(w: World, c: Controller, attached: set<Part>, U: set<Part>)
    requires w.Valid() && Adopting(w, c, attached, [])
    ensures c.members == (set q | q in w.Parts() && q.controller == c :: q.pos)
    ensures (forall q :: q in U ==> q in w.Parts() && (q.controller == null || q.controller == c)) ==>
      forall path: seq<Part> :: NeighbourPath(w, path, U) && path[0].controller == c ==> path[|path| - 1].controller == c
  {
    assert attached == set q | q in w.Parts() && q.controller == c;
    if forall q :: q in U ==> q in w.Parts() && (q.controller == null || q.controller == c) {
      forall a, n | a in U && a.controller == c && n in LoadedParts(w, Neighbours(a.pos))
        ensures n.controller != null
      {
        LoadedPartsMembers(w, Neighbours(a.pos), n);
      }
      forall path: seq<Part> | NeighbourPath(w, path, U) && path[0].controller == c
        ensures path[|path| - 1].controller == c
      {
        PathsStayAttached(w, path, U, c);
      }
    }
  }

  /** The positions the first pass of `checkForDisconnections` keeps: the
      members that resolve, and the reference while it resolves. */
  function Kept(w: World, ref: Option<Coord>, s: set<Coord>): set<Coord> {
    w.ResolvingIn(s) + (if ref.Some? && w.Resolves(ref.value) then {ref.value} else {})
  }

  /** The parts of the world that point at `c`. */
  ghost function Attached(w: World, c: Controller): set<Part>
    reads w.Parts()`controller
  {
    set q | q in w.Parts() && q.controller == c
  }

  /** A walk from `start` through parts of `mine`, each step to a face
      neighbour in a loaded chunk. */
  ghost predicate RouteIn(w: World, path: seq<Part>, start: Part, mine: set<Part>) {
    && |path| > 0 && path[0] == start
    && (forall i :: 0 <= i < |path| ==> path[i] in w.Parts())
    && (forall i :: 0 < i < |path| ==> path[i] in mine)
    && forall i :: 0 <= i < |path| - 1 ==> path[i + 1] in LoadedParts(w, Neighbours(path[i].pos))
  }

  /** `mine` holds exactly the parts of the world that point at `c`. */
  ghost predicate OwnedBy(w: World, mine: set<Part>, c: Controller)
    reads w.Parts()`controller
  {
    forall q :: q in w.Parts() ==> (q in mine <==> q.controller == c)
  }

  /** A walk from `start` through the parts that belong to `c`. */
  ghost predicate Route(w: World, path: seq<Part>, start: Part, c: Controller)
    reads w.Parts()`controller
  {
    RouteIn(w, path, start, Attached(w, c))
  }

  /** The state of the visit of `checkForDisconnections`, its visited flags
      given as the set `V` (`V0` before the visit) and the parts of the
      controller as `mine`: `reached` is what was queued so far and `done`
      what was taken off the queue; every part reached is visited (the start
      once it is taken) and, except the start, belongs to the controller;
      nothing else changed its flag; each part reached has a walk from the
      start; and every neighbour in the controller of a part taken off the
      queue is visited. */
  ghost predicate Flooding(w: World, start: Part, mine: set<Part>, V0: set<Part>, V: set<Part>, done: set<Part>,
                           reached: set<Part>, queue: seq<Part>, route: map<Part, seq<Part>>)
  {
    && reached <= w.Parts() && start in reached && done <= reached
    && Distinct(queue) && reached == done + Elems(queue) && done !! Elems(queue)
    && ((done == {} && queue == [start]) || start in done)
    && reached - {start} <= V && done <= V && reached - {start} <= mine
    && V - reached == V0 - reached
    && route.Keys == reached
    && (forall q :: q in reached ==> RouteIn(w, route[q], start, mine) && route[q][|route[q]| - 1] == q)
    && forall a, n :: a in done && n in mine && n in LoadedParts(w, Neighbours(a.pos)) ==> n in V
  }

  /** What a turn of the visit needs from its state. */
  lemma FloodingHead(w: World, start: Part, mine: set<Part>, V0: set<Part>, V: set<Part>, done: set<Part>,
                     reached: set<Part>, queue: seq<Part>, route: map<Part, seq<Part>>)
    requires Flooding(w, start, mine, V0, V, done, reached, queue, route) && queue != []
    ensures Elems(queue) <= reached && reached <= V + {queue[0]} && queue[0] !in done
  {
    assert queue[0] in Elems(queue);
  }

  /** The visit state once the queue is empty, as plain facts. */
  lemma FloodingDone(w: World, start: Part, mine: set<Part>, V0: set<Part>, V: set<Part>, done: set<Part>,
                     reached: set<Part>, queue: seq<Part>, route: map<Part, seq<Part>>)
    requires Flooding(w, start, mine, V0, V, done, reached, queue, route) && queue == []
    ensures reached == done && start in reached && reached <= w.Parts() && reached <= V && reached - {start} <= mine
    ensures forall q :: q !in reached ==> (q in V <==> q in V0)
    ensures forall q :: q in reached ==> RouteIn(w, route[q], start, mine) && route[q][|route[q]| - 1] == q
    ensures forall a, n :: a in reached && n in mine && n in LoadedParts(w, Neighbours(a.pos)) ==> n in V
  {
    assert Elems(queue) == {};
    forall q | q !in reached ensures q in V <==> q in V0 {
      assert q in V - reached <==> q in V0 - reached;
    }
  }

  /** The visit state after one turn: the head of the queue is done and its
      neighbours in `mine` are visited. */
  lemma FloodAdvance(w: World, start: Part, mine: set<Part>, V0: set<Part>, V: set<Part>, done: set<Part>,
                     reached: set<Part>, queue: seq<Part>, route: map<Part, seq<Part>>, nearby: seq<Part>,
                     V': set<Part>, reached': set<Part>, queue': seq<Part>, route': map<Part, seq<Part>>)
    requires Flooding(w, start, mine, V0, V, done, reached, queue, route) && queue != []
    requires nearby == LoadedParts(w, Neighbours(queue[0].pos)) && Elems(nearby) <= w.Parts()
    requires reached <= reached' && V' == V + {queue[0]} + (reached' - reached)
    requires reached' - reached <= mine && reached' - reached <= Elems(nearby)
    requires Distinct(queue') && Elems(queue') == Elems(queue[1..]) + (reached' - reached)
    requires forall n :: n in nearby && n in mine ==> n in V'
    requires route'.Keys == reached'
    requires forall q :: q in reached' ==> RouteIn(w, route'[q], start, mine) && route'[q][|route'[q]| - 1] == q
    ensures Flooding(w, start, mine, V0, V', done + {queue[0]}, reached', queue', route')
  {
    var part := queue[0];
    QueueAdvance(start, V0, V, done, reached, queue, V', reached', queue');
    forall a, n | a in done + {part} && n in mine && n in LoadedParts(w, Neighbours(a.pos)) ensures n in V' {
      if a == part {
        assert n in nearby;
      }
    }
  }

  /** The queue bookkeeping of one turn of the visit. */
  lemma QueueAdvance<T>(start: T, V0: set<T>, V: set<T>, done: set<T>, reached: set<T>, queue: seq<T>,
                        V': set<T>, reached': set<T>, queue': seq<T>)
    requires queue != [] && Distinct(queue) && reached == done + Elems(queue) && done !! Elems(queue)
    requires (done == {} && queue == [start]) || start in done
    requires reached - {start} <= V && done <= V && V - reached == V0 - reached
    requires reached <= reached' && V' == V + {queue[0]} + (reached' - reached)
    requires Elems(queue') == Elems(queue[1..]) + (reached' - reached)
    ensures reached' == (done + {queue[0]}) + Elems(queue') && (done + {queue[0]}) !! Elems(queue')
    ensures start in done + {queue[0]}
    ensures reached' - {start} <= V' && done + {queue[0]} <= V' && V' - reached' == V0 - reached'
  {
    var part := queue[0];
    assert Elems(queue) == {part} + Elems(queue[1..]) by {
      assert queue == [part] + queue[1..];
    }
    assert forall j :: 0 <= j < |queue[1..]| ==> queue[1..][j] == queue[j + 1] != part;
    assert V' - reached' == V0 - reached' by {
      assert V' - reached' == V - reached';
      assert V - reached' == (V - reached) - reached';
      assert V0 - reached' == (V0 - reached) - reached';
    }
  }

  lemma RouteOwned(w: World, path: seq<Part>, start: Part, mine: set<Part>, c: Controller)
    requires OwnedBy(w, mine, c) && RouteIn(w, path, start, mine)
    ensures Route(w, path, start, c)
  {
    assert forall i :: 0 < i < |path| ==> path[i] in Attached(w, c);
  }

  /** One more step of a walk. */
  lemma RouteExtend(w: World, path: seq<Part>, start: Part, mine: set<Part>, n: Part)
    requires RouteIn(w, path, start, mine) && n in w.Parts() && n in mine
    requires n in LoadedParts(w, Neighbours(path[|path| - 1].pos))
    ensures RouteIn(w, path + [n], start, mine)
  {
    var p := path + [n];
    assert forall i :: 0 <= i < |path| ==> p[i] == path[i];
  }

  /** The walks of the visit after the parts `reached - before`, neighbours
      of `part` in `mine`, were queued: one more step from the walk to `part`. */
  lemma ExtendRoutes(w: World, start: Part, mine: set<Part>, route: map<Part, seq<Part>>, before: set<Part>,
                     reached: set<Part>, part: Part, nearby: seq<Part>)
    returns (route': map<Part, seq<Part>>)
    requires route.Keys == before && part in before && before <= reached && nearby == LoadedParts(w, Neighbours(part.pos))
    requires forall q :: q in before ==> RouteIn(w, route[q], start, mine) && route[q][|route[q]| - 1] == q
    requires reached - before <= Elems(nearby) && reached - before <= mine && reached <= w.Parts()
    ensures route'.Keys == reached
    ensures forall q :: q in reached ==> RouteIn(w, route'[q], start, mine) && route'[q][|route'[q]| - 1] == q
  {
    forall q | q in reached - before ensures RouteIn(w, route[part] + [q], start, mine) {
      RouteExtend(w, route[part], start, mine, q);
    }
    route' := map q | q in reached :: if q in before then route[q] else route[part] + [q];
  }

  /** A set that holds `start` and every neighbour of its parts that belongs to
      `c` holds the end of every walk from `start` through parts of `c`. */
  lemma {:induction false} RouteStaysIn(w: World, path: seq<Part>, start: Part, c: Controller, R: set<Part>)
    requires Route(w, path, start, c) && start in R
    requires forall a, n :: a in R && n in LoadedParts(w, Neighbours(a.pos)) && n.controller == c ==> n in R
    ensures path[|path| - 1] in R
  {
    if |path| > 1 {
      var prefix := path[..|path| - 1];
      assert Route(w, prefix, start, c) by {
        forall i | 0 <= i < |prefix| - 1 ensures prefix[i + 1] in LoadedParts(w, Neighbours(prefix[i].pos)) {
          assert prefix[i] == path[i] && prefix[i + 1] == path[i + 1];
        }
      }
      RouteStaysIn(w, prefix, start, c, R);
      assert path[|path| - 2] == prefix[|prefix| - 1];
      assert path[|path| - 1] in LoadedParts(w, Neighbours(path[|path| - 2].pos));
    }
  }

  /** When every loaded part of `c` sits at a position of `kept`, and those
      positions stay unvisited unless reached, a visit that left every loaded
      neighbour in `c` of a reached part visited reached the end of every walk
      from the start. */
  lemma ReachedIsClosed(w: World, start: Part, c: Controller, reached: set<Part>, kept: set<Coord>)
    requires w.Valid() && start in reached
    requires forall a, n :: a in reached && n in w.Parts() && n in LoadedParts(w, Neighbours(a.pos)) && n.controller == c ==>
      n.visited
    requires forall q :: q in w.Parts() && q !in reached && q.pos in kept ==> !q.visited
    requires forall q :: q in w.Parts() && w.ChunkLoaded(q.pos) && q.controller == c ==> q.pos in kept
    ensures forall path :: Route(w, path, start, c) ==> path[|path| - 1] in reached
  {
    forall a, n | a in reached && n in LoadedParts(w, Neighbours(a.pos)) && n.controller == c
      ensures n in reached
    {
      LoadedPartsMembers(w, Neighbours(a.pos), n);
    }
    forall path | Route(w, path, start, c) ensures path[|path| - 1] in reached {
      RouteStaysIn(w, path, start, c, reached);
    }
  }

  /** The reference and the members of each controller of `s`. */
  ghost function Snapshot(s: set<Controller>): map<Controller, (Option<Coord>, set<Coord>)>
    reads s
  {
    map d | d in s :: (d.reference, d.members)
  }

  /** `before` records the reference and the members of each controller of
      `s`, as `Snapshot(s)` does. */
  ghost predicate Records(before: map<Controller, (Option<Coord>, set<Coord>)>, s: set<Controller>)
    reads s
  {
    before.Keys == s && forall d :: d in s ==> before[d] == (d.reference, d.members)
  }

  /** Every position held by a controller of `s`. */
  ghost function MembersOf(s: set<Controller>): set<Coord>
    reads s
  {
    set d, c | d in s && c in d.members :: c
  }

  /** Every position that `before` records for a controller of `s`. */
  ghost function Holdings(before: map<Controller, (Option<Coord>, set<Coord>)>, s: set<Controller>): set<Coord> {
    set d, c | d in s && d in before && c in before[d].1 :: c
  }

  /** Gaining the held part of `a`, then of `b`, is gaining the held part
      of both. */
  lemma GainSplit(start: set<Coord>, a: set<Coord>, b: set<Coord>, held: set<Coord>)
    ensures start + (a * held) + (b * held) == start + ((a + b) * held)
  {
  }

  lemma MembersOfSplit(d: Controller, s: set<Controller>)
    ensures MembersOf({d} + s) == d.members + MembersOf(s)
  {
  }

  /** What a snapshot records is what the controllers hold. */
  lemma RecordedHoldings(before: map<Controller, (Option<Coord>, set<Coord>)>, s: set<Controller>, t: set<Controller>)
    requires Records(before, s) && t <= s
    ensures Holdings(before, t) == MembersOf(t)
  {
    forall c | c in MembersOf(t) ensures c in Holdings(before, t) {
      var d :| d in t && c in d.members;
      assert before[d].1 == d.members;
    }
  }

  /** With `d` having lost at most position `x` since `before` was recorded,
      and every other controller of `s` unchanged, what `s` holds lies between
      what was recorded less `x` and what was recorded. */
  lemma HoldingsBound(before: map<Controller, (Option<Coord>, set<Coord>)>, s: set<Controller>, d: Controller, x: Coord)
    requires forall e :: e in s ==> e in before
    requires forall e :: e in s && e != d ==> e.members == before[e].1
    requires d in s ==> d.members == before[d].1 - {x}
    ensures Holdings(before, s) - {x} <= MembersOf(s) <= Holdings(before, s)
  {
    forall c | c in Holdings(before, s) - {x} ensures c in MembersOf(s) {
      var e :| e in s && e in before && c in before[e].1;
      assert c in e.members;
    }
    forall c | c in MembersOf(s) ensures c in Holdings(before, s) {
      var e :| e in s && c in e.members;
    }
  }

  lemma HoldingsAdd(before: map<Controller, (Option<Coord>, set<Coord>)>, s: set<Controller>, d: Controller)
    requires d in before
    ensures Holdings(before, s + {d}) == Holdings(before, s) + before[d].1
  {
  }

  /** `t` is listed in `before`, and its recorded reference is strictly less
      than the recorded reference of every other listed controller. */
  ghost predicate ElectedIn(t: Controller?, before: map<Controller, (Option<Coord>, set<Coord>)>) {
    t in before &&
    forall d :: d in before && d != t ==>
      before[t].0.Some? && before[d].0.Some? && LexLess(before[t].0.value, before[d].0.value)
  }

  /** The reference after `attachBlock` of position `p` to a controller whose
      reference was `r`: the lesser of the two. */
  function ReferenceAfter(p: Coord, r: Option<Coord>): (m: Coord)
    ensures m == p || (r.Some? && m == r.value)
    ensures r.Some? ==> Compare(m, r.value) <= 0 && Compare(m, p) <= 0
  {
    if r.None? || Compare(p, r.value) < 0 then p else r.value
  }

  /** What `attachToNeighbors` leaves once part `p` attached to `t`, chosen
      among the neighbouring controllers whose earlier reference and members
      `before` records: `t` had the least reference, its members gained the
      position of `p`, and its reference is the lesser of the two. */
  ghost predicate AttachedLeast(p: Part, t: Controller?, before: map<Controller, (Option<Coord>, set<Coord>)>)
    reads p, before.Keys
  {
    && ElectedIn(t, before) && t.members == before[t].1 + {p.pos}
    && t.reference == Some(ReferenceAfter(p.pos, before[t].0))
  }

  /** What `onBlockAdded` leaves once part `p` joined `t`: as for
      `attachToNeighbors`, and besides every other controller was emptied
      into `t`: `t` gained each of their recorded positions that holds a part,
      and those parts point at `t`. */
  ghost predicate JoinedLeast(p: Part, t: Controller?, before: map<Controller, (Option<Coord>, set<Coord>)>, w: World)
    reads p, before.Keys, w.Parts()
  {
    && ElectedIn(t, before)
    && t.members == before[t].1 + {p.pos} + (Holdings(before, before.Keys - {t}) * w.tiles.Keys)
    && t.reference == Some(ReferenceAfter(p.pos, before[t].0))
    && (forall c :: c in Holdings(before, before.Keys - {t}) && c in w.tiles ==> w.tiles[c].controller == t)
    && forall d :: d in before && d != t ==> d.members == {} && d.reference == None
  }

  /** What `clientCheckForMerges` leaves once part `p`, formerly attached to
      `home`, settled on `t`, chosen among the controllers whose earlier
      reference and members `before` records: `t` had the least reference, it
      gained the part's position unless it was `home` already, and it gained
      each recorded position of the others that holds a part; those parts
      point at `t`, and the others are empty. */
  ghost predicate Rejoined(p: Part, t: Controller?, home: Controller?,
                           before: map<Controller, (Option<Coord>, set<Coord>)>, w: World)
    reads p, before.Keys, w.Parts()
  {
    && ElectedIn(t, before)
    && t.members == before[t].1 + (if t == home then {} else {p.pos}) + (Holdings(before, before.Keys - {t}) * w.tiles.Keys)
    && (forall c :: c in Holdings(before, before.Keys - {t}) && c in w.tiles ==> w.tiles[c].controller == t)
    && forall d :: d in before && d != t ==> d.members == {}
  }

  /** `Rejoined` from what the move and the merge loop establish: `held`, the
      positions the others held when the loop began, is what `before`
      records for them, less at most the part's own position. */
  lemma RejoinSettles(p: Part, t: Controller, home: Controller?,
                      before: map<Controller, (Option<Coord>, set<Coord>)>, w: World, held: set<Coord>)
    requires ElectedIn(t, before) && p.InWorld(w) && p.controller == t
    requires t.members == before[t].1 + (if t == home then {} else {p.pos}) + (held * w.tiles.Keys)
    requires Holdings(before, before.Keys - {t}) - {p.pos} <= held <= Holdings(before, before.Keys - {t})
    requires t == home ==> held == Holdings(before, before.Keys - {t})
    requires forall c :: c in held && c in w.tiles ==> w.tiles[c].controller == t
    requires forall d :: d in before && d != t ==> d.members == {}
    ensures Rejoined(p, t, home, before, w)
  {
  }

  /** A controller of `s` with a reference less than every other one's was
      elected among them, by what `before` records. */
  lemma ChosenLeast(t: Controller, s: set<Controller>, before: map<Controller, (Option<Coord>, set<Coord>)>)
    requires Records(before, s) && t in s
    requires forall d :: d in s && d != t ==>
      t.reference.Some? && d.reference.Some? && LexLess(t.reference.value, d.reference.value)
    ensures ElectedIn(t, before)
  {
  }

  /** `JoinedLeast` from what the attach and the merge establish, with
      `held` the positions the others held before. */
  lemma JoinSettles(p: Part, t: Controller, before: map<Controller, (Option<Coord>, set<Coord>)>, w: World, held: set<Coord>)
    requires ElectedIn(t, before) && held == Holdings(before, before.Keys - {t})
    requires t.members == before[t].1 + {p.pos} + (held * w.tiles.Keys)
    requires t.reference == Some(ReferenceAfter(p.pos, before[t].0))
    requires forall c :: c in held && c in w.tiles ==> w.tiles[c].controller == t
    requires forall d :: d in before && d != t ==> d.members == {} && d.reference == None
    ensures JoinedLeast(p, t, before, w)
  {
  }

  /** A part whose controller is the only one around has settled on it. */
  lemma LoneRejoined(p: Part, t: Controller, before: map<Controller, (Option<Coord>, set<Coord>)>, w: World)
    requires Records(before, {t})
    ensures Rejoined(p, t, t, before, w)
  {
    assert before.Keys - {t} == {};
  }

  /** The selection of `onBlockAdded` cannot throw: every controller has a
      reference that holds a part, and no two share one. */
  predicate Selectable(owners: set<Controller>, w: World)
    reads owners
  {
    && (forall d :: d in owners ==> d.reference.Some? && d.reference.value in w.tiles)
    && forall d, e :: d in owners && e in owners && d != e ==> d.reference != e.reference
  }

  /** The parts of the world that belong to no controller. */
  ghost function Unconnected(w: World): set<Part>
    reads w.Parts()
  {
    set q | q in w.Parts() && q.controller == null
  }

  /** A walk through the parts of `U`, each step to a face neighbour in a loaded chunk. */
  ghost predicate NeighbourPath(w: World, path: seq<Part>, U: set<Part>) {
    && |path| > 0
    && (forall i :: 0 <= i < |path| ==> path[i] in U)
    && forall i :: 0 <= i < |path| - 1 ==> path[i + 1] in LoadedParts(w, Neighbours(path[i].pos))
  }

  /** When no part of `c` has an unconnected loaded neighbour, and the parts of
      `U` are unconnected or in `c`, a walk through `U` that starts in `c`
      stays in `c`. */
  lemma {:induction false} PathsStayAttached(w: World, path: seq<Part>, U: set<Part>, c: Controller)
    requires NeighbourPath(w, path, U) && path[0].controller == c
    requires forall q :: q in U ==> q.controller == null || q.controller == c
    requires forall a, n :: a in U && a.controller == c && n in LoadedParts(w, Neighbours(a.pos)) ==> n.controller != null
    ensures path[|path| - 1].controller == c
  {
    if |path| > 1 {
      var prefix := path[..|path| - 1];
      assert NeighbourPath(w, prefix, U) by {
        forall i | 0 <= i < |prefix| - 1 ensures prefix[i + 1] in LoadedParts(w, Neighbours(prefix[i].pos)) {
          assert prefix[i] == path[i] && prefix[i + 1] == path[i + 1];
        }
      }
      PathsStayAttached(w, prefix, U, c);
      assert path[|path| - 2] == prefix[|prefix| - 1];
      assert path[|path| - 1] in LoadedParts(w, Neighbours(path[|path| - 2].pos));
    }
  }

  /** The loops of `onOrphaned` that queue a part's unconnected neighbours,
      in order, behind what is queued already. */
  method EnqueueUnconnected(queue: seq<Part>, parts: seq<Part>) returns (r: seq<Part>)
    ensures |queue| <= |r| && r[..|queue|] == queue
    ensures forall x :: x in r <==> x in queue || (x in parts && x.controller == null)
  {
    r := queue;
    var i := 0;
    while i < |parts|
      invariant 0 <= i <= |parts|
      invariant |queue| <= |r| && r[..|queue|] == queue
      invariant forall x :: x in r <==> x in queue || (x in parts[..i] && x.controller == null)
    {
      assert parts[..i + 1] == parts[..i] + [parts[i]];
      if parts[i].controller == null {
        r := r + [parts[i]];
      }
      i := i + 1;
    }
    assert parts[..i] == parts;
  }

  /** The controllers listed from the neighbour parts are the neighbours' owners. */
  lemma OwnersListed(p: Part, w: World, neighbours: seq<Part>, init: seq<Controller>, owners: seq<Controller>)
    requires w.Valid() && neighbours == LoadedParts(w, Neighbours(p.pos))
    requires forall c :: c in owners <==> c in init || exists q :: q in neighbours && q.controller == c
    ensures Elems(owners) == Elems(init) + p.NeighbourOwners(w)
  {
    forall c ensures c in owners <==> c in init || c in p.NeighbourOwners(w) {
      if c in owners && c !in init {
        var q :| q in neighbours && q.controller == c;
        LoadedPartsMembers(w, Neighbours(p.pos), q);
        PartAtItsPosition(w, q);
      }
      if c in p.NeighbourOwners(w) {
        var n :| n in Neighbours(p.pos) && w.Resolves(n) && w.tiles[n].controller == c;
        LoadedPartsMembers(w, Neighbours(p.pos), w.tiles[n]);
      }
    }
  }

  /** The list of `onBlockAdded` after `controllers.remove(target)`. */
  lemma RemoveAt<T>(s: seq<T>, i: nat)
    requires Distinct(s) && i < |s|
    ensures Distinct(s[..i] + s[i + 1..])
    ensures forall x :: x in s[..i] + s[i + 1..] <==> x in s && x != s[i]
  {
    var r := s[..i] + s[i + 1..];
    assert forall k :: 0 <= k < |r| ==> r[k] == (if k < i then s[k] else s[k + 1]);
    forall x | x in s && x != s[i] ensures x in r {
      var k :| 0 <= k < |s| && s[k] == x;
      assert r[if k < i then k else k - 1] == x;
    }
  }

  /** The merge after the attach goes through: the target's reference, moved to
      the new part's position or not, is below every other controller's. */
  lemma MergeVerdictsPass(oldRef: Coord, newRef: Coord, pos: Coord, others: seq<Controller>)
    requires newRef == (if Compare(pos, oldRef) < 0 then pos else oldRef)
    requires forall d :: d in others ==> d.reference.Some? && LexLess(oldRef, d.reference.value)
    ensures forall d :: d in others ==> AssimilateVerdict(Some(newRef), d.reference).Pass?
  {
    forall d | d in others ensures AssimilateVerdict(Some(newRef), d.reference).Pass? {
      var r := d.reference.value;
      assert LexLess(newRef, r);
    }
  }

  /** A list without repetitions whose only element is `x` is `[x]`. */
  lemma OnlyElement<T>(s: seq<T>, x: T)
    requires Distinct(s) && Elems(s) == {x}
    ensures s == [x]
  {
    DistinctCount(s);
    assert s[0] in Elems(s);
  }

  /** A list without repetitions has as many elements as its set. */
  lemma {:induction false} DistinctCount<T>(s: seq<T>)
    requires Distinct(s)
    ensures |Elems(s)| == |s|
  {
    if s != [] {
      var init := s[..|s| - 1];
      assert Distinct(init);
      DistinctCount(init);
      assert Elems(s) == Elems(init) + {s[|s| - 1]};
      assert s[|s| - 1] !in Elems(init);
    }
  }

  function Elems<T>(s: seq<T>): set<T> {
    set x | x in s
  }

  predicate Distinct<T(==)>(s: seq<T>) {
    forall i, j :: 0 <= i < j < |s| ==> s[i] != s[j]
  }

  /** A reference as the argument of `compareTo`. */
  function RefObj(r: Option<Coord>): Obj {
    if r.Some? then CoordObj(r.value) else NullObj
  }

  /** The target-selection loop of `onBlockAdded`: the running target is
      replaced by a candidate whose reference is smaller; an equal reference
      (or a candidate without one) throws, and so does a running target without
      a reference. The result is the candidate with the strictly least
      reference, which exists whenever all references are present and
      distinct. */
  method SelectTarget(cs: seq<Controller>) returns (r: Result<nat>)
    requires |cs| > 0
    ensures r.Ok? ==> r.value < |cs|
    ensures r.Ok? ==> forall j :: 0 <= j < |cs| && j != r.value ==>
      cs[r.value].reference.Some? && cs[j].reference.Some? &&
      LexLess(cs[r.value].reference.value, cs[j].reference.value)
    ensures ((forall j :: 0 <= j < |cs| ==> cs[j].reference.Some?) &&
             (forall i, j :: 0 <= i < j < |cs| ==> cs[i].reference != cs[j].reference)) ==> r.Ok?
    ensures r.Err? ==> r.error == NullPointer || r.error.IllegalState?
  {
    var t := 0;
    var i := 1;
    while i < |cs|
      invariant 1 <= i <= |cs| && t < i
      invariant forall j :: 0 <= j < i && j != t ==>
        cs[t].reference.Some? && cs[j].reference.Some? && LexLess(cs[t].reference.value, cs[j].reference.value)
    {
      if cs[t].reference.None? {
        assert !(forall j :: 0 <= j < |cs| ==> cs[j].reference.Some?) by { assert t < |cs|; }
        return Err(NullPointer);
      }
      var cmp := CompareTo(cs[t].reference.value, RefObj(cs[i].reference));
      if cmp == 0 {
        if cs[i].reference.Some? {
          CompareZeroIffEquals(cs[t].reference.value, cs[i].reference.value);
          assert t < i < |cs| && cs[t].reference == cs[i].reference;
        } else {
          assert i < |cs| && cs[i].reference.None?;
        }
        return Err(IllegalState(IdenticalReferenceMessage));
      } else if cmp > 0 {
        t := i;
      }
      i := i + 1;
    }
    r := Ok(t);
    assert r.value == t && i == |cs|;
  }

  // ===========================================================================
  // The per-world registry

  /** Every part points at no controller or at one of `cs`. */
  ghost predicate Closed(w: World, cs: set<Controller>)
    reads w.Parts()
  {
    forall q :: q in w.Parts() && q.controller != null ==> q.controller in cs
  }

  /** What an orphan step leaves for part `q`, whose neighbours' controllers
      were `owners` with the references and members `before` records: the part
      is attached to one of `cs` or of the `made` ones; with no neighbour
      controller it is the only member and the reference of the one new
      controller, and otherwise it joined the least of them. */
  ghost predicate Adopted(q: Part, cs: set<Controller>, made: set<Controller>, owners: set<Controller>,
                          before: map<Controller, (Option<Coord>, set<Coord>)>)
    reads q, q.controller, before.Keys
  {
    && q.controller != null && q.controller in cs + made
    && (owners == {} ==> made == {q.controller} && q.controller.members == {q.pos} && q.controller.reference == Some(q.pos))
    && (owners != {} ==> made == {} && AttachedLeast(q, q.controller, before))
  }

  /** Every part of `s` in a loaded chunk is attached to a controller. */
  ghost predicate LoadedConnected(s: set<Part>, w: World)
    reads s`controller
  {
    forall q :: q in s && w.ChunkLoaded(q.pos) ==> q.controller != null
  }

  /** No part of `s` is attached to a controller. */
  ghost predicate Unattached(s: set<Part>)
    reads s`controller
  {
    forall q :: q in s ==> q.controller == null
  }

  /** Every controller of `s` has lost its members and its reference. */
  ghost predicate Emptied(s: set<Controller>)
    reads s
  {
    forall d :: d in s ==> d.members == {} && d.reference == None
  }

  /** The election of the merge pass cannot throw: the controllers of the pool
      are of one class, and each has a reference that no other one shares. */
  predicate Electable(pool: set<Controller>)
    reads pool
  {
    && (forall d, e :: d in pool && e in pool ==> d.kind == e.kind)
    && (forall d :: d in pool ==> d.reference.Some?)
    && (forall d, e :: d in pool && e in pool && d != e ==> d.reference != e.reference)
  }

  /** The master election of the merge pass: the first controller visited is
      the running master, and any later one that should consume it takes its
      place; a refusal of `shouldConsume` throws. The master has the strictly
      least reference of the pool. */
  method ElectMaster(pool: set<Controller>) returns (r: Result<Controller>)
    requires pool != {}
    ensures r.Ok? ==> r.value in pool
    ensures r.Ok? ==> forall d :: d in pool && d != r.value ==>
      d.kind == r.value.kind && r.value.reference.Some? && d.reference.Some? &&
      LexLess(r.value.reference.value, d.reference.value)
    ensures Electable(pool) ==> r.Ok?
  {
    var master: Controller? := null;
    var rest := pool;
    while rest != {}
      invariant rest <= pool
      invariant master == null <==> rest == pool
      invariant master != null ==> master in pool - rest
      invariant master != null ==> forall d :: d in pool - rest && d != master ==>
        d.kind == master.kind && master.reference.Some? && d.reference.Some? &&
        LexLess(master.reference.value, d.reference.value)
      decreases rest
    {
      var c :| c in rest;
      if master == null {
        master := c;
      } else {
        if Electable(pool) {
          CompareTotal(c.reference.value, master.reference.value);
        }
        var consume := c.ShouldConsume(master);
        if consume.Err? {
          return Err(consume.error);
        }
        if consume.value {
          master := c;
        }
      }
      rest := rest - {c};
    }
    assert pool - rest == pool;
    return Ok(master);
  }

  /** The parts parked under chunk key `k`; none when the key is absent. */
  function Bucket(aw: map<int, set<Part>>, k: int): set<Part> {
    if k in aw then aw[k] else {}
  }

  /** Every parked part. */
  function Pending(aw: map<int, set<Part>>): set<Part> {
    set k, q | k in aw && q in aw[k] :: q
  }

  /** No bucket is empty, and each parked part is in the bucket of its own chunk. */
  predicate WellParked(aw: map<int, set<Part>>) {
    forall k :: k in aw ==> aw[k] != {} && forall q :: q in aw[k] ==> ChunkKeyOf(q.pos) == k
  }

  /** `onPartAdded` for a part whose chunk is not loaded: the part joins the
      bucket of its chunk, which is created when missing. */
  function Park(aw: map<int, set<Part>>, q: Part): map<int, set<Part>> {
    aw[ChunkKeyOf(q.pos) := Bucket(aw, ChunkKeyOf(q.pos)) + {q}]
  }

  /** The bucket bookkeeping of `onPartRemovedFromWorld`: the part leaves the
      bucket of its chunk, and a bucket left empty is dropped. */
  function Unpark(aw: map<int, set<Part>>, q: Part): map<int, set<Part>> {
    var k := ChunkKeyOf(q.pos);
    if k !in aw then aw
    else if aw[k] - {q} == {} then aw - {k}
    else aw[k := aw[k] - {q}]
  }

  /** Parking adds exactly the part to the parked parts and keeps the buckets
      well parked. */
  lemma ParkAdds(aw: map<int, set<Part>>, q: Part)
    ensures Pending(Park(aw, q)) == Pending(aw) + {q}
    ensures WellParked(aw) ==> WellParked(Park(aw, q))
  {
    var k := ChunkKeyOf(q.pos);
    var r := Park(aw, q);
    assert q in r[k];
    forall p | p in Pending(aw)
      ensures p in Pending(r)
    {
      var j :| j in aw && p in aw[j];
      assert p in r[j];
    }
  }

  /** In well-parked buckets, unparking removes exactly the part and keeps the
      buckets well parked. */
  lemma UnparkRemoves(aw: map<int, set<Part>>, q: Part)
    requires WellParked(aw)
    ensures Pending(Unpark(aw, q)) == Pending(aw) - {q}
    ensures WellParked(Unpark(aw, q))
  {
    var k := ChunkKeyOf(q.pos);
    var r := Unpark(aw, q);
    forall p | p in Pending(aw) && p != q
      ensures p in Pending(r)
    {
      var j :| j in aw && p in aw[j];
      if j == k {
        assert p in aw[k] - {q};
        assert r == aw[k := aw[k] - {q}];
      }
      assert p in r[j];
    }
    forall p | p in Pending(r)
      ensures p in Pending(aw) && p != q
    {
      var j :| j in r && p in r[j];
      assert p in aw[j];
    }
  }

  /** The buckets of Java-int chunk coordinates: in a well-parked map, the
      bucket under the key of chunk (cx, cz) holds exactly the parked parts of
      that chunk. */
  lemma BucketIsItsChunk(aw: map<int, set<Part>>, cx: int, cz: int)
    requires WellParked(aw) && IsInt(cx) && IsInt(cz)
    requires forall q :: q in Pending(aw) ==> IsInt(q.pos.x) && IsInt(q.pos.z)
    ensures Bucket(aw, ChunkKey(cx, cz)) == set q | q in Pending(aw) && ChunkOf(q.pos) == (cx, cz)
  {
    var k := ChunkKey(cx, cz);
    forall q | q in Pending(aw)
      ensures q in Bucket(aw, k) <==> ChunkOf(q.pos) == (cx, cz)
    {
      var j :| j in aw && q in aw[j];
      if q in Bucket(aw, k) {
        ChunkKeyInjective(ChunkX(q.pos), ChunkZ(q.pos), cx, cz);
      }
    }
  }

  /** A part parked while its chunk is unloaded is released by the load of its
      own chunk and of no other. */
  lemma ParkedUntilItsChunkLoads(aw: map<int, set<Part>>, q: Part, cx: int, cz: int)
    requires WellParked(aw) && IsInt(cx) && IsInt(cz)
    requires forall p :: p in Pending(aw) ==> IsInt(p.pos.x) && IsInt(p.pos.z)
    requires IsInt(q.pos.x) && IsInt(q.pos.z)
    ensures q in Bucket(Park(aw, q), ChunkKey(cx, cz)) <==> ChunkOf(q.pos) == (cx, cz)
  {
    BucketIsItsChunk(Park(aw, q), cx, cz);
  }

  class Registry {
    /** Every registered controller. */
    var controllers: set<Controller>
    var dirty: set<Controller>
    var dead: set<Controller>
    /** `orphanedParts`: parts to attach at the next `tickEnd`. */
    var orphans: set<Part>
    /** `detachedParts`: parts shed during `tickEnd`, orphaned at its end. */
    var detached: set<Part>
    /** `partsAwaitingChunkLoad`, keyed by `ChunkKey`. */
    var awaiting: map<int, set<Part>>

    constructor ()
      ensures controllers == {} && dirty == {} && dead == {}
      ensures orphans == {} && detached == {} && awaiting == map[]
    {
      controllers := {};
      dirty := {};
      dead := {};
      orphans := {};
      detached := {};
      awaiting := map[];
    }

    method AddDeadController(c: Controller)
      modifies this`dead
      ensures dead == old(dead) + {c}
    {
      dead := dead + {c};
    }

    method AddDirtyController(c: Controller)
      modifies this`dirty
      ensures dirty == old(dirty) + {c}
    {
      dirty := dirty + {c};
    }

    // -------------------------------------------------------------------------
    // Part and chunk events

    /** `onPartAdded`: a part in an unloaded chunk is parked under its chunk
        key; otherwise it becomes an orphan. */
    method OnPartAdded(part: Part, w: World)
      modifies this`awaiting, this`orphans
      ensures !w.ChunkLoaded(part.pos) ==> awaiting == Park(old(awaiting), part) && orphans == old(orphans)
      ensures w.ChunkLoaded(part.pos) ==> orphans == old(orphans) + {part} && awaiting == old(awaiting)
    {
      if !w.ChunkLoaded(part.pos) {
        var key := ChunkKeyOf(part.pos);
        var bucket: set<Part>;
        if key !in awaiting {
          bucket := {};
          awaiting := awaiting[key := bucket];
        } else {
          bucket := awaiting[key];
        }
        awaiting := awaiting[key := bucket + {part}];
      } else {
        orphans := orphans + {part};
      }
    }

    /** `onPartRemovedFromWorld`: the part leaves its chunk's bucket (an
        emptied bucket is dropped), the detached set and the orphans, and is
        made sure to be detached. */
    method OnPartRemovedFromWorld(part: Part)
      modifies this`awaiting, this`detached, this`orphans, part`controller
      ensures awaiting == Unpark(old(awaiting), part)
      ensures detached == old(detached) - {part} && orphans == old(orphans) - {part}
      ensures !part.IsConnected()
    {
      Unbucket(part);
      detached := detached - {part};
      if part in orphans {
        orphans := orphans - {part};
      }
      part.AssertDetached();
    }

    /** The bucket step of `onPartRemovedFromWorld`. */
    method Unbucket(part: Part)
      modifies this`awaiting
      ensures awaiting == Unpark(old(awaiting), part)
    {
      var key := ChunkKeyOf(part.pos);
      if key in awaiting {
        var bucket := awaiting[key] - {part};
        if |bucket| <= 0 {
          awaiting := awaiting - {key};
        } else {
          awaiting := awaiting[key := bucket];
        }
      }
    }

    /** `onWorldUnloaded`: every set and map is cleared. */
    method OnWorldUnloaded()
      modifies this
      ensures controllers == {} && dirty == {} && dead == {}
      ensures orphans == {} && detached == {} && awaiting == map[]
    {
      controllers := {};
      dead := {};
      dirty := {};
      detached := {};
      awaiting := map[];
      orphans := {};
    }

    /** `onChunkLoaded`: the bucket under the chunk's key becomes orphans and
        the key is removed. With the buckets well parked and Java-int
        coordinates, exactly the parked parts of that chunk are released. */
    method OnChunkLoaded(cx: int, cz: int)
      modifies this`awaiting, this`orphans
      ensures orphans == old(orphans) + Bucket(old(awaiting), ChunkKey(cx, cz))
      ensures awaiting == old(awaiting) - {ChunkKey(cx, cz)}
      ensures old(WellParked(awaiting)) ==> WellParked(awaiting)
      ensures old(WellParked(awaiting)) && IsInt(cx) && IsInt(cz) &&
              (forall q :: q in old(Pending(awaiting)) ==> IsInt(q.pos.x) && IsInt(q.pos.z)) ==>
        orphans == old(orphans) + (set q | q in old(Pending(awaiting)) && ChunkOf(q.pos) == (cx, cz))
    {
      var key := ChunkKey(cx, cz);
      if WellParked(awaiting) && IsInt(cx) && IsInt(cz) &&
         (forall q :: q in Pending(awaiting) ==> IsInt(q.pos.x) && IsInt(q.pos.z)) {
        BucketIsItsChunk(awaiting, cx, cz);
      }
      if key in awaiting {
        orphans := orphans + awaiting[key];
        awaiting := awaiting - {key};
      }
    }

    // -------------------------------------------------------------------------
    // The tick

    /** `tickStart`: every registered controller that is empty is marked dead;
        the others are updated, and the game logic runs in those that are
        assembled. */
    method TickStart() returns (ran: set<Controller>)
      modifies this`dead
      ensures dead == old(dead) + (set c | c in controllers && c.IsEmpty())
      ensures ran == set c | c in controllers && !c.IsEmpty() && c.IsAssembled()
    {
      var rest := controllers;
      ran := {};
      while rest != {}
        invariant rest <= controllers
        invariant dead == old(dead) + (set c | c in controllers - rest && c.IsEmpty())
        invariant ran == set c | c in controllers - rest && !c.IsEmpty() && c.IsAssembled()
        decreases rest
      {
        var c :| c in rest;
        if c.IsEmpty() {
          AddDeadController(c);
        } else {
          var r := c.UpdateMultiblockEntity(this);
          if r {
            ran := ran + {c};
          }
        }
        rest := rest - {c};
      }
    }

    /** The last pass of `tickEnd`: each detached part is made sure to be
        detached, then all of them become orphans for the next tick. */
    method ProcessDetached()
      modifies this`orphans, this`detached, detached`controller
      ensures orphans == old(orphans) + old(detached) && detached == {}
      ensures Unattached(old(detached))
    {
      var rest := detached;
      while rest != {}
        invariant rest <= detached
        invariant forall q :: q in detached - rest ==> !q.IsConnected()
        modifies detached`controller
        decreases rest
      {
        var q :| q in rest;
        q.AssertDetached();
        rest := rest - {q};
      }
      forall q | q in detached
        ensures q.controller == null
      {
        assert q in detached - rest;
        assert !q.IsConnected();
      }
      assert Unattached(detached);
      orphans := orphans + detached;
      detached := {};
    }

    /** The orphan pass of `tickEnd` for one orphan: a part whose chunk is not
        loaded is skipped. Otherwise it attaches to the least of its
        neighbours' controllers (which may throw); with no neighbour controller
        it starts a new controller, which is registered, and with more than one
        the neighbour controllers are gathered into the merge pools. */
    method OrphanStep(q: Part, pools: seq<set<Controller>>, ghost cs: set<Controller>, w: World)
      returns (o: Outcome, pools': seq<set<Controller>>, ghost made: set<Controller>)
      requires w.Valid() && Closed(w, cs) && Pooled(pools, cs)
      modifies this`controllers, this`dirty, q`controller, q`saveDelegate, w.Parts()`saveDelegate
      modifies cs`members, cs`reference
      ensures fresh(made) && controllers == old(controllers) + made
      ensures !w.ChunkLoaded(q.pos) ==>
        && o.Pass? && pools' == pools && made == {}
        && q.controller == old(q.controller) && dirty == old(dirty)
      ensures o.Pass? ==> Pooled(pools', cs + made) && Closed(w, cs + made)
      ensures o.Pass? ==> old(dirty) <= dirty && dirty - old(dirty) <= cs + made
      ensures o.Pass? && w.ChunkLoaded(q.pos) ==> q.IsConnected()
      ensures o.Pass? && w.ChunkLoaded(q.pos) ==>
        && Adopted(q, cs, made, old(q.NeighbourOwners(w)), old(Snapshot(q.NeighbourOwners(w))))
        && dirty == old(dirty) + {q.controller}
        && pools' == if |old(q.NeighbourOwners(w))| > 1 then Gathered(pools, old(q.NeighbourOwners(w))) else pools
    {
      made := {};
      pools' := pools;
      if !w.ChunkLoaded(q.pos) {
        return Pass, pools', made;
      }
      var r;
      r, made := AttachOrphan(q, cs, w);
      if r.Err? {
        return Fail(r.error), pools', made;
      }
      PooledGrows(pools, cs, made);
      if |r.value| > 1 {
        pools' := AddToPools(pools, r.value);
        GatherPooled(pools, r.value, cs + made);
      }
      return Pass, pools', made;
    }

    /** The attaching part of an orphan step in a loaded chunk: the part
        attaches to the least of its neighbours' controllers, or, having none,
        starts a new controller that is registered. The result is the set of
        neighbour controllers. */
    method AttachOrphan(q: Part, ghost cs: set<Controller>, w: World)
      returns (r: Result<set<Controller>>, ghost made: set<Controller>)
      requires w.Valid() && Closed(w, cs)
      modifies this`controllers, this`dirty, q`controller, q`saveDelegate, w.Parts()`saveDelegate
      modifies cs`members, cs`reference
      ensures fresh(made) && controllers == old(controllers) + made
      ensures r.Ok? ==>
        && r.value == old(q.NeighbourOwners(w)) && r.value <= cs && Closed(w, cs + made)
        && Adopted(q, cs, made, r.value, old(Snapshot(q.NeighbourOwners(w))))
        && dirty == old(dirty) + {q.controller}
    {
      made := {};
      assert q.NeighbourOwners(w) <= cs;
      var a := q.AttachToNeighbors(w, this);
      if a.Err? {
        return Err(a.error), made;
      }
      if a.value.None? {
        var c := q.CreateNewMultiblock(w, this);
        controllers := controllers + {c};
        made := {c};
        return Ok({}), made;
      }
      return Ok(a.value.value), made;
    }

    /** An orphan step, with only what the orphan pass keeps track of. */
    method TakeOrphan(q: Part, pools: seq<set<Controller>>, ghost cs: set<Controller>, w: World)
      returns (o: Outcome, pools': seq<set<Controller>>, ghost made: set<Controller>)
      requires w.Valid() && Closed(w, cs) && Pooled(pools, cs)
      modifies this`controllers, this`dirty, q`controller, q`saveDelegate, w.Parts()`saveDelegate
      modifies cs`members, cs`reference
      ensures fresh(made) && controllers == old(controllers) + made
      ensures !w.ChunkLoaded(q.pos) ==> q.controller == old(q.controller)
      ensures o.Pass? ==>
        && Pooled(pools', cs + made) && Closed(w, cs + made)
        && old(dirty) <= dirty && dirty - old(dirty) <= cs + made
        && (w.ChunkLoaded(q.pos) ==> q.IsConnected())
    {
      o, pools', made := OrphanStep(q, pools, cs, w);
    }

    /** The orphan pass of `tickEnd`: every orphan takes its step, then the
        orphan set is cleared. Orphans in loaded chunks end attached, the
        others untouched, and the merge pools are pairwise disjoint. */
    method ProcessOrphans(w: World, ghost cs: set<Controller>)
      returns (o: Outcome, pools: seq<set<Controller>>, ghost made: set<Controller>)
      requires w.Valid() && Closed(w, cs)
      modifies this`controllers, this`dirty, this`orphans, orphans`controller, orphans`saveDelegate
      modifies w.Parts()`saveDelegate, cs`members, cs`reference
      ensures fresh(made) && controllers == old(controllers) + made
      ensures o.Pass? ==>
        && orphans == {} && Pooled(pools, cs + made) && Closed(w, cs + made)
        && old(dirty) <= dirty && dirty - old(dirty) <= cs + made
        && LoadedConnected(old(orphans), w)
        && forall q :: q in old(orphans) && !w.ChunkLoaded(q.pos) ==> q.controller == old(q.controller)
    {
      pools := [];
      made := {};
      var rest := orphans;
      ghost var done: set<Part> := {};
      while rest != {}
        invariant rest + done == old(orphans) && rest !! done
        invariant fresh(made) && controllers == old(controllers) + made
        invariant Pooled(pools, cs + made) && Closed(w, cs + made)
        invariant old(dirty) <= dirty && dirty - old(dirty) <= cs + made
        invariant LoadedConnected(done, w)
        invariant forall q :: q in old(orphans) && (q in rest || !w.ChunkLoaded(q.pos)) ==> q.controller == old(q.controller)
        modifies this`controllers, this`dirty, old(orphans)`controller, old(orphans)`saveDelegate
        modifies w.Parts()`saveDelegate, cs`members, cs`reference
        decreases rest
      {
        var q :| q in rest;
        var step, next, more := TakeOrphan(q, pools, cs + made, w);
        made := made + more;
        if step.Fail? {
          return step, pools, made;
        }
        pools := next;
        rest := rest - {q};
        done := done + {q};
      }
      orphans := {};
      return Pass, pools, made;
    }

    /** One step of the merge pass: the master assimilates `c`, which cannot
        be refused since the master's reference is the lesser, and `c` is
        marked dead. */
    method Absorb(m: Controller, c: Controller, w: World)
      requires w.Valid() && m != c
      requires m.reference.Some? && c.reference.Some? && LexLess(m.reference.value, c.reference.value)
      modifies this`dead, m`members, c`members, c`reference, w.Parts()`controller, w.Parts()`saveDelegate
      ensures dead == old(dead) + {c}
      ensures m.members == old(m.members) + (old(c.members) * w.tiles.Keys)
      ensures forall x :: x in old(c.members) && x in w.tiles ==> w.tiles[x].controller == m
      ensures forall q :: q in w.Parts() ==> q.controller == old(q.controller) || q.controller == m
      ensures c.members == {} && c.reference == None
    {
      assert c.LoadedReferencePart(w) <= w.Parts() && w.PartsAt(c.members) <= w.Parts();
      var a := m.Assimilate(c, w);
      if a.Fail? {
        assert false;
      }
      AddDeadController(c);
    }

    /** The merge pass of `tickEnd` for one pool: the master is elected (which
        may throw) and marked dirty, and every other controller of the pool is
        assimilated into it and marked dead. Once the election succeeds no
        assimilation is refused, since the master's reference is less than
        every other one. */
    method MergePool(pool: set<Controller>, w: World) returns (o: Outcome, ghost master: Controller)
      requires w.Valid() && pool != {}
      modifies this`dirty, this`dead, pool`members, pool`reference, w.Parts()`controller, w.Parts()`saveDelegate
      ensures o.Pass? ==>
        && dirty == old(dirty) + {master} && dead == old(dead) + (pool - {master})
        && MergedInto(master, pool, old(Snapshot(pool)), w)
        && (forall x :: x in Holdings(old(Snapshot(pool)), pool - {master}) && x in w.tiles ==>
              w.tiles[x].controller == master)
        && Emptied(pool - {master})
      ensures o.Fail? ==> dirty == old(dirty) && dead == old(dead)
      ensures old(Electable(pool)) ==> o.Pass?
    {
      ghost var before := Snapshot(pool);
      var elected := ElectMaster(pool);
      if elected.Err? {
        var some :| some in pool;
        return Fail(elected.error), some;
      }
      var m := elected.value;
      master := m;
      AddDirtyController(m);
      var rest := pool - {m};
      ghost var done: set<Controller> := {};
      assert Absorbing(m, before, done, rest, w);
      while rest != {}
        invariant rest + done == pool - {m} && rest !! done
        invariant dirty == old(dirty) + {m} && dead == old(dead) + done
        invariant Absorbing(m, before, done, rest, w)
        invariant forall d :: d in pool - {m} ==>
          before[m].0.Some? && before[d].0.Some? && LexLess(before[m].0.value, before[d].0.value)
        modifies this`dead, pool`members, pool`reference, w.Parts()`controller, w.Parts()`saveDelegate
        decreases rest
      {
        var c :| c in rest;
        AbsorbNext(m, c, before, done, rest, w);
        rest := rest - {c};
        done := done + {c};
      }
      assert done == pool - {m};
      AbsorbedAll(m, pool, before, w);
      return Pass, m;
    }

    /** Once every other controller of the pool is done, the pool was merged
        into its master. */
    static lemma AbsorbedAll(m: Controller, pool: set<Controller>, before: map<Controller, (Option<Coord>, set<Coord>)>, w: World)
      requires m in pool && pool <= before.Keys && Absorbing(m, before, pool - {m}, {}, w)
      requires forall d :: d in pool - {m} ==>
        before[m].0.Some? && before[d].0.Some? && LexLess(before[m].0.value, before[d].0.value)
      ensures MergedInto(m, pool, before, w)
      ensures forall x :: x in Holdings(before, pool - {m}) && x in w.tiles ==> w.tiles[x].controller == m
      ensures Emptied(pool - {m})
    {
    }

    /** The merge loop state of `MergePool`: master `m` has its recorded
        reference and has gained the recorded positions (holding parts) of the
        controllers `done`, whose parts point at it and which are empty; the
        controllers still to do are as recorded. */
    static ghost predicate Absorbing(m: Controller, before: map<Controller, (Option<Coord>, set<Coord>)>,
                                     done: set<Controller>, rest: set<Controller>, w: World)
      reads m, done, rest, w.Parts()
    {
      && m in before && m.reference == before[m].0
      && m.members == before[m].1 + (Holdings(before, done) * w.tiles.Keys)
      && (forall d :: d in rest ==> d in before && d.reference == before[d].0 && d.members == before[d].1)
      && (forall x :: x in Holdings(before, done) && x in w.tiles ==> w.tiles[x].controller == m)
      && forall d :: d in done ==> d.members == {} && d.reference == None
    }

    /** One turn of the merge loop of `MergePool`. */
    method AbsorbNext(m: Controller, c: Controller, ghost before: map<Controller, (Option<Coord>, set<Coord>)>,
                      ghost done: set<Controller>, ghost rest: set<Controller>, w: World)
      requires w.Valid() && c in rest && m !in rest && m !in done && rest !! done
      requires Absorbing(m, before, done, rest, w)
      requires before[m].0.Some? && before[c].0.Some? && LexLess(before[m].0.value, before[c].0.value)
      modifies this`dead, m`members, c`members, c`reference, w.Parts()`controller, w.Parts()`saveDelegate
      ensures dead == old(dead) + {c}
      ensures Absorbing(m, before, done + {c}, rest - {c}, w)
    {
      Absorb(m, c, w);
      HoldingsAdd(before, done, c);
    }

    /** Master `m` of `pool`, whose earlier references and members `before`
        records, kept its reference, which was below every other one of the
        pool, and gained each recorded position of the others that holds a
        part. */
    static ghost predicate MergedInto(m: Controller, pool: set<Controller>,
                                      before: map<Controller, (Option<Coord>, set<Coord>)>, w: World)
      reads m
    {
      && m in pool && m in before && m.reference == before[m].0
      && m.members == before[m].1 + (Holdings(before, pool - {m}) * w.tiles.Keys)
      && forall d :: d in pool && d != m ==>
           d in before && m.reference.Some? && before[d].0.Some? && LexLess(m.reference.value, before[d].0.value)
    }

    /** `Electable` on the references that `before` records. */
    static ghost predicate ElectableIn(pool: set<Controller>, before: map<Controller, (Option<Coord>, set<Coord>)>) {
      && (forall d, e :: d in pool && e in pool ==> d.kind == e.kind)
      && (forall d :: d in pool ==> d in before && before[d].0.Some?)
      && (forall d, e :: d in pool && e in pool && d != e ==> before[d].0 != before[e].0)
    }

    /** Pools that can all be elected can be on their record. */
    static lemma ElectableRecorded(pools: seq<set<Controller>>, before: map<Controller, (Option<Coord>, set<Coord>)>)
      requires before == Snapshot(Union(pools))
      ensures (forall i :: 0 <= i < |pools| ==> Electable(pools[i])) ==>
        forall i :: 0 <= i < |pools| ==> ElectableIn(pools[i], before)
    {
      if forall i :: 0 <= i < |pools| ==> Electable(pools[i]) {
        forall i | 0 <= i < |pools| ensures ElectableIn(pools[i], before) {
          PoolInUnion(pools, i);
        }
      }
    }

    /** Each master of `masters` was merged into as `MergedInto` says, with
        the pool of the same index. */
    static ghost predicate AllMerged(masters: seq<Controller>, pools: seq<set<Controller>>,
                                     before: map<Controller, (Option<Coord>, set<Coord>)>, w: World)
      reads Elems(masters)
    {
      forall k :: 0 <= k < |masters| && k < |pools| ==> MergedInto(masters[k], pools[k], before, w)
    }

    /** What the merge pass knows after `i` pools: the merged controllers are
        the first `i` pools, one master from each, merged as `AllMerged` says;
        the untouched controllers hold every later pool and are as recorded. */
    static ghost predicate MergeProgress(pools: seq<set<Controller>>, i: nat, masters: seq<Controller>,
                                         merged: set<Controller>, chosen: set<Controller>, untouched: set<Controller>,
                                         before: map<Controller, (Option<Coord>, set<Coord>)>, w: World)
      reads Elems(masters), untouched
    {
      && i <= |pools| && |masters| == i
      && merged == Union(pools[..i]) && chosen == Elems(masters) && chosen <= merged
      && (forall k :: 0 <= k < i ==> masters[k] in pools[k])
      && (forall j :: i <= j < |pools| ==> pools[j] <= untouched)
      && (forall d :: d in untouched ==> d in before && d.reference == before[d].0 && d.members == before[d].1)
      && AllMerged(masters, pools, before, w)
    }

    /** `MergedInto` depends only on what the record says about the pool. */
    static lemma MergedIntoAgree(m: Controller, pool: set<Controller>,
                                 a: map<Controller, (Option<Coord>, set<Coord>)>,
                                 b: map<Controller, (Option<Coord>, set<Coord>)>, w: World)
      requires forall d :: d in pool ==> d in a && d in b && a[d] == b[d]
      requires MergedInto(m, pool, a, w)
      ensures MergedInto(m, pool, b, w)
    {
      assert Holdings(a, pool - {m}) == Holdings(b, pool - {m});
    }

    /** The set algebra of one merge step: a pool apart from the ones merged
        so far adds its master to the dirty set and the rest to the dead set. */
    static lemma EmptiedUnion(a: set<Controller>, b: set<Controller>)
      requires Emptied(a) && Emptied(b)
      ensures Emptied(a + b)
    {
    }

    static lemma MergeAdvances(merged: set<Controller>, chosen: set<Controller>, pool: set<Controller>, m: Controller)
      requires chosen <= merged && merged !! pool && m in pool
      ensures (merged + pool) - (chosen + {m}) == (merged - chosen) + (pool - {m})
      ensures chosen + {m} <= merged + pool
    {
    }

    /** The masters so far, one from each pool, extended by the next one. */
    static lemma ElectedInOrder(masters: seq<Controller>, pools: seq<set<Controller>>, i: nat, m: Controller)
      requires |masters| == i < |pools| && m in pools[i]
      requires forall k :: 0 <= k < i ==> masters[k] in pools[k]
      ensures forall k :: 0 <= k < i + 1 ==> (masters + [m])[k] in pools[k]
    {
    }

    /** The merge pass of `tickEnd`: the pools are merged in order, and the
        first refused election stops the tick. With pairwise disjoint pools,
        each pool loses every controller but its master, whose reference is
        the least of its pool. */
    method ProcessMerges(pools: seq<set<Controller>>, w: World) returns (o: Outcome, ghost masters: seq<Controller>)
      requires w.Valid() && PairwiseDisjoint(pools) && forall i :: 0 <= i < |pools| ==> pools[i] != {}
      modifies this`dirty, this`dead, Union(pools)`members, Union(pools)`reference
      modifies w.Parts()`controller, w.Parts()`saveDelegate
      ensures o.Pass? ==>
        && |masters| == |pools| && (forall i :: 0 <= i < |pools| ==> masters[i] in pools[i])
        && Elems(masters) <= Union(pools)
        && dirty == old(dirty) + Elems(masters) && dead == old(dead) + (Union(pools) - Elems(masters))
        && Emptied(Union(pools) - Elems(masters))
        && AllMerged(masters, pools, old(Snapshot(Union(pools))), w)
      ensures (forall i :: 0 <= i < |pools| ==> old(Electable(pools[i]))) ==> o.Pass?
    {
      ghost var before := Snapshot(Union(pools));
      ghost var electable := forall i :: 0 <= i < |pools| ==> Electable(pools[i]);
      ElectableRecorded(pools, before);
      ghost var untouched := Union(pools);
      MergesStart(pools, before, w);
      masters := [];
      ghost var merged: set<Controller> := {};
      ghost var chosen: set<Controller> := {};
      var i := 0;
      while i < |pools|
        invariant 0 <= i <= |pools|
        invariant MergeProgress(pools, i, masters, merged, chosen, untouched, before, w)
        invariant Tally(old(dirty), old(dead), merged, chosen)
        invariant electable ==> forall j :: 0 <= j < |pools| ==> ElectableIn(pools[j], before)
      {
        PoolInUnion(pools, i);
        var step, m := MergeRound(pools, i, masters, merged, chosen, untouched, before, old(dirty), old(dead), w);
        if step.Fail? {
          return step, masters;
        }
        untouched := untouched - pools[i];
        masters := masters + [m];
        merged := merged + pools[i];
        chosen := chosen + {m};
        i := i + 1;
      }
      MergesDone(pools, masters, merged, chosen, untouched, before, w);
      return Pass, masters;
    }

    /** Before the first pool, nothing is merged and every pool is as
        recorded. */
    static lemma MergesStart(pools: seq<set<Controller>>, before: map<Controller, (Option<Coord>, set<Coord>)>, w: World)
      requires before == Snapshot(Union(pools))
      ensures MergeProgress(pools, 0, [], {}, {}, Union(pools), before, w)
    {
      forall j | 0 <= j < |pools| ensures pools[j] <= Union(pools) {
        PoolInUnion(pools, j);
      }
      assert pools[..0] == [];
    }

    /** After the last pool, the merged controllers are all the pools. */
    static lemma MergesDone(pools: seq<set<Controller>>, masters: seq<Controller>, merged: set<Controller>,
                            chosen: set<Controller>, untouched: set<Controller>,
                            before: map<Controller, (Option<Coord>, set<Coord>)>, w: World)
      requires MergeProgress(pools, |pools|, masters, merged, chosen, untouched, before, w)
      ensures merged == Union(pools) && chosen == Elems(masters) && Elems(masters) <= Union(pools)
    {
      assert pools[..|pools|] == pools;
    }

    /** Since a merge pass started from `dirty0` and `dead0`: the chosen
        masters are dirty, and the other merged controllers are dead and
        emptied. */
    ghost predicate Tally(dirty0: set<Controller>, dead0: set<Controller>, merged: set<Controller>, chosen: set<Controller>)
      reads this, merged
    {
      dirty == dirty0 + chosen && dead == dead0 + (merged - chosen) && Emptied(merged - chosen)
    }

    /** One turn of the merge pass as the loop of `ProcessMerges` sees it:
        pool `i` joins the merged pools and its master joins the masters. */
    method MergeRound(pools: seq<set<Controller>>, i: nat, ghost masters: seq<Controller>, ghost merged: set<Controller>,
                      ghost chosen: set<Controller>, ghost untouched: set<Controller>,
                      ghost before: map<Controller, (Option<Coord>, set<Coord>)>,
                      ghost dirty0: set<Controller>, ghost dead0: set<Controller>, w: World)
      returns (step: Outcome, ghost m: Controller)
      requires w.Valid() && PairwiseDisjoint(pools) && i < |pools| && pools[i] != {}
      requires MergeProgress(pools, i, masters, merged, chosen, untouched, before, w)
      requires Tally(dirty0, dead0, merged, chosen)
      modifies this`dirty, this`dead, pools[i]`members, pools[i]`reference, w.Parts()`controller, w.Parts()`saveDelegate
      ensures step.Pass? ==>
        && m in pools[i]
        && MergeProgress(pools, i + 1, masters + [m], merged + pools[i], chosen + {m}, untouched - pools[i], before, w)
        && Tally(dirty0, dead0, merged + pools[i], chosen + {m})
      ensures ElectableIn(pools[i], before) ==> step.Pass?
    {
      PriorPoolsApart(pools, i);
      step, m := MergeNext(pools, i, masters, untouched - pools[i], before, w);
      if step.Pass? {
        ProgressAdvance(pools, i, masters, m, merged, chosen, untouched, before, w);
        MergeAdvances(merged, chosen, pools[i], m);
        EmptiedUnion(merged - chosen, pools[i] - {m});
      }
    }

    /** `MergeProgress` carries over to the next pool once its master `m`
        was merged into as `AllMerged` says and the later pools are as
        recorded. */
    static lemma ProgressAdvance(pools: seq<set<Controller>>, i: nat, masters: seq<Controller>, m: Controller,
                                 merged: set<Controller>, chosen: set<Controller>, untouched: set<Controller>,
                                 before: map<Controller, (Option<Coord>, set<Coord>)>, w: World)
      requires PairwiseDisjoint(pools) && i < |pools| && |masters| == i && m in pools[i]
      requires merged == Union(pools[..i]) && chosen == Elems(masters) && chosen <= merged
      requires forall k :: 0 <= k < i ==> masters[k] in pools[k]
      requires forall j :: i <= j < |pools| ==> pools[j] <= untouched
      requires forall d :: d in untouched - pools[i] ==> d in before && d.reference == before[d].0 && d.members == before[d].1
      requires AllMerged(masters + [m], pools, before, w)
      ensures MergeProgress(pools, i + 1, masters + [m], merged + pools[i], chosen + {m}, untouched - pools[i], before, w)
    {
      UnionPrefix(pools, i);
      ElectedInOrder(masters, pools, i, m);
      forall j | i + 1 <= j < |pools| ensures pools[j] <= untouched - pools[i] {
        assert pools[i] !! pools[j];
      }
    }

    /** One turn of the merge pass: pool `i` is merged. The masters of the
        pools before it, which lie outside it, keep what they gained. */
    method MergeNext(pools: seq<set<Controller>>, i: nat, ghost masters: seq<Controller>, ghost later: set<Controller>, ghost before: map<Controller, (Option<Coord>, set<Coord>)>, w: World)
      returns (step: Outcome, ghost m: Controller)
      requires w.Valid() && PairwiseDisjoint(pools) && i < |pools| && pools[i] != {} && |masters| == i && later !! pools[i]
      requires forall k :: 0 <= k < i ==> masters[k] in pools[k]
      requires forall d :: d in pools[i] ==> d in before && d.reference == before[d].0 && d.members == before[d].1
      requires AllMerged(masters, pools, before, w)
      modifies this`dirty, this`dead, pools[i]`members, pools[i]`reference, w.Parts()`controller, w.Parts()`saveDelegate
      ensures step.Pass? ==>
        && m in pools[i] && dirty == old(dirty) + {m} && dead == old(dead) + (pools[i] - {m}) && Emptied(pools[i] - {m})
        && AllMerged(masters + [m], pools, before, w)
      ensures forall d :: d in later ==> d.reference == old(d.reference) && d.members == old(d.members)
      ensures step.Fail? ==> dirty == old(dirty) && dead == old(dead)
      ensures ElectableIn(pools[i], before) ==> step.Pass?
    {
      ghost var snap := Snapshot(pools[i]);
      label Before:
      step, m := MergePool(pools[i], w);
      if step.Fail? {
        return;
      }
      MergedIntoAgree(m, pools[i], snap, before, w);
      forall k | 0 <= k < i + 1
        ensures MergedInto((masters + [m])[k], pools[k], before, w)
      {
        if k < i {
          assert pools[k] !! pools[i];
          assert (masters + [m])[k] == masters[k] && masters[k] !in pools[i];
          assert old@Before(MergedInto(masters[k], pools[k], before, w));
        }
      }
    }

    /** The split pass of `tickEnd` for one dirty controller: it looks for
        disconnections (which may throw), then a controller with members is
        revalidated on its recomputed box and an empty one is marked dead; the
        parts it shed join the detached set. */
    method SplitStep(c: Controller, w: World) returns (o: Outcome, ghost shed: set<Part>)
      requires w.Valid()
      modifies this`dead, this`detached
      modifies c`shouldCheck, c`reference, c`members, c`lastError, c`state, c`events, c`minCoord, c`maxCoord
      modifies w.Parts()`visited, w.Parts()`controller, w.Parts()`saveDelegate
      ensures c.members <= old(c.members)
      ensures o.Pass? ==>
        && detached == old(detached) + shed && shed <= w.Parts()
        && dead == old(dead) + (if c.members == {} then {c} else {})
        && c.Revalidated(w)
    {
      shed := {};
      var r := c.CheckForDisconnections(w);
      if r.Err? {
        return Fail(r.error), shed;
      }
      assert dead == old(dead);
      if !c.IsEmpty() {
        c.Revalidate(w);
        assert c.members != {} && dead == old(dead);
      } else {
        AddDeadController(c);
      }
      if r.value.Some? && r.value.value != {} {
        detached := detached + r.value.value;
        shed := r.value.value;
      }
      return Pass, shed;
    }

    /** The split pass of `tickEnd`: every dirty controller takes its split
        step, then the dirty set is cleared. */
    method ProcessDirty(w: World) returns (o: Outcome, ghost shed: set<Part>)
      requires w.Valid()
      modifies this`dirty, this`dead, this`detached
      modifies dirty`shouldCheck, dirty`reference, dirty`members, dirty`lastError, dirty`state, dirty`events
      modifies dirty`minCoord, dirty`maxCoord, w.Parts()`visited, w.Parts()`controller, w.Parts()`saveDelegate
      ensures o.Pass? ==>
        && dirty == {} && detached == old(detached) + shed && shed <= w.Parts()
        && (forall c :: c in dead <==> c in old(dead) || (c in old(dirty) && c.members == {}))
        && (forall c :: c in old(dirty) ==> c.members <= old(c.members))
        && forall c :: c in old(dirty) ==> c.Revalidated(w)
    {
      var rest := dirty;
      shed := {};
      while rest != {}
        invariant rest <= old(dirty)
        invariant detached == old(detached) + shed && shed <= w.Parts()
        invariant forall c :: c in dead <==> c in old(dead) || (c in old(dirty) - rest && c.members == {})
        invariant forall c :: c in rest ==> c.members == old(c.members)
        invariant forall c :: c in old(dirty) - rest ==> c.members <= old(c.members)
        invariant forall c :: c in old(dirty) - rest ==> c.Revalidated(w)
        modifies this`dead, this`detached
        modifies old(dirty)`shouldCheck, old(dirty)`reference, old(dirty)`members, old(dirty)`lastError
        modifies old(dirty)`state, old(dirty)`events, old(dirty)`minCoord, old(dirty)`maxCoord
        modifies w.Parts()`visited, w.Parts()`controller, w.Parts()`saveDelegate
        decreases rest
      {
        var c :| c in rest;
        var step, more := SplitStep(c, w);
        if step.Fail? {
          return step, shed;
        }
        shed := shed + more;
        rest := rest - {c};
      }
      dirty := {};
      return Pass, shed;
    }

    /** The dead pass of `tickEnd`: a dead controller that still has members
        sheds all its blocks into the detached set (a block attached elsewhere
        throws), and every dead controller is unregistered. */
    method ProcessDead(w: World) returns (o: Outcome, ghost shed: set<Part>)
      requires w.Valid()
      modifies this`controllers, this`dead, this`detached, dead`members, dead`shouldCheck
      modifies w.Parts()`controller, w.Parts()`saveDelegate
      ensures o.Pass? ==>
        && dead == {} && controllers == old(controllers) - old(dead)
        && detached == old(detached) + shed && shed <= w.Parts()
        && (forall q :: q in shed ==> !q.IsConnected())
        && forall c :: c in old(dead) ==> c.members == {}
    {
      var rest := dead;
      shed := {};
      while rest != {}
        invariant rest <= old(dead)
        invariant controllers == old(controllers) - (old(dead) - rest)
        invariant detached == old(detached) + shed && shed <= w.Parts()
        invariant forall q :: q in shed ==> !q.IsConnected()
        invariant forall c :: c in old(dead) - rest ==> c.members == {}
        modifies this`controllers, this`detached, old(dead)`members, old(dead)`shouldCheck
        modifies w.Parts()`controller, w.Parts()`saveDelegate
        decreases rest
      {
        var c :| c in rest;
        if !c.IsEmpty() {
          assert w.PartsAt(w.ResolvingIn(c.members)) <= w.Parts();
          var r := c.DetachAllBlocks(w);
          if r.Err? {
            return Fail(r.error), shed;
          }
          detached := detached + r.value;
          shed := shed + r.value;
        }
        controllers := controllers - {c};
        rest := rest - {c};
      }
      dead := {};
      return Pass, shed;
    }

    /** `tickEnd`: the orphan pass, then the merges, the splits, the dead
        controllers and the detached parts, in that order; an exception in a
        pass ends the tick. After a whole tick no controller is dirty or dead,
        the parts shed during the tick are the orphans for the next one and
        are attached to nothing, and only empty controllers were unregistered. */
    method TickEnd(w: World, ghost cs: set<Controller>) returns (o: Outcome, ghost made: set<Controller>, ghost shed: set<Part>)
      requires w.Valid() && Closed(w, cs) && dirty + dead <= cs
      modifies this, cs`members, cs`reference, cs`shouldCheck, cs`lastError, cs`state, cs`events
      modifies cs`minCoord, cs`maxCoord, orphans`controller, orphans`saveDelegate, detached`controller
      modifies w.Parts()`visited, w.Parts()`controller, w.Parts()`saveDelegate
      ensures fresh(made)
      ensures o.Pass? ==>
        && dirty == {} && dead == {} && detached == {} && awaiting == old(awaiting)
        && orphans == old(detached) + shed && Unattached(orphans)
        && controllers <= old(controllers) + made
        && forall c :: c in old(controllers) + made - controllers ==> c.members == {}
    {
      shed := {};
      o, made := Gather(w, cs);
      if o.Fail? {
        return o, made, shed;
      }
      o, shed := Settle(w, cs + made);
    }

    /** The first half of `tickEnd`: the orphan pass, then the merges. */
    method Gather(w: World, ghost cs: set<Controller>) returns (o: Outcome, ghost made: set<Controller>)
      requires w.Valid() && Closed(w, cs) && dirty + dead <= cs
      modifies this`controllers, this`dirty, this`dead, this`orphans, cs`members, cs`reference
      modifies orphans`controller, orphans`saveDelegate, w.Parts()`controller, w.Parts()`saveDelegate
      ensures fresh(made)
      ensures o.Pass? ==>
        && orphans == {} && controllers == old(controllers) + made && dirty + dead <= cs + made
    {
      var pools;
      o, pools, made := ProcessOrphans(w, cs);
      if o.Fail? {
        return o, made;
      }
      ghost var masters;
      o, masters := ProcessMerges(pools, w);
    }

    /** The second half of `tickEnd`: the splits, the dead controllers, then
        the detached parts. */
    method Settle(w: World, ghost cs: set<Controller>) returns (o: Outcome, ghost shed: set<Part>)
      requires w.Valid() && dirty + dead <= cs
      modifies this`controllers, this`dirty, this`dead, this`detached, this`orphans
      modifies cs`members, cs`reference, cs`shouldCheck, cs`lastError, cs`state, cs`events, cs`minCoord, cs`maxCoord
      modifies detached`controller, w.Parts()`visited, w.Parts()`controller, w.Parts()`saveDelegate
      ensures o.Pass? ==>
        && dirty == {} && dead == {} && detached == {}
        && orphans == old(orphans) + (old(detached) + shed) && Unattached(old(detached) + shed)
        && controllers <= old(controllers)
        && forall c :: c in old(controllers) - controllers ==> c.members == {}
    {
      shed := {};
      ghost var split;
      o, split := ProcessDirty(w);
      if o.Fail? {
        return o, shed;
      }
      ghost var gone;
      o, gone := ProcessDead(w);
      if o.Fail? {
        return o, shed;
      }
      ProcessDetached();
      shed := split + gone;
    }
  }
}
