/**
 * The `HooverRequest` DTO: its declarative constraints (@NotNull,
 * @NotEmpty, @Pattern and the cascading @Valid on nested `Coords`),
 * the non-null view the validator reads, and the mutable request object
 * the navigator works on.
 */
module HooverRequestDto {
  import opened Wrappers
  import opened CoordsDto

  /** A request as deserialised, before validation: every reference may be null. */
  datatype RequestInput = RequestInput(
    roomSize: Option<CoordsInput>,
    initialPosition: Option<CoordsInput>,
    patches: Option<set<CoordsInput>>,
    instructions: Option<string>)

  datatype Field = RoomSize | InitialPosition | Patches | Instructions

  /** One constraint violation, keyed by the property it is reported under. */
  datatype Violation =
    | NotNull(field: Field)
    | NotEmpty(field: Field)
    | PatternMismatch(field: Field)
    | Nested(field: Field, inner: CoordsViolation)

  predicate IsInstruction(c: char) {
    c == 'N' || c == 'E' || c == 'S' || c == 'W'
  }

  /** `^[NESW]+$` matched against the whole string: non-empty, and only N, E, S, W. */
  predicate MatchesInstructionPattern(s: string) {
    |s| > 0 && forall i :: 0 <= i < |s| ==> IsInstruction(s[i])
  }

  /** @NotNull plus @Valid: a null object is one violation; otherwise its own violations cascade. */
  function CoordsFieldViolations(field: Field, c: Option<CoordsInput>): set<Violation> {
    match c
    case None => {NotNull(field)}
    case Some(v) => set w | w in CoordsViolations(v) :: Nested(field, w)
  }

  /** @NotEmpty fires on a null or an empty set; otherwise @Valid cascades to every element. */
  function PatchesViolations(ps: Option<set<CoordsInput>>): set<Violation> {
    if ps.None? || ps.value == {} then {NotEmpty(Patches)}
    else set p, w | p in ps.value && w in CoordsViolations(p) :: Nested(Patches, w)
  }

  /** @NotNull, then @Pattern, which treats null as valid. */
  function InstructionsViolations(s: Option<string>): set<Violation> {
    match s
    case None => {NotNull(Instructions)}
    case Some(t) => if MatchesInstructionPattern(t) then {} else {PatternMismatch(Instructions)}
  }

  /** All violations of the request; bean validation collects them rather than stopping at the first. */
  function Violations(r: RequestInput): set<Violation> {
    CoordsFieldViolations(RoomSize, r.roomSize)
    + CoordsFieldViolations(InitialPosition, r.initialPosition)
    + PatchesViolations(r.patches)
    + InstructionsViolations(r.instructions)
  }

  predicate WellFormed(r: RequestInput) {
    Violations(r) == {}
  }

  /** A request whose references and integers are all present. */
  datatype Request = Request(roomSize: Coords, initialPosition: Coords, patches: set<Coords>, instructions: string)

  predicate AllPresent(ps: set<CoordsInput>) {
    forall p :: p in ps ==> Unbox(p).Some?
  }

  /** The non-null view of a request; None when some reference or integer is null. */
  function Bind(r: RequestInput): Option<Request> {
    if && r.roomSize.Some? && Unbox(r.roomSize.value).Some?
       && r.initialPosition.Some? && Unbox(r.initialPosition.value).Some?
       && r.patches.Some? && AllPresent(r.patches.value)
       && r.instructions.Some?
    then
      Some(Request(
        Unbox(r.roomSize.value).value,
        Unbox(r.initialPosition.value).value,
        set p | p in r.patches.value && Unbox(p).Some? :: Unbox(p).value,
        r.instructions.value))
    else None
  }

  /** What the constraints demand of a request, stated on its non-null view. */
  predicate SatisfiesConstraints(q: Request) {
    && NonNegative(q.roomSize)
    && NonNegative(q.initialPosition)
    && q.patches != {}
    && (forall p :: p in q.patches ==> NonNegative(p))
    && MatchesInstructionPattern(q.instructions)
  }

  lemma CoordsFieldClean(field: Field, c: Option<CoordsInput>)
    ensures CoordsFieldViolations(field, c) == {} <==>
              c.Some? && Unbox(c.value).Some? && NonNegative(Unbox(c.value).value)
  {
    if c.Some? && CoordsViolations(c.value) != {} {
      var w :| w in CoordsViolations(c.value);
      assert Nested(field, w) in CoordsFieldViolations(field, c);
    }
  }

  lemma PatchesClean(ps: Option<set<CoordsInput>>)
    ensures PatchesViolations(ps) == {} <==>
              ps.Some? && ps.value != {} && forall p :: p in ps.value ==> CoordsViolations(p) == {}
  {
    if ps.Some? && ps.value != {} {
      if exists p :: p in ps.value && CoordsViolations(p) != {} {
        var p :| p in ps.value && CoordsViolations(p) != {};
        var w :| w in CoordsViolations(p);
        assert Nested(Patches, w) in PatchesViolations(ps);
      }
    }
  }

  /**
   * A request passes bean validation exactly when all its references are
   * present and its non-null view meets every constraint.
   */
  lemma WellFormedIffConstraintsHold(r: RequestInput)
    ensures WellFormed(r) <==> Bind(r).Some? && SatisfiesConstraints(Bind(r).value)
  {
    CoordsFieldClean(RoomSize, r.roomSize);
    CoordsFieldClean(InitialPosition, r.initialPosition);
    PatchesClean(r.patches);
    if WellFormed(r) {
      var ps := r.patches.value;
      assert AllPresent(ps);
      var p :| p in ps;
      assert Unbox(p).value in Bind(r).value.patches;
    }
    if Bind(r).Some? && SatisfiesConstraints(Bind(r).value) {
      var ps := r.patches.value;
      forall p | p in ps ensures CoordsViolations(p) == {} {
        assert Unbox(p).value in Bind(r).value.patches;
      }
      var c :| c in Bind(r).value.patches;
      var p :| p in ps && Unbox(p).Some? && Unbox(p).value == c;
    }
  }

  /** java.util.Set<Coords>: a mutable set, compared by value. */
  class CoordsSet {
    var elems: set<Coords>

    constructor (elems: set<Coords>)
      ensures this.elems == elems
    {
      this.elems := elems;
    }

    method Remove(c: Coords)
      modifies this
      ensures elems == old(elems) - {c}
    {
      elems := elems - {c};
    }
  }

  /** The request object as the service receives it, after its references were checked non-null. */
  class HooverRequest {
    var roomSize: MutableCoords
    var initialPosition: MutableCoords
    var patches: CoordsSet
    var instructions: string

    constructor (roomSize: MutableCoords, initialPosition: MutableCoords, patches: CoordsSet, instructions: string)
      ensures this.roomSize == roomSize && this.initialPosition == initialPosition
      ensures this.patches == patches && this.instructions == instructions
    {
      this.roomSize := roomSize;
      this.initialPosition := initialPosition;
      this.patches := patches;
      this.instructions := instructions;
    }

    /** The values the request currently holds. */
    function Snapshot(): Request
      reads this, roomSize, initialPosition, patches
    {
      Request(roomSize.Value(), initialPosition.Value(), patches.elems, instructions)
    }
  }
}
