/** Automatic stack locations for the arguments of a helper call. */
module CallLayout {
  import opened Common

  datatype Location = Unspecified | StackOffset(offset: int) | Elsewhere(place: int)

  /** The location a caller asks for and the two sizes that may be known: that of the argument's
      type and that of the built operand. */
  datatype Argument = Argument(location: Location, typeSize: int, operandSize: int)

  datatype Options = Options(autoLocations: bool, start: Option<int>, alignment: Option<int>)

  datatype Error = NegativeStart | BadAlignment | UnknownSize

  // ----- powers of two -----

  predicate IsPowerOfTwo(n: int)
    decreases n
  {
    n == 1 || (n > 1 && n % 2 == 0 && IsPowerOfTwo(n / 2))
  }

  /** Bitwise and. */
  function And(x: nat, y: nat): nat
    decreases x
  {
    if x == 0 then 0
    else
      var bit := if x % 2 == 1 && y % 2 == 1 then 1 else 0;
      bit + 2 * And(x / 2, y / 2)
  }

  lemma {:induction false} AndSelf(x: nat)
    ensures And(x, x) == x
  {
    if x > 0 {
      AndSelf(x / 2);
    }
  }

  /** The source's bit test for a power of two. */
  lemma {:induction false} BitTestIsPowerOfTwo(n: nat)
    requires n > 0
    ensures And(n, n - 1) == 0 <==> IsPowerOfTwo(n)
  {
    if n % 2 == 0 {
      BitTestIsPowerOfTwo(n / 2);
      assert (n - 1) / 2 == n / 2 - 1;
    } else {
      assert (n - 1) / 2 == n / 2;
      AndSelf(n / 2);
    }
  }

  lemma {:induction false} PowersAreSpread(p: int, q: int)
    requires IsPowerOfTwo(p) && IsPowerOfTwo(q) && q < p
    ensures 2 * q <= p
    decreases p
  {
    if q > 1 {
      PowersAreSpread(p / 2, q / 2);
    }
  }

  // ----- default alignment -----

  function StackAlignment(size: int): int {
    if size <= 8 then 8 else if size <= 16 then 16 else if size <= 32 then 32 else 64
  }

  lemma StackAlignmentIsLeast(size: int)
    ensures IsPowerOfTwo(StackAlignment(size))
    ensures size > 64 ==> StackAlignment(size) == 64
    ensures size <= 64 ==> 8 <= StackAlignment(size) && size <= StackAlignment(size)
    ensures forall p :: IsPowerOfTwo(p) && 8 <= p && size <= p ==> StackAlignment(size) <= p
  {
    var al := StackAlignment(size);
    assert IsPowerOfTwo(1) && IsPowerOfTwo(2) && IsPowerOfTwo(4) && IsPowerOfTwo(8);
    assert IsPowerOfTwo(16) && IsPowerOfTwo(32) && IsPowerOfTwo(64);
    forall p | IsPowerOfTwo(p) && 8 <= p && size <= p
      ensures al <= p
    {
      if al > 8 {
        PowersAreSpread(p, al / 2);
      }
    }
  }

  method StackAlignmentForSize(size: int) returns (alignment: int)
    ensures alignment == StackAlignment(size)
  {
    alignment := 8;
    while alignment < size && alignment < 64
      invariant alignment == 8 || alignment == 16 || alignment == 32 || alignment == 64
      invariant alignment > 8 ==> alignment < 2 * size
      decreases 64 - alignment
    {
      alignment := alignment * 2;
    }
  }

  // ----- the layout -----

  predicate IsAuto(a: Argument, o: Options) {
    a.location.Unspecified? && o.autoLocations
  }

  /** The bytes an argument takes on the stack: those of its type when that is known, else those of
      its operand. */
  function SizeOf(a: Argument): (size: int)
    ensures a.typeSize > 0 ==> size == a.typeSize
    ensures a.typeSize <= 0 ==> size == a.operandSize
  {
    if a.typeSize > 0 then a.typeSize else a.operandSize
  }

  function AlignmentOf(a: Argument, o: Options): int {
    if o.alignment.Some? then o.alignment.value else StackAlignment(SizeOf(a))
  }

  function AlignUp(cursor: int, alignment: int): int
    requires alignment > 0
  {
    if cursor % alignment != 0 then cursor + (alignment - cursor % alignment) else cursor
  }

  predicate ValidAlignment(o: Options) {
    o.alignment.Some? ==> o.alignment.value > 0
  }

  /** The locations of the arguments, with the next free stack offset at `cursor`. */
  function Assign(args: seq<Argument>, cursor: int, o: Options): (r: Result<seq<Location>, Error>)
    requires ValidAlignment(o)
    ensures r.Ok? ==> |r.value| == |args|
    decreases |args|
  {
    if args == [] then Ok([])
    else if IsAuto(args[0], o) && SizeOf(args[0]) <= 0 then Err(UnknownSize)
    else
      var slot := AlignUp(cursor, AlignmentOf(args[0], o));
      var place := if IsAuto(args[0], o) then StackOffset(slot) else args[0].location;
      match Assign(args[1..], if IsAuto(args[0], o) then slot + SizeOf(args[0]) else cursor, o)
      case Err(e) => Err(e)
      case Ok(rest) => Ok([place] + rest)
  }

  function Locations(args: seq<Argument>, o: Options): Result<seq<Location>, Error> {
    if o.start.Some? && o.start.value < 0 then Err(NegativeStart)
    else if o.alignment.Some? && !IsPowerOfTwo(o.alignment.value) then Err(BadAlignment)
    else Assign(args, if o.start.Some? then o.start.value else 0, o)
  }

  /** The automatic slot of one argument: its stack offset, or an error. */
  method AutoSlot(a: Argument, cursor: int, o: Options) returns (r: Result<int, Error>)
    requires ValidAlignment(o)
    ensures r == if SizeOf(a) <= 0 then Err(UnknownSize) else Ok(AlignUp(cursor, AlignmentOf(a, o)))
  {
    var size := a.typeSize;
    if size <= 0 {
      size := a.operandSize;
    }
    if size <= 0 {
      return Err(UnknownSize);
    }
    var alignment;
    if o.alignment.Some? {
      alignment := o.alignment.value;
    } else {
      alignment := StackAlignmentForSize(size);
    }
    var slot := cursor;
    var remainder := cursor % alignment;
    if remainder != 0 {
      slot := slot + (alignment - remainder);
    }
    r := Ok(slot);
  }

  lemma AssignStep(args: seq<Argument>, i: nat, cursor: int, o: Options, done: seq<Location>)
    requires ValidAlignment(o) && i < |args| && (IsAuto(args[i], o) ==> SizeOf(args[i]) > 0)
    ensures var slot := AlignUp(cursor, AlignmentOf(args[i], o));
            var place := if IsAuto(args[i], o) then StackOffset(slot) else args[i].location;
            var next := if IsAuto(args[i], o) then slot + SizeOf(args[i]) else cursor;
            var now, later := Assign(args[i..], cursor, o), Assign(args[i + 1..], next, o);
            WithEarlier(done, now) == WithEarlier(done + [place], later)
  {
    assert args[i..][0] == args[i] && args[i..][1..] == args[i + 1..];
    var slot := AlignUp(cursor, AlignmentOf(args[i], o));
    var place := if IsAuto(args[i], o) then StackOffset(slot) else args[i].location;
    var rest := Assign(args[i + 1..], if IsAuto(args[i], o) then slot + SizeOf(args[i]) else cursor, o);
    if rest.Ok? {
      assert done + ([place] + rest.value) == (done + [place]) + rest.value;
    }
  }

  method BuildCallArguments(args: seq<Argument>, o: Options) returns (r: Result<seq<Location>, Error>)
    ensures r == Locations(args, o)
  {
    var cursor := if o.start.Some? then o.start.value else 0;
    if o.start.Some? && o.start.value < 0 {
      return Err(NegativeStart);
    }
    if o.alignment.Some? {
      var alignment := o.alignment.value;
      if alignment <= 0 {
        return Err(BadAlignment);
      }
      BitTestIsPowerOfTwo(alignment);
      if And(alignment, alignment - 1) != 0 {
        return Err(BadAlignment);
      }
    }
    r := AssignLocations(args, cursor, o);
  }

  /** The argument loop. */
  method AssignLocations(args: seq<Argument>, start: int, o: Options) returns (r: Result<seq<Location>, Error>)
    requires ValidAlignment(o)
    ensures r == Assign(args, start, o)
  {
    var cursor := start;
    var done: seq<Location> := [];
    ghost var all := Assign(args, start, o);
    assert all.Ok? ==> done + all.value == all.value;
    assert args[0..] == args;
    for i := 0 to |args|
      invariant all == WithEarlier(done, Assign(args[i..], cursor, o))
    {
      var effective := args[i].location;
      if effective == Unspecified && o.autoLocations {
        var slot := AutoSlot(args[i], cursor, o);
        if slot.Err? {
          assert args[i..][0] == args[i];
          return Err(slot.error);
        }
        AssignStep(args, i, cursor, o, done);
        effective := StackOffset(slot.value);
        cursor := slot.value + (if args[i].typeSize > 0 then args[i].typeSize else args[i].operandSize);
      } else {
        AssignStep(args, i, cursor, o, done);
      }
      done := done + [effective];
    }
    assert done + [] == done;
    r := Ok(done);
  }

  // ----- what the layout keeps -----

  lemma AlignUpFits(cursor: int, alignment: int)
    requires alignment > 0
    ensures AlignUp(cursor, alignment) % alignment == 0
    ensures cursor <= AlignUp(cursor, alignment) < cursor + alignment
  {
    var r := cursor % alignment;
    var q := cursor / alignment;
    assert cursor == q * alignment + r;
    if r != 0 {
      assert AlignUp(cursor, alignment) == (q + 1) * alignment;
      MultipleIsAligned(q + 1, alignment);
    }
  }

  lemma MultipleIsAligned(q: int, alignment: int)
    requires alignment > 0
    ensures (q * alignment) % alignment == 0
  {
    var x := q * alignment;
    var k := q - x / alignment;
    assert x % alignment == k * alignment;
    if k != 0 {
      FarFromZero(k, alignment);
    }
  }

  /** Argument `i` as a stack slot, given the first free offset before it. */
  predicate SlotFits(a: Argument, o: Options, at: Location, free: int)
    requires ValidAlignment(o)
  {
    && at.StackOffset?
    && free <= at.offset < free + AlignmentOf(a, o)
    && at.offset % AlignmentOf(a, o) == 0
  }

  /** The first free offset after the arguments before `i`. */
  function FreeBefore(args: seq<Argument>, at: seq<Location>, i: nat, start: int, o: Options): int
    requires i <= |args| == |at|
  {
    if i == 0 then start
    else if IsAuto(args[i - 1], o) && at[i - 1].StackOffset? then at[i - 1].offset + SizeOf(args[i - 1])
    else FreeBefore(args, at, i - 1, start, o)
  }

  /** Each automatic argument takes the first aligned slot at or after the end of the previous
      automatic one; every other argument keeps the location it asked for. */
  lemma {:induction false} AssignFits(args: seq<Argument>, start: int, o: Options, i: nat)
    requires ValidAlignment(o) && Assign(args, start, o).Ok? && i < |args|
    ensures var at := Assign(args, start, o).value;
            if IsAuto(args[i], o) then
              SizeOf(args[i]) > 0 && SlotFits(args[i], o, at[i], FreeBefore(args, at, i, start, o))
            else at[i] == args[i].location
    decreases |args|
  {
    var at := Assign(args, start, o).value;
    var next := if IsAuto(args[0], o) then AlignUp(start, AlignmentOf(args[0], o)) + SizeOf(args[0]) else start;
    if i == 0 {
      AlignUpFits(start, AlignmentOf(args[0], o));
    } else {
      var rest := Assign(args[1..], next, o).value;
      AssignFits(args[1..], next, o, i - 1);
      assert at[1..] == rest;
      FreeBeforeShifts(args, at, i, start, next, o);
    }
  }

  lemma {:induction false} FreeBeforeShifts(args: seq<Argument>, at: seq<Location>, i: nat, start: int, next: int,
                                            o: Options)
    requires 0 < i <= |args| == |at|
    requires next == if IsAuto(args[0], o) && at[0].StackOffset? then at[0].offset + SizeOf(args[0]) else start
    ensures FreeBefore(args, at, i, start, o) == FreeBefore(args[1..], at[1..], i - 1, next, o)
    decreases i
  {
    if i > 1 {
      FreeBeforeShifts(args, at, i - 1, start, next, o);
    } else {
      assert FreeBefore(args, at, 0, start, o) == start;
    }
  }

  /** Automatic slots start at or after `start`, increase, and never overlap. */
  lemma {:induction false} SlotsAreDisjoint(args: seq<Argument>, start: int, o: Options, i: nat, j: nat)
    requires ValidAlignment(o) && Assign(args, start, o).Ok? && i <= j < |args| && IsAuto(args[j], o)
    ensures var at := Assign(args, start, o).value;
            && at[j].StackOffset?
            && start <= FreeBefore(args, at, i, start, o) <= FreeBefore(args, at, j, start, o) <= at[j].offset
            && (i < j && IsAuto(args[i], o) ==> at[i].StackOffset? && at[i].offset + SizeOf(args[i]) <= at[j].offset)
  {
    var at := Assign(args, start, o).value;
    AssignFits(args, start, o, j);
    FreeGrows(args, start, o, 0, i);
    FreeGrows(args, start, o, i, j);
    if i < j {
      FreeGrows(args, start, o, i + 1, j);
      AssignFits(args, start, o, i);
    }
  }

  lemma {:induction false} FreeGrows(args: seq<Argument>, start: int, o: Options, i: nat, j: nat)
    requires ValidAlignment(o) && Assign(args, start, o).Ok? && i <= j <= |args|
    ensures var at := Assign(args, start, o).value;
            FreeBefore(args, at, i, start, o) <= FreeBefore(args, at, j, start, o)
    decreases j
  {
    if i < j {
      FreeGrows(args, start, o, i, j - 1);
      AssignFits(args, start, o, j - 1);
    }
  }

  // ----- explicit arguments do not move the cursor -----

  function AutoOnly(args: seq<Argument>, o: Options): seq<Argument> {
    if args == [] then []
    else if IsAuto(args[0], o) then [args[0]] + AutoOnly(args[1..], o)
    else AutoOnly(args[1..], o)
  }

  /** The locations given to the automatic arguments. */
  function AutoPlaces(args: seq<Argument>, at: seq<Location>, o: Options): seq<Location>
    requires |args| == |at|
  {
    if args == [] then []
    else if IsAuto(args[0], o) then [at[0]] + AutoPlaces(args[1..], at[1..], o)
    else AutoPlaces(args[1..], at[1..], o)
  }

  /** The automatic arguments get the slots they would get without the explicit ones. */
  lemma {:induction false} ExplicitArgumentsDoNotMatter(args: seq<Argument>, start: int, o: Options)
    requires ValidAlignment(o)
    ensures Assign(args, start, o).Ok? <==> Assign(AutoOnly(args, o), start, o).Ok?
    ensures Assign(args, start, o).Ok? ==>
              Assign(AutoOnly(args, o), start, o).value == AutoPlaces(args, Assign(args, start, o).value, o)
    decreases |args|
  {
    if args != [] {
      var slot := AlignUp(start, AlignmentOf(args[0], o));
      var next := if IsAuto(args[0], o) then slot + SizeOf(args[0]) else start;
      ExplicitArgumentsDoNotMatter(args[1..], next, o);
      if IsAuto(args[0], o) {
        assert AutoOnly(args, o)[0] == args[0] && AutoOnly(args, o)[1..] == AutoOnly(args[1..], o);
      }
      if Assign(args, start, o).Ok? {
        assert Assign(args, start, o).value[1..] == Assign(args[1..], next, o).value;
      }
    }
  }

  /** Accepted options give non-negative offsets and alignments that are powers of two. */
  lemma LocationsAreSlots(args: seq<Argument>, o: Options, i: nat)
    requires Locations(args, o).Ok? && i < |args| && IsAuto(args[i], o)
    ensures IsPowerOfTwo(AlignmentOf(args[i], o))
    ensures ValidAlignment(o) && Locations(args, o).value[i].StackOffset?
    ensures Locations(args, o).value[i].offset >= 0
    ensures Locations(args, o).value[i].offset % AlignmentOf(args[i], o) == 0
  {
    var start := if o.start.Some? then o.start.value else 0;
    StackAlignmentIsLeast(SizeOf(args[i]));
    AssignFits(args, start, o, i);
    SlotsAreDisjoint(args, start, o, i, i);
  }

  /** `at[i]` is the first multiple of `p` behind the previous automatic slot, or from the start on. */
  ghost predicate IsNextMultiple(args: seq<Argument>, o: Options, at: seq<Location>, i: nat, p: int)
    requires i < |args| == |at|
  {
    && at[i].StackOffset? && p > 0 && at[i].offset % p == 0
    && (|| at[i].offset < (if o.start.Some? then o.start.value else 0) + p
        || exists j :: 0 <= j < i && IsAuto(args[j], o) && at[j].StackOffset? &&
                       at[i].offset < at[j].offset + SizeOf(args[j]) + p)
  }

  /** An automatic slot is the first multiple behind the previous one of the given alignment, or else of
      the least power of two that is at least 8 and at least the argument's size, capped at 64; it
      starts no earlier than the start, and the next slot no earlier than the argument's size later. */
  lemma AutomaticSlotIs(args: seq<Argument>, o: Options, i: nat)
    requires Locations(args, o).Ok? && i < |args| && IsAuto(args[i], o)
    ensures var at := Locations(args, o).value;
            && at[i].StackOffset? && SizeOf(args[i]) > 0
            && at[i].offset >= (if o.start.Some? then o.start.value else 0)
            && (forall j :: i < j < |args| && IsAuto(args[j], o) ==>
                  at[j].StackOffset? && at[j].offset >= at[i].offset + SizeOf(args[i]))
            && (o.alignment.Some? ==> IsNextMultiple(args, o, at, i, o.alignment.value))
            && (o.alignment.None? ==>
                  exists p :: LeastAtLeast(p, SizeOf(args[i])) && IsNextMultiple(args, o, at, i, p))
  {
    var start := if o.start.Some? then o.start.value else 0;
    var at := Locations(args, o).value;
    LocationsAreSlots(args, o, i);
    AssignFits(args, start, o, i);
    FreeBeforeIs(args, at, i, start, o);
    SlotsAreDisjoint(args, start, o, i, i);
    assert IsNextMultiple(args, o, at, i, AlignmentOf(args[i], o));
    if o.alignment.None? {
      StackAlignmentIsLeast(SizeOf(args[i]));
      assert LeastAtLeast(StackAlignment(SizeOf(args[i])), SizeOf(args[i]));
    }
    forall j | i < j < |args| && IsAuto(args[j], o)
      ensures at[j].StackOffset? && at[j].offset >= at[i].offset + SizeOf(args[i])
    {
      SlotsAreDisjoint(args, start, o, i, j);
    }
  }

  lemma {:induction false} FreeBeforeIs(args: seq<Argument>, at: seq<Location>, i: nat, start: int, o: Options)
    requires i <= |args| == |at|
    ensures FreeBefore(args, at, i, start, o) == start
         || exists j :: 0 <= j < i && IsAuto(args[j], o) && at[j].StackOffset? &&
                        FreeBefore(args, at, i, start, o) == at[j].offset + SizeOf(args[j])
    decreases i
  {
    if i > 0 {
      FreeBeforeIs(args, at, i - 1, start, o);
    }
  }

  /** `p` is the least power of two that is at least 8 and at least `size`, or 64 if that is more. */
  ghost predicate LeastAtLeast(p: int, size: int) {
    && IsPowerOfTwo(p) && 8 <= p <= 64 && (size <= p || p == 64)
    && forall q :: IsPowerOfTwo(q) && 8 <= q && size <= q ==> p <= q
  }

  /** The arguments that ask for no location get a slot when automatic locations are on; all others keep
      what they ask for. */
  lemma RequestedPlacesStay(args: seq<Argument>, o: Options, i: nat)
    requires Locations(args, o).Ok? && i < |args|
    ensures args[i].location.Unspecified? && o.autoLocations ==> Locations(args, o).value[i].StackOffset?
    ensures !(args[i].location.Unspecified? && o.autoLocations) ==> Locations(args, o).value[i] == args[i].location
  {
    AssignFits(args, if o.start.Some? then o.start.value else 0, o, i);
  }

  /** A call is accepted exactly when its start is not negative, its alignment is a power of two, where
      they are given, and each automatic argument has a size. */
  lemma AcceptedIff(args: seq<Argument>, o: Options)
    ensures Locations(args, o).Ok?
       <==> && (o.start.Some? ==> o.start.value >= 0)
            && (o.alignment.Some? ==> IsPowerOfTwo(o.alignment.value))
            && forall i :: 0 <= i < |args| && IsAuto(args[i], o) ==> SizeOf(args[i]) > 0
  {
    if o.alignment.None? || IsPowerOfTwo(o.alignment.value) {
      AssignSucceedsIff(args, if o.start.Some? then o.start.value else 0, o);
    }
  }

  lemma {:induction false} AssignSucceedsIff(args: seq<Argument>, cursor: int, o: Options)
    requires ValidAlignment(o)
    ensures Assign(args, cursor, o).Ok? <==> forall i :: 0 <= i < |args| && IsAuto(args[i], o) ==> SizeOf(args[i]) > 0
    decreases |args|
  {
    if args != [] {
      var slot := AlignUp(cursor, AlignmentOf(args[0], o));
      AssignSucceedsIff(args[1..], if IsAuto(args[0], o) then slot + SizeOf(args[0]) else cursor, o);
      assert forall i :: 0 < i < |args| ==> args[i] == args[1..][i - 1];
    }
  }

  // ----- explicit stack slots beside automatic ones -----

  /** The least alignment an automatic slot can have. */
  function LeastAlignment(o: Options): int {
    if o.alignment.Some? then o.alignment.value else 8
  }

  /** The first automatic slot there can be. */
  function FirstSlot(o: Options): int
    requires LeastAlignment(o) > 0
  {
    AlignUp(if o.start.Some? then o.start.value else 0, LeastAlignment(o))
  }

  predicate Apart(low: int, size: int, at: Location, atSize: int) {
    at.StackOffset? ==> low + size <= at.offset || at.offset + atSize <= low
  }

  /** No list of arguments puts an automatic slot into the given stack range. */
  ghost predicate LeftAlone(low: int, size: int, o: Options) {
    forall args, j: nat :: Locations(args, o).Ok? && j < |args| && IsAuto(args[j], o) ==>
      Apart(low, size, Locations(args, o).value[j], SizeOf(args[j]))
  }

  lemma LeastMultiple(x: int, base: int, alignment: int)
    requires alignment > 0 && x % alignment == 0 && x >= base
    ensures x >= AlignUp(base, alignment)
  {
    var up := AlignUp(base, alignment);
    AlignUpFits(base, alignment);
    if x < up {
      var q, r := up / alignment, x / alignment;
      assert up == q * alignment && x == r * alignment;
      assert up - x == (q - r) * alignment;
      FarFromZero(q - r, alignment);
    }
  }

  lemma AlignedLeast(a: Argument, o: Options, offset: int)
    requires ValidAlignment(o) && AlignmentOf(a, o) > 0 && offset % AlignmentOf(a, o) == 0
    ensures LeastAlignment(o) > 0 && offset % LeastAlignment(o) == 0
  {
    if o.alignment.None? {
      assert AlignmentOf(a, o) in [8, 16, 32, 64];
      assert offset % 8 == 0;
    }
  }

  lemma SlotsFromFirst(args: seq<Argument>, o: Options, j: nat)
    requires Locations(args, o).Ok? && j < |args| && IsAuto(args[j], o)
    ensures LeastAlignment(o) > 0 && Locations(args, o).value[j].StackOffset?
    ensures Locations(args, o).value[j].offset >= FirstSlot(o)
  {
    var start := if o.start.Some? then o.start.value else 0;
    LocationsAreSlots(args, o, j);
    var offset := Locations(args, o).value[j].offset;
    assert offset >= start by {
      SlotsAreDisjoint(args, start, o, j, j);
    }
    AlignedLeast(args[j], o, offset);
    LeastMultiple(offset, start, LeastAlignment(o));
  }

  /** `n` automatic arguments, each as large as its alignment. */
  function Block(n: nat, o: Options): seq<Argument> {
    seq(n, _ => Argument(Unspecified, LeastAlignment(o), 0))
  }

  lemma NextAligned(slot: int, step: int)
    requires step > 0 && slot % step == 0
    ensures AlignUp(slot + step, step) == slot + step
  {
    assert slot + step == (slot / step + 1) * step;
    MultipleIsAligned(slot / step + 1, step);
  }

  lemma OneStepMore(i: int, step: int)
    ensures step + (i - 1) * step == i * step
  {
  }

  lemma BlockStep(n: nat, cursor: int, o: Options)
    requires o.autoLocations && ValidAlignment(o) && n > 0
    ensures var slot := AlignUp(cursor, LeastAlignment(o));
            var rest := Assign(Block(n - 1, o), slot + LeastAlignment(o), o);
            Assign(Block(n, o), cursor, o) == match rest
                                              case Err(e) => Err(e)
                                              case Ok(places) => Ok([StackOffset(slot)] + places)
  {
    assert Block(n, o)[1..] == Block(n - 1, o);
    assert AlignmentOf(Block(n, o)[0], o) == LeastAlignment(o);
  }

  /** Such arguments fill the stack from the first slot on without gaps. */
  lemma {:induction false} BlockFills(n: nat, cursor: int, o: Options, i: nat)
    requires o.autoLocations && ValidAlignment(o) && i < n
    ensures Assign(Block(n, o), cursor, o).Ok?
    ensures Assign(Block(n, o), cursor, o).value[i]
         == StackOffset(AlignUp(cursor, LeastAlignment(o)) + i * LeastAlignment(o))
    decreases n
  {
    var step := LeastAlignment(o);
    var slot := AlignUp(cursor, step);
    AlignUpFits(cursor, step);
    BlockStep(n, cursor, o);
    if n > 1 {
      BlockFills(n - 1, slot + step, o, if i > 0 then i - 1 else 0);
      NextAligned(slot, step);
      if i > 0 {
        var rest := Assign(Block(n - 1, o), slot + step, o).value;
        OneStepMore(i, step);
        assert Assign(Block(n, o), cursor, o).value[i] == rest[i - 1];
      }
    }
  }

  /** Some automatic slot holds any byte from the first slot on. */
  lemma SlotAt(b: int, o: Options) returns (args: seq<Argument>, i: nat)
    requires o.autoLocations && Locations([], o).Ok? && LeastAlignment(o) > 0 && b >= FirstSlot(o)
    ensures Locations(args, o).Ok? && i < |args| && IsAuto(args[i], o) && SizeOf(args[i]) == LeastAlignment(o)
    ensures Locations(args, o).value[i].StackOffset?
    ensures Locations(args, o).value[i].offset <= b < Locations(args, o).value[i].offset + LeastAlignment(o)
  {
    var step := LeastAlignment(o);
    i := SlotIndex(b - FirstSlot(o), step);
    args := Block(i + 1, o);
    BlockFills(i + 1, if o.start.Some? then o.start.value else 0, o, i);
  }

  lemma SlotIndex(distance: nat, step: int) returns (i: nat)
    requires step > 0
    ensures i * step <= distance < i * step + step
  {
    i := distance / step;
    assert distance == i * step + distance % step;
  }

  /** An explicit stack range is safe from every list of automatic arguments exactly when it ends
      at or before the first automatic slot. */
  lemma ExplicitSlotSafeIff(low: int, size: int, o: Options)
    requires size > 0 && o.autoLocations && Locations([], o).Ok?
    ensures LeastAlignment(o) > 0
    ensures LeftAlone(low, size, o) <==> low + size <= FirstSlot(o)
  {
    if low + size <= FirstSlot(o) {
      forall args, j: nat | Locations(args, o).Ok? && j < |args| && IsAuto(args[j], o)
        ensures Apart(low, size, Locations(args, o).value[j], SizeOf(args[j]))
      {
        SlotsFromFirst(args, o, j);
      }
    } else {
      var args, i := SlotAt(if low > FirstSlot(o) then low else FirstSlot(o), o);
      assert !Apart(low, size, Locations(args, o).value[i], SizeOf(args[i]));
    }
  }
}
