/** Editing an instruction block: emission under an insertion policy, helper-call insertion,
    removal, and the tracked last-emitted instruction. */
module MicrocodeBlock {
  import opened Common
  import opened MicrocodeBuilder

  datatype Policy = Tail | Beginning | BeforeTail

  /** An instruction in a block; `id` stands for the pointer to it. */
  datatype Node = Node(id: nat, insn: Minsn)

  // ----- the SDK's block operations -----

  function Position(block: seq<Node>, id: nat): (k: nat)
    ensures k <= |block|
    ensures k < |block| ==> block[k].id == id
    ensures forall i :: 0 <= i < k ==> block[i].id != id
  {
    if block == [] || block[0].id == id then 0 else 1 + Position(block[1..], id)
  }

  function Without(block: seq<Node>, id: nat): seq<Node> {
    var k := Position(block, id);
    if k == |block| then block else block[..k] + block[k + 1..]
  }

  /** `insert_into_block`: behind the anchor, or at the head when there is none. */
  function InsertAfter(block: seq<Node>, anchor: Option<nat>, x: Node): seq<Node> {
    if anchor.None? then [x] + block
    else
      var k := Position(block, anchor.value);
      if k == |block| then block + [x] else block[..k + 1] + [x] + block[k + 1..]
  }

  function AnchorFor(block: seq<Node>, policy: Policy): Option<nat> {
    match policy
    case Tail => if block == [] then None else Some(block[|block| - 1].id)
    case Beginning => None
    case BeforeTail => if |block| <= 1 then None else Some(block[|block| - 2].id)
  }

  // ----- what a policy means -----

  function Place<T>(block: seq<T>, x: T, policy: Policy): seq<T> {
    match policy
    case Tail => block + [x]
    case Beginning => [x] + block
    case BeforeTail =>
      if block == [] then [x] else block[..|block| - 1] + [x] + [block[|block| - 1]]
  }

  function PlaceAll<T>(block: seq<T>, xs: seq<T>, policy: Policy): seq<T>
    decreases |xs|
  {
    if xs == [] then block else PlaceAll(Place(block, xs[0], policy), xs[1..], policy)
  }

  function Reverse<T>(xs: seq<T>): seq<T> {
    if xs == [] then [] else Reverse(xs[1..]) + [xs[0]]
  }

  /** A list placed as a whole: in order behind the block, reversed in front of it, or in order
      before its last instruction.  Before the tail of an empty block the first instruction
      becomes the tail. */
  function Arranged<T>(block: seq<T>, xs: seq<T>, policy: Policy): seq<T> {
    match policy
    case Tail => block + xs
    case Beginning => Reverse(xs) + block
    case BeforeTail =>
      if block != [] then block[..|block| - 1] + xs + [block[|block| - 1]]
      else if xs == [] then []
      else xs[1..] + [xs[0]]
  }

  lemma {:induction false} PlaceAllIsArranged<T>(block: seq<T>, xs: seq<T>, policy: Policy)
    ensures PlaceAll(block, xs, policy) == Arranged(block, xs, policy)
    decreases |xs|
  {
    if xs == [] {
      ArrangeNothing(block, policy);
    } else {
      PlaceAllIsArranged(Place(block, xs[0], policy), xs[1..], policy);
      match policy
      case Tail => ArrangeTail(block, xs);
      case Beginning => ArrangeBeginning(block, xs);
      case BeforeTail => ArrangeBeforeTail(block, xs);
    }
  }

  lemma ArrangeTail<T>(block: seq<T>, xs: seq<T>)
    requires xs != []
    ensures Arranged(Place(block, xs[0], Tail), xs[1..], Tail) == Arranged(block, xs, Tail)
  {
  }

  lemma ArrangeBeginning<T>(block: seq<T>, xs: seq<T>)
    requires xs != []
    ensures Arranged(Place(block, xs[0], Beginning), xs[1..], Beginning) == Arranged(block, xs, Beginning)
  {
  }

  lemma ArrangeNothing<T>(block: seq<T>, policy: Policy)
    ensures Arranged(block, [], policy) == block
  {
  }

  lemma ArrangeBeforeTail<T>(block: seq<T>, xs: seq<T>)
    requires xs != []
    ensures Arranged(Place(block, xs[0], BeforeTail), xs[1..], BeforeTail) == Arranged(block, xs, BeforeTail)
  {
  }

  /** Where an emitted instruction lands: last, first, or in front of the last one. */
  lemma PlaceIs<T>(block: seq<T>, x: T, policy: Policy)
    ensures var placed := Place(block, x, policy);
            var k := match policy
                     case Tail => |block|
                     case Beginning => 0
                     case BeforeTail => if block == [] then 0 else |block| - 1;
            |placed| == |block| + 1 && placed[k] == x && placed[..k] + placed[k + 1..] == block
  {
  }

  lemma {:induction false} ReverseAt<T>(xs: seq<T>, k: nat)
    requires k < |xs|
    ensures |Reverse(xs)| == |xs| && Reverse(xs)[k] == xs[|xs| - 1 - k]
  {
    if |xs| > 1 {
      ReverseAt(xs[1..], if k < |xs| - 1 then k else 0);
    }
  }

  function Contents(block: seq<Node>): seq<Minsn> {
    seq(|block|, i requires 0 <= i < |block| => block[i].insn)
  }

  lemma ContentsOfPlace(block: seq<Node>, x: Node, policy: Policy)
    ensures Contents(Place(block, x, policy)) == Place(Contents(block), x.insn, policy)
  {
  }

  // ----- identities -----

  predicate DistinctIds(block: seq<Node>) {
    forall i, j :: 0 <= i < j < |block| ==> block[i].id != block[j].id
  }

  predicate HasId(block: seq<Node>, id: nat) {
    exists i :: 0 <= i < |block| && block[i].id == id
  }

  lemma NextIdIsFresh(block: seq<Node>, next: nat)
    requires forall n :: n in block ==> n.id < next
    ensures !HasId(block, next)
  {
  }

  lemma WithoutFresh(block: seq<Node>, x: Node)
    requires !HasId(block, x.id)
    ensures Without(block + [x], x.id) == block
  {
    assert (block + [x])[|block|] == x;
    assert forall i :: 0 <= i < |block| ==> (block + [x])[i] == block[i];
    assert Position(block + [x], x.id) == |block|;
  }

  /** Removing the instruction that was just placed restores the block. */
  lemma RemoveUndoesPlace(block: seq<Node>, x: Node, policy: Policy)
    requires !HasId(block, x.id)
    ensures Without(Place(block, x, policy), x.id) == block
  {
    match policy
    case Tail => WithoutFresh(block, x);
    case Beginning => assert ([x] + block)[1..] == block;
    case BeforeTail =>
      if block != [] {
        var n := |block| - 1;
        var placed := Place(block, x, policy);
        assert placed[n] == x && forall i :: 0 <= i < n ==> placed[i] == block[i];
        assert Position(placed, x.id) == n;
        assert placed[..n] + placed[n + 1..] == block;
      } else {
        WithoutFresh(block, x);
      }
  }

  /** The anchor of a policy puts an instruction where the policy says. */
  lemma AnchorPlaces(block: seq<Node>, x: Node, policy: Policy)
    requires DistinctIds(block)
    ensures InsertAfter(block, AnchorFor(block, policy), x) == Place(block, x, policy)
  {
  }

  lemma PlaceKeepsIds(block: seq<Node>, x: Node, policy: Policy)
    requires DistinctIds(block) && !HasId(block, x.id)
    ensures DistinctIds(Place(block, x, policy)) && HasId(Place(block, x, policy), x.id)
    ensures forall id :: HasId(block, id) ==> HasId(Place(block, x, policy), id)
    ensures forall n :: n in Place(block, x, policy) ==> n == x || n in block
  {
    var placed := Place(block, x, policy);
    var at := if policy.Tail? then |block| else if policy.Beginning? || block == [] then 0 else |block| - 1;
    assert placed == block[..at] + [x] + block[at..];
    assert placed[at] == x;
    forall id | HasId(block, id)
      ensures HasId(placed, id)
    {
      var k :| 0 <= k < |block| && block[k].id == id;
      assert placed[if k < at then k else k + 1] == block[k];
    }
  }

  lemma WithoutKeepsIds(block: seq<Node>, id: nat)
    requires DistinctIds(block)
    ensures DistinctIds(Without(block, id)) && !HasId(Without(block, id), id)
    ensures forall other :: other != id && HasId(block, other) ==> HasId(Without(block, id), other)
    ensures forall n :: n in Without(block, id) ==> n in block
  {
    var k := Position(block, id);
    if k < |block| {
      DropKeepsIds(block, k, block[..k] + block[k + 1..]);
    }
  }

  lemma DropKeepsIds(block: seq<Node>, k: nat, rest: seq<Node>)
    requires DistinctIds(block) && k < |block| && rest == block[..k] + block[k + 1..]
    ensures DistinctIds(rest) && !HasId(rest, block[k].id)
    ensures forall other :: other != block[k].id && HasId(block, other) ==> HasId(rest, other)
    ensures forall n :: n in rest ==> n in block
  {
    assert forall i :: 0 <= i < |rest| ==> rest[i] == block[if i < k then i else i + 1];
    forall other | other != block[k].id && HasId(block, other)
      ensures HasId(rest, other)
    {
      var j :| 0 <= j < |block| && block[j].id == other;
      assert rest[if j < k then j else j - 1] == block[j];
    }
  }

  // ----- lowering -----

  function NoopInsn(sdk: Sdk): Minsn {
    var none := Mop(Z, sdk.defaultSize(Z), false);
    Minsn(M_nop, none, none, none, false)
  }

  /** The instruction that `emit` is handed; a no-operation carries no operands, and its
      floating-point mark is set once it is in place. */
  function Lower(ins: Instruction, sdk: Sdk): Result<Minsn, Error> {
    if LacksMemoryOperand(ins) then Err(Invalid)
    else if ins.opcode == NoOperation then Ok(NoopInsn(sdk).(fp := ins.floating))
    else
      match BuildOperand(ins.left, sdk, 0)
      case Err(e) => Err(e)
      case Ok(l) =>
        match BuildOperand(ins.right, sdk, 0)
        case Err(e) => Err(e)
        case Ok(r) =>
          match BuildOperand(ins.destination, sdk, 0)
          case Err(e) => Err(e)
          case Ok(d) => Ok(Minsn(ToSdkOpcode(ins.opcode), l, r, d, ins.floating))
  }

  /** An emitted instruction may nest sixteen levels below its operands; a no-operation ignores
      its operands altogether. */
  /** What reaches the emit call: for a no-operation three empty operands whatever the given ones are,
      for any other instruction its opcode and its operands, built at depth zero. */
  lemma LoweredIs(ins: Instruction, sdk: Sdk)
    requires Lower(ins, sdk).Ok?
    ensures var m := Lower(ins, sdk).value;
            && m.fp == ins.floating
            && m.code == ToSdkOpcode(ins.opcode)
            && (ins.opcode == NoOperation ==>
                  m.l == m.r == m.d == Mop(Z, sdk.defaultSize(Z), false) && m.code == M_nop)
            && (ins.opcode != NoOperation ==>
                  && BuildOperand(ins.left, sdk, 0) == Ok(m.l)
                  && BuildOperand(ins.right, sdk, 0) == Ok(m.r)
                  && BuildOperand(ins.destination, sdk, 0) == Ok(m.d))
  {
  }

  lemma LowerSucceedsIff(ins: Instruction, sdk: Sdk)
    ensures Lower(ins, sdk).Ok?
       <==> ins.opcode == NoOperation || (WellFormedInstruction(ins, sdk) && InstructionLevels(ins) <= 17)
  {
    OperandBuildsIff(ins.left, sdk, 0);
    OperandBuildsIff(ins.right, sdk, 0);
    OperandBuildsIff(ins.destination, sdk, 0);
  }

  predicate IsBare(o: Operand) {
    o.payload.Empty? && !o.markUdt
  }

  /** The emitted instruction parses, and to the one that was given unless it is a no-operation
      with operands or marks, which are discarded. */
  lemma LoweredParses(ins: Instruction, sdk: Sdk)
    requires Lower(ins, sdk).Ok?
    ensures ParseInstruction(Lower(ins, sdk).value).Ok?
    ensures RepresentsInstruction(ParseInstruction(Lower(ins, sdk).value).value, ins)
       <==> (ins.opcode == NoOperation ==> IsBare(ins.left) && IsBare(ins.right) && IsBare(ins.destination))
  {
    if ins.opcode != NoOperation {
      LoweredTypedParses(ins, sdk);
    }
  }

  lemma LoweredTypedParses(ins: Instruction, sdk: Sdk)
    requires Lower(ins, sdk).Ok? && ins.opcode != NoOperation
    ensures ParseInstruction(Lower(ins, sdk).value).Ok?
    ensures RepresentsInstruction(ParseInstruction(Lower(ins, sdk).value).value, ins)
  {
    BuiltOperandParses(ins.left, sdk, 0);
    BuiltOperandParses(ins.right, sdk, 0);
    BuiltOperandParses(ins.destination, sdk, 0);
    OpcodesOneToOne(ins.opcode, ToSdkOpcode(ins.opcode));
  }

  /** Whether the SDK's `emit` and `insert_into_block` succeed when they are called. */
  datatype Answer = Answer(emitOk: bool, insertOk: bool)

  predicate Emittable(ins: Instruction, policy: Policy, answer: Answer, sdk: Sdk) {
    Lower(ins, sdk).Ok? && answer.emitOk && (policy.Tail? || answer.insertOk)
  }

  /** All of `list` can be emitted; `answers` may go on after it. */
  predicate AllEmittable(list: seq<Instruction>, policy: Policy, answers: seq<Answer>, sdk: Sdk) {
    |list| <= |answers| && forall i :: 0 <= i < |list| ==> Emittable(list[i], policy, answers[i], sdk)
  }

  function LowerAll(list: seq<Instruction>, sdk: Sdk): seq<Minsn>
    requires forall i :: 0 <= i < |list| ==> Lower(list[i], sdk).Ok?
  {
    seq(|list|, i requires 0 <= i < |list| => Lower(list[i], sdk).value)
  }

  /** The tracked instruction is the last of `emitted`, or the earlier one when there is none. */
  predicate LastIs(block: seq<Node>, tracked: Option<nat>, emitted: seq<Minsn>, earlier: Option<nat>) {
    if emitted == [] then tracked == earlier
    else tracked.Some? && Node(tracked.value, emitted[|emitted| - 1]) in block
  }

  class MicrocodeContext {
    const sdk: Sdk
    var block: seq<Node>
    var nextId: nat
    var lastEmitted: Option<nat>
    var emittedNoop: bool

    constructor (sdk: Sdk, block: seq<Node>, nextId: nat)
      requires DistinctIds(block) && forall n :: n in block ==> n.id < nextId
      ensures Valid() && this.sdk == sdk && this.block == block && lastEmitted.None? && !emittedNoop
    {
      this.sdk, this.block, this.nextId := sdk, block, nextId;
      lastEmitted, emittedNoop := None, false;
    }

    /** `last_emitted` is null or points into the block. */
    predicate Valid()
      reads this
    {
      && DistinctIds(block)
      && (forall n :: n in block ==> n.id < nextId)
      && (lastEmitted.Some? ==> HasId(block, lastEmitted.value))
    }

    /** Moves the instruction that `emit` has appended to where the policy puts it. */
    method Reposition(emitted: Node, policy: Policy, insertOk: bool, ghost before: seq<Node>) returns (ok: bool)
      requires DistinctIds(before) && !HasId(before, emitted.id) && block == before + [emitted]
      modifies this`block
      ensures ok <==> policy.Tail? || insertOk
      ensures block == if ok then Place(before, emitted, policy) else before
    {
      if policy == Tail { return true; }
      block := Without(block, emitted.id);
      WithoutFresh(before, emitted);
      if !insertOk { return false; }
      AnchorPlaces(before, emitted, policy);
      block := InsertAfter(block, AnchorFor(block, policy), emitted);
      ok := true;
    }

    /** `emit` followed by repositioning; the callers record the result in `lastEmitted`. */
    method EmitAndPlace(insn: Minsn, policy: Policy, answer: Answer) returns (id: Option<nat>)
      requires Valid()
      modifies this`block, this`nextId, this`lastEmitted
      ensures Valid()
      ensures id.Some? <==> answer.emitOk && (policy.Tail? || answer.insertOk)
      ensures id.Some? ==> id.value == old(nextId) && lastEmitted == id
      ensures id.Some? ==> block == Place(old(block), Node(old(nextId), insn), policy)
      ensures id.None? ==> block == old(block) && lastEmitted == old(lastEmitted)
    {
      if !answer.emitOk { return None; }
      var emitted := Node(nextId, insn);
      ghost var before := block;
      NextIdIsFresh(before, nextId);
      PlaceKeepsIds(before, emitted, policy);
      block, nextId := block + [emitted], nextId + 1;
      var moved := Reposition(emitted, policy, answer.insertOk, before);
      if !moved { return None; }
      lastEmitted := Some(emitted.id);
      id := lastEmitted;
    }

    method EmitInstruction(ins: Instruction, policy: Policy, answer: Answer) returns (ok: bool)
      requires Valid()
      modifies this
      ensures Valid()
      ensures ok <==> Emittable(ins, policy, answer, sdk)
      ensures ok ==> lastEmitted == Some(old(nextId))
      ensures ok ==> block == Place(old(block), Node(old(nextId), Lower(ins, sdk).value), policy)
      ensures !ok ==> block == old(block) && lastEmitted == old(lastEmitted)
      ensures emittedNoop == (old(emittedNoop) || (ok && ins.opcode == NoOperation))
    {
      var lowered := Lower(ins, sdk);
      if lowered.Err? { return false; }
      var id := EmitAndPlace(lowered.value, policy, answer);
      if id.None? { return false; }
      if ins.opcode == NoOperation {
        emittedNoop := true;
      }
      ok := true;
    }

    method EmitNoop(policy: Policy, answer: Answer) returns (ok: bool)
      requires Valid()
      modifies this
      ensures Valid()
      ensures ok <==> answer.emitOk && (policy.Tail? || answer.insertOk)
      ensures ok ==> emittedNoop && lastEmitted == Some(old(nextId))
      ensures ok ==> block == Place(old(block), Node(old(nextId), NoopInsn(sdk)), policy)
      ensures !ok ==> block == old(block) && lastEmitted == old(lastEmitted) && emittedNoop == old(emittedNoop)
    {
      var id := EmitAndPlace(NoopInsn(sdk), policy, answer);
      ok := id.Some?;
      if ok {
        emittedNoop := true;
      }
    }

    /** Emits a list in order and stops at the first failure, whose index is returned. */
    method EmitInstructions(list: seq<Instruction>, policy: Policy, answers: seq<Answer>)
      returns (failedAt: Option<nat>)
      requires Valid() && |answers| == |list|
      modifies this
      ensures Valid()
      ensures failedAt.Some? ==>
                failedAt.value < |list| && !Emittable(list[failedAt.value], policy, answers[failedAt.value], sdk)
      ensures var emitted := if failedAt.Some? then list[..failedAt.value] else list;
              && AllEmittable(emitted, policy, answers, sdk)
              && Contents(block) == Arranged(Contents(old(block)), LowerAll(emitted, sdk), policy)
              && LastIs(block, lastEmitted, LowerAll(emitted, sdk), old(lastEmitted))
    {
      ghost var start, before := Contents(block), lastEmitted;
      for i := 0 to |list|
        invariant Valid() && AllEmittable(list[..i], policy, answers, sdk)
        invariant Contents(block) == PlaceAll(start, LowerAll(list[..i], sdk), policy)
        invariant LastIs(block, lastEmitted, LowerAll(list[..i], sdk), before)
      {
        ghost var was := block;
        var ok := EmitInstruction(list[i], policy, answers[i]);
        if !ok {
          PlaceAllIsArranged(start, LowerAll(list[..i], sdk), policy);
          return Some(i);
        }
        EmitStep(start, was, block, list, i, lastEmitted.value, policy, answers, sdk);
      }
      assert list[..|list|] == list;
      PlaceAllIsArranged(start, LowerAll(list, sdk), policy);
      failedAt := None;
    }

    /** Inserts a helper call that the SDK has created. */
    method InsertCall(call: Minsn, policy: Policy, insertOk: bool) returns (ok: bool)
      requires Valid()
      modifies this`block, this`nextId, this`lastEmitted
      ensures Valid() && ok == insertOk
      ensures ok ==> lastEmitted == Some(old(nextId))
      ensures ok ==> block == Place(old(block), Node(old(nextId), call), policy)
      ensures !ok ==> block == old(block) && lastEmitted == old(lastEmitted)
    {
      ghost var before := block;
      var node := Node(nextId, call);
      if !insertOk { return false; }
      NextIdIsFresh(before, nextId);
      AnchorPlaces(block, node, policy);
      PlaceKeepsIds(block, node, policy);
      block := InsertAfter(block, AnchorFor(block, policy), node);
      nextId, lastEmitted := nextId + 1, Some(node.id);
      ok := true;
    }

    method RemoveLastEmitted() returns (ok: bool)
      requires Valid()
      modifies this`block, this`lastEmitted
      ensures Valid() && lastEmitted.None?
      ensures ok <==> old(lastEmitted).Some?
      ensures block == if ok then Without(old(block), old(lastEmitted).value) else old(block)
    {
      if lastEmitted.None? { return false; }
      WithoutKeepsIds(block, lastEmitted.value);
      block := Without(block, lastEmitted.value);
      lastEmitted := None;
      ok := true;
    }

    method RemoveInstructionAtIndex(index: int) returns (ok: bool)
      requires Valid()
      modifies this`block, this`lastEmitted
      ensures Valid()
      ensures ok <==> 0 <= index < |old(block)|
      ensures ok ==> block == old(block)[..index] + old(block)[index + 1..]
      ensures ok ==> lastEmitted == if old(lastEmitted) == Some(old(block)[index].id) then None else old(lastEmitted)
      ensures !ok ==> block == old(block) && lastEmitted == old(lastEmitted)
    {
      if index < 0 { return false; }
      var k := 0;
      while k < |block| && k != index
        invariant 0 <= k <= |block| && k <= index
      {
        k := k + 1;
      }
      if k == |block| { return false; }
      var id := block[k].id;
      assert Position(block, id) == k;
      WithoutKeepsIds(block, id);
      if lastEmitted == Some(id) {
        lastEmitted := None;
      }
      block := Without(block, id);
      ok := true;
    }
  }

  /** One more instruction of a list in place. */
  lemma EmitStep(start: seq<Minsn>, before: seq<Node>, after: seq<Node>, list: seq<Instruction>, i: nat, id: nat,
                 policy: Policy, answers: seq<Answer>, sdk: Sdk)
    requires |answers| == |list| && i < |list|
    requires AllEmittable(list[..i], policy, answers, sdk) && Emittable(list[i], policy, answers[i], sdk)
    requires Contents(before) == PlaceAll(start, LowerAll(list[..i], sdk), policy)
    requires after == Place(before, Node(id, Lower(list[i], sdk).value), policy)
    ensures AllEmittable(list[..i + 1], policy, answers, sdk)
    ensures Contents(after) == PlaceAll(start, LowerAll(list[..i + 1], sdk), policy)
    ensures LastIs(after, Some(id), LowerAll(list[..i + 1], sdk), None)
  {
    var insn := Lower(list[i], sdk).value;
    ContentsOfPlace(before, Node(id, insn), policy);
    assert list[..i + 1] == list[..i] + [list[i]];
    assert LowerAll(list[..i + 1], sdk) == LowerAll(list[..i], sdk) + [insn];
    PlaceAllAppend(start, LowerAll(list[..i], sdk), insn, policy);
  }

  lemma {:induction false} PlaceAllAppend<T>(block: seq<T>, xs: seq<T>, x: T, policy: Policy)
    ensures PlaceAll(block, xs + [x], policy) == Place(PlaceAll(block, xs, policy), x, policy)
    decreases |xs|
  {
    if xs == [] {
      assert xs + [x] == [x] && [x][1..] == [];
    } else {
      assert (xs + [x])[0] == xs[0] && (xs + [x])[1..] == xs[1..] + [x];
      PlaceAllAppend(Place(block, xs[0], policy), xs[1..], x, policy);
    }
  }
}
