/** Typed microcode instructions, the SDK operands built from them, and the parser that turns
    SDK operands back. */
module MicrocodeBuilder {
  import opened Common

  const MAX_NESTED_INSTRUCTION_DEPTH := 32

  datatype Opcode =
    | NoOperation | Move | Add | Subtract | Multiply | ZeroExtend | LoadMemory | StoreMemory
    | BitwiseOr | BitwiseAnd | BitwiseXor | ShiftLeft | ShiftRightLogical | ShiftRightArithmetic
    | FloatAdd | FloatSub | FloatMul | FloatDiv | IntegerToFloat | FloatToFloat

  /** SDK opcodes; `OtherCode` stands for those the wrapper does not know. */
  datatype Mcode =
    | M_nop | M_mov | M_add | M_sub | M_mul | M_xdu | M_ldx | M_stx
    | M_or | M_and | M_xor | M_shl | M_shr | M_sar
    | M_fadd | M_fsub | M_fmul | M_fdiv | M_i2f | M_f2f
    | OtherCode(code: int)

  /** The payload that an operand's kind selects. */
  datatype Payload =
    | Empty
    | Register(id: int)
    | LocalVariable(index: int, offset: I64)
    | RegisterPair(low: int, high: int)
    | GlobalAddress(address: U64)
    | StackVariable(stackOffset: I64)
    | HelperReference(name: string)
    | BlockReference(block: int)
    | NestedInstruction(nested: Option<Instruction>)
    | UnsignedImmediate(unsigned: U64)
    | SignedImmediate(signed: I64)

  datatype Operand = Operand(payload: Payload, byteWidth: int, markUdt: bool)

  datatype Instruction =
    Instruction(opcode: Opcode, left: Operand, right: Operand, destination: Operand, floating: bool)

  /** SDK operands: the pointer-valued bodies may be null. */
  datatype MopBody =
    | Z
    | R(reg: int)
    | N(value: Option<U64>)
    | D(insn: Option<Minsn>)
    | V(ea: U64)
    | B(blk: int)
    | H(helper: Option<string>)
    | S(off: Option<I64>)
    | L(lvar: Option<LvarRef>)
    | P(pair: Option<MopPair>)
    | OtherBody(tag: int)

  datatype LvarRef = LvarRef(idx: int, off: I64)
  datatype MopPair = MopPair(lop: Mop, hop: Mop)
  datatype Mop = Mop(body: MopBody, size: int, udt: bool)
  datatype Minsn = Minsn(code: Mcode, l: Mop, r: Mop, d: Mop, fp: bool)

  datatype Error = DepthExceeded | Invalid | MissingContext | UnsupportedBySdk

  /** What surrounds a build: whether a microcode array is at hand, and the size that the SDK
      leaves on an operand whose width the caller does not give. */
  datatype Sdk = Sdk(hasMba: bool, defaultSize: MopBody -> int)

  // ----- opcodes -----

  function ToSdkOpcode(op: Opcode): Mcode {
    match op
    case NoOperation => M_nop
    case Move => M_mov
    case Add => M_add
    case Subtract => M_sub
    case Multiply => M_mul
    case ZeroExtend => M_xdu
    case LoadMemory => M_ldx
    case StoreMemory => M_stx
    case BitwiseOr => M_or
    case BitwiseAnd => M_and
    case BitwiseXor => M_xor
    case ShiftLeft => M_shl
    case ShiftRightLogical => M_shr
    case ShiftRightArithmetic => M_sar
    case FloatAdd => M_fadd
    case FloatSub => M_fsub
    case FloatMul => M_fmul
    case FloatDiv => M_fdiv
    case IntegerToFloat => M_i2f
    case FloatToFloat => M_f2f
  }

  function ParseSdkOpcode(m: Mcode): Result<Opcode, Error> {
    match m
    case M_nop => Ok(NoOperation)
    case M_mov => Ok(Move)
    case M_add => Ok(Add)
    case M_sub => Ok(Subtract)
    case M_mul => Ok(Multiply)
    case M_xdu => Ok(ZeroExtend)
    case M_ldx => Ok(LoadMemory)
    case M_stx => Ok(StoreMemory)
    case M_or => Ok(BitwiseOr)
    case M_and => Ok(BitwiseAnd)
    case M_xor => Ok(BitwiseXor)
    case M_shl => Ok(ShiftLeft)
    case M_shr => Ok(ShiftRightLogical)
    case M_sar => Ok(ShiftRightArithmetic)
    case M_fadd => Ok(FloatAdd)
    case M_fsub => Ok(FloatSub)
    case M_fmul => Ok(FloatMul)
    case M_fdiv => Ok(FloatDiv)
    case M_i2f => Ok(IntegerToFloat)
    case M_f2f => Ok(FloatToFloat)
    case OtherCode(_) => Err(UnsupportedBySdk)
  }

  /** The two opcode tables are inverse to each other. */
  lemma OpcodesOneToOne(op: Opcode, m: Mcode)
    ensures ParseSdkOpcode(ToSdkOpcode(op)) == Ok(op)
    ensures ParseSdkOpcode(m) == Ok(op) <==> m == ToSdkOpcode(op)
  {
  }

  /** Which SDK opcode stands for which operation. */
  lemma OpcodesAre()
    ensures ToSdkOpcode(NoOperation) == M_nop && ToSdkOpcode(Move) == M_mov
    ensures ToSdkOpcode(Add) == M_add && ToSdkOpcode(Subtract) == M_sub && ToSdkOpcode(Multiply) == M_mul
    ensures ToSdkOpcode(ZeroExtend) == M_xdu
    ensures ToSdkOpcode(LoadMemory) == M_ldx && ToSdkOpcode(StoreMemory) == M_stx
    ensures ToSdkOpcode(BitwiseOr) == M_or && ToSdkOpcode(BitwiseAnd) == M_and && ToSdkOpcode(BitwiseXor) == M_xor
  {
  }

  lemma ShiftAndFloatOpcodesAre()
    ensures ToSdkOpcode(ShiftLeft) == M_shl && ToSdkOpcode(ShiftRightLogical) == M_shr
    ensures ToSdkOpcode(ShiftRightArithmetic) == M_sar
    ensures ToSdkOpcode(FloatAdd) == M_fadd && ToSdkOpcode(FloatSub) == M_fsub
    ensures ToSdkOpcode(FloatMul) == M_fmul && ToSdkOpcode(FloatDiv) == M_fdiv
    ensures ToSdkOpcode(IntegerToFloat) == M_i2f && ToSdkOpcode(FloatToFloat) == M_f2f
  {
  }

  // ----- building -----

  predicate IsEmptyOperand(o: Operand) {
    o.payload.Empty?
  }

  predicate LacksMemoryOperand(ins: Instruction) {
    && (ins.opcode == LoadMemory || ins.opcode == StoreMemory)
    && (IsEmptyOperand(ins.left) || IsEmptyOperand(ins.right) || IsEmptyOperand(ins.destination))
  }

  function SizeOr(o: Operand, body: MopBody, sdk: Sdk): Mop {
    Mop(body, if o.byteWidth > 0 then o.byteWidth else sdk.defaultSize(body), o.markUdt)
  }

  /** A C string ends at its first NUL. */
  function CString(s: string): string {
    if s == "" || s[0] == '\0' then "" else [s[0]] + CString(s[1..])
  }

  function ToUnsigned(s: I64): U64 {
    if s < 0 then s + 0x1_0000_0000_0000_0000 else s
  }

  function BuildOperand(o: Operand, sdk: Sdk, depth: nat): Result<Mop, Error>
    decreases o
  {
    if depth > MAX_NESTED_INSTRUCTION_DEPTH then Err(DepthExceeded)
    else
      match o.payload
      case Empty => Ok(Mop(Z, sdk.defaultSize(Z), o.markUdt))
      case Register(id) =>
        if id < 0 || o.byteWidth <= 0 then Err(Invalid) else Ok(Mop(R(id), o.byteWidth, o.markUdt))
      case LocalVariable(index, offset) =>
        if !sdk.hasMba then Err(MissingContext)
        else if index < 0 then Err(Invalid)
        else Ok(SizeOr(o, L(Some(LvarRef(index, offset))), sdk))
      case RegisterPair(low, high) =>
        if low < 0 || high < 0 || o.byteWidth <= 0 || o.byteWidth % 2 != 0 then Err(Invalid)
        else
          var half := o.byteWidth / 2;
          Ok(Mop(P(Some(MopPair(Mop(R(low), half, false), Mop(R(high), half, false)))), 2 * half, o.markUdt))
      case GlobalAddress(address) =>
        if address == BAD_ADDRESS then Err(Invalid) else Ok(SizeOr(o, V(address), sdk))
      case StackVariable(offset) =>
        if !sdk.hasMba then Err(MissingContext) else Ok(SizeOr(o, S(Some(offset)), sdk))
      case HelperReference(name) =>
        if name == "" then Err(Invalid) else Ok(SizeOr(o, H(Some(CString(name))), sdk))
      case BlockReference(block) =>
        if block < 0 then Err(Invalid) else Ok(SizeOr(o, B(block), sdk))
      case NestedInstruction(nested) =>
        if nested.None? then Err(Invalid)
        else
          (match BuildInstruction(nested.value, sdk, depth + 1)
           case Err(e) => Err(e)
           case Ok(insn) => Ok(SizeOr(o, D(Some(insn)), sdk)))
      case UnsignedImmediate(u) =>
        if o.byteWidth <= 0 then Err(Invalid) else Ok(Mop(N(Some(u)), o.byteWidth, o.markUdt))
      case SignedImmediate(s) =>
        if o.byteWidth <= 0 then Err(Invalid) else Ok(Mop(N(Some(ToUnsigned(s))), o.byteWidth, o.markUdt))
  }

  function BuildInstruction(ins: Instruction, sdk: Sdk, depth: nat): Result<Minsn, Error>
    decreases ins
  {
    if depth > MAX_NESTED_INSTRUCTION_DEPTH then Err(DepthExceeded)
    else if LacksMemoryOperand(ins) then Err(Invalid)
    else
      match BuildOperand(ins.left, sdk, depth + 1)
      case Err(e) => Err(e)
      case Ok(l) =>
        match BuildOperand(ins.right, sdk, depth + 1)
        case Err(e) => Err(e)
        case Ok(r) =>
          match BuildOperand(ins.destination, sdk, depth + 1)
          case Err(e) => Err(e)
          case Ok(d) => Ok(Minsn(ToSdkOpcode(ins.opcode), l, r, d, ins.floating))
  }

  // ----- what is built -----

  /** The unsigned number with the same 64 bits. */
  lemma ToUnsignedIs(s: I64)
    ensures (ToUnsigned(s) - s) % 0x1_0000_0000_0000_0000 == 0
  {
  }

  /** A C string is the text up to its first NUL. */
  lemma {:induction false} CStringIs(s: string)
    ensures |CString(s)| <= |s| && CString(s) == s[..|CString(s)|]
    ensures forall i :: 0 <= i < |CString(s)| ==> s[i] != '\0'
    ensures |CString(s)| < |s| ==> s[|CString(s)|] == '\0'
  {
    if s != "" && s[0] != '\0' {
      CStringIs(s[1..]);
    }
  }

  /** Register `reg` in `size` bytes. */
  predicate IsRegister(m: Mop, reg: int, size: int) {
    m.body.R? && m.body.reg == reg && m.size == size && !m.udt
  }

  /** The SDK body for each kind of operand. */
  ghost predicate IsBodyFor(body: MopBody, o: Operand, sdk: Sdk, depth: nat) {
    match o.payload
    case Empty => body == Z
    case Register(id) => body == R(id)
    case LocalVariable(index, offset) => body == L(Some(LvarRef(index, offset)))
    case RegisterPair(low, high) =>
      && body.P? && body.pair.Some?
      && exists half :: 2 * half == o.byteWidth && IsRegister(body.pair.value.lop, low, half)
                        && IsRegister(body.pair.value.hop, high, half)
    case GlobalAddress(address) => body == V(address)
    case StackVariable(offset) => body == S(Some(offset))
    case HelperReference(name) =>
      && body.H? && body.helper.Some? && body.helper.value <= name && '\0' !in body.helper.value
      && (|body.helper.value| < |name| ==> name[|body.helper.value|] == '\0')
    case BlockReference(block) => body == B(block)
    case NestedInstruction(nested) =>
      && nested.Some? && body.D? && body.insn.Some?
      && BuildInstruction(nested.value, sdk, depth + 1) == Ok(body.insn.value)
    case UnsignedImmediate(u) => body == N(Some(u))
    case SignedImmediate(s) =>
      && body.N? && body.value.Some? && (body.value.value - s) % 0x1_0000_0000_0000_0000 == 0
  }

  /** What an operand is built into: the body of its kind, in the width asked for where one is given
      and the kind has one, and the user-defined-type mark. */
  lemma BuiltOperandIs(o: Operand, sdk: Sdk, depth: nat)
    requires BuildOperand(o, sdk, depth).Ok?
    ensures var m := BuildOperand(o, sdk, depth).value;
            && IsBodyFor(m.body, o, sdk, depth)
            && (o.byteWidth > 0 && !o.payload.Empty? ==> m.size == o.byteWidth)
            && (o.byteWidth <= 0 || o.payload.Empty? ==> m.size == sdk.defaultSize(m.body))
            && m.udt == o.markUdt
  {
    match o.payload
    case RegisterPair(low, high) =>
      assert 2 * (o.byteWidth / 2) == o.byteWidth;
      assert IsRegister(BuildOperand(o, sdk, depth).value.body.pair.value.lop, low, o.byteWidth / 2);
    case HelperReference(name) => CStringIs(name);
    case SignedImmediate(s) => ToUnsignedIs(s);
    case _ =>
  }

  /** What an instruction is built into: its opcode, its operands in their places one level deeper,
      and the floating-point mark. */
  lemma BuiltInstructionIs(ins: Instruction, sdk: Sdk, depth: nat)
    requires BuildInstruction(ins, sdk, depth).Ok?
    ensures var m := BuildInstruction(ins, sdk, depth).value;
            && m.code == ToSdkOpcode(ins.opcode) && m.fp == ins.floating
            && BuildOperand(ins.left, sdk, depth + 1) == Ok(m.l)
            && BuildOperand(ins.right, sdk, depth + 1) == Ok(m.r)
            && BuildOperand(ins.destination, sdk, depth + 1) == Ok(m.d)
  {
  }

  // ----- parsing -----

  function ParseOperand(m: Mop): Result<Operand, Error>
    decreases m
  {
    match m.body
    case Z => Ok(Operand(Empty, m.size, m.udt))
    case R(reg) => Ok(Operand(Register(reg), m.size, m.udt))
    case N(value) => Ok(Operand(UnsignedImmediate(if value.Some? then value.value else 0), m.size, m.udt))
    case D(insn) =>
      if insn.None? then Ok(Operand(NestedInstruction(None), m.size, m.udt))
      else
        (match ParseInstruction(insn.value)
         case Err(e) => Err(e)
         case Ok(ins) => Ok(Operand(NestedInstruction(Some(ins)), m.size, m.udt)))
    case V(ea) => Ok(Operand(GlobalAddress(ea), m.size, m.udt))
    case B(blk) => Ok(Operand(BlockReference(blk), m.size, m.udt))
    case H(helper) => Ok(Operand(HelperReference(if helper.Some? then helper.value else ""), m.size, m.udt))
    case S(off) => Ok(Operand(StackVariable(if off.Some? then off.value else 0), m.size, m.udt))
    case L(lvar) =>
      var at := if lvar.Some? then lvar.value else LvarRef(0, 0);
      Ok(Operand(LocalVariable(at.idx, at.off), m.size, m.udt))
    case P(pair) =>
      if pair.Some? && pair.value.lop.body.R? && pair.value.hop.body.R? then
        Ok(Operand(RegisterPair(pair.value.lop.body.reg, pair.value.hop.body.reg), m.size, m.udt))
      else Err(UnsupportedBySdk)
    case OtherBody(_) => Err(UnsupportedBySdk)
  }

  function ParseInstruction(m: Minsn): Result<Instruction, Error>
    decreases m
  {
    match ParseSdkOpcode(m.code)
    case Err(e) => Err(e)
    case Ok(op) =>
      match ParseOperand(m.l)
      case Err(e) => Err(e)
      case Ok(l) =>
        match ParseOperand(m.r)
        case Err(e) => Err(e)
        case Ok(r) =>
          match ParseOperand(m.d)
          case Err(e) => Err(e)
          case Ok(d) => Ok(Instruction(op, l, r, d, m.fp))
  }

  // ----- when a parse succeeds -----

  /** The SDK operands that have a typed form, at every level of nesting. */
  predicate HasTypedForm(m: Mop)
    decreases m
  {
    match m.body
    case P(pair) => pair.Some? && pair.value.lop.body.R? && pair.value.hop.body.R?
    case D(Some(insn)) => InstructionHasTypedForm(insn)
    case OtherBody(_) => false
    case _ => true
  }

  predicate InstructionHasTypedForm(m: Minsn)
    decreases m
  {
    !m.code.OtherCode? && HasTypedForm(m.l) && HasTypedForm(m.r) && HasTypedForm(m.d)
  }

  lemma {:induction false} OperandParsesIff(m: Mop)
    ensures ParseOperand(m).Ok? <==> HasTypedForm(m)
    decreases m
  {
    if m.body.D? && m.body.insn.Some? {
      InstructionParsesIff(m.body.insn.value);
    }
  }

  lemma {:induction false} InstructionParsesIff(m: Minsn)
    ensures ParseInstruction(m).Ok? <==> InstructionHasTypedForm(m)
    decreases m
  {
    OperandParsesIff(m.l);
    OperandParsesIff(m.r);
    OperandParsesIff(m.d);
  }

  /** A null body parses as zero, as an empty name, or as no instruction, with its size and mark. */
  lemma NullBodiesParse(size: int, udt: bool)
    ensures ParseOperand(Mop(N(None), size, udt)) == Ok(Operand(UnsignedImmediate(0), size, udt))
    ensures ParseOperand(Mop(D(None), size, udt)) == Ok(Operand(NestedInstruction(None), size, udt))
    ensures ParseOperand(Mop(H(None), size, udt)) == Ok(Operand(HelperReference(""), size, udt))
    ensures ParseOperand(Mop(S(None), size, udt)) == Ok(Operand(StackVariable(0), size, udt))
    ensures ParseOperand(Mop(L(None), size, udt)) == Ok(Operand(LocalVariable(0, 0), size, udt))
  {
  }

  // ----- when a build succeeds -----

  predicate WellFormedOperand(o: Operand, sdk: Sdk)
    decreases o
  {
    match o.payload
    case Empty => true
    case Register(id) => id >= 0 && o.byteWidth > 0
    case LocalVariable(index, _) => sdk.hasMba && index >= 0
    case RegisterPair(low, high) => low >= 0 && high >= 0 && o.byteWidth > 0 && o.byteWidth % 2 == 0
    case GlobalAddress(address) => address != BAD_ADDRESS
    case StackVariable(_) => sdk.hasMba
    case HelperReference(name) => name != ""
    case BlockReference(block) => block >= 0
    case NestedInstruction(nested) => nested.Some? && WellFormedInstruction(nested.value, sdk)
    case UnsignedImmediate(_) => o.byteWidth > 0
    case SignedImmediate(_) => o.byteWidth > 0
  }

  predicate WellFormedInstruction(ins: Instruction, sdk: Sdk)
    decreases ins
  {
    && (ins.opcode == LoadMemory || ins.opcode == StoreMemory ==>
          !ins.left.payload.Empty? && !ins.right.payload.Empty? && !ins.destination.payload.Empty?)
    && WellFormedOperand(ins.left, sdk)
    && WellFormedOperand(ins.right, sdk)
    && WellFormedOperand(ins.destination, sdk)
  }

  /** Levels of nested instruction below an operand, and in an instruction, itself included. */
  function OperandLevels(o: Operand): nat
    decreases o
  {
    match o.payload
    case NestedInstruction(Some(ins)) => InstructionLevels(ins)
    case _ => 0
  }

  function InstructionLevels(ins: Instruction): nat
    decreases ins
  {
    1 + Max(OperandLevels(ins.left), Max(OperandLevels(ins.right), OperandLevels(ins.destination)))
  }

  /** Depth grows by two for each level of nesting: once for the instruction, once for its
      operands. */
  lemma {:induction false} OperandBuildsIff(o: Operand, sdk: Sdk, depth: nat)
    ensures BuildOperand(o, sdk, depth).Ok?
       <==> WellFormedOperand(o, sdk) && depth + 2 * OperandLevels(o) <= MAX_NESTED_INSTRUCTION_DEPTH
    decreases o
  {
    if depth <= MAX_NESTED_INSTRUCTION_DEPTH && o.payload.NestedInstruction? && o.payload.nested.Some? {
      InstructionBuildsIff(o.payload.nested.value, sdk, depth + 1);
    }
  }

  lemma {:induction false} InstructionBuildsIff(ins: Instruction, sdk: Sdk, depth: nat)
    ensures BuildInstruction(ins, sdk, depth).Ok?
       <==> WellFormedInstruction(ins, sdk) && depth + 2 * InstructionLevels(ins) - 1 <= MAX_NESTED_INSTRUCTION_DEPTH
    decreases ins
  {
    OperandBuildsIff(ins.left, sdk, depth + 1);
    OperandBuildsIff(ins.right, sdk, depth + 1);
    OperandBuildsIff(ins.destination, sdk, depth + 1);
  }

  /** Both entry points allow exactly sixteen levels: an operand of an emitted instruction is
      built at depth 0, and so is the nested instruction of a call argument. */
  lemma SixteenLevels(o: Operand, ins: Instruction, sdk: Sdk)
    ensures BuildOperand(o, sdk, 0).Ok? <==> WellFormedOperand(o, sdk) && OperandLevels(o) <= 16
    ensures BuildInstruction(ins, sdk, 0).Ok? <==> WellFormedInstruction(ins, sdk) && InstructionLevels(ins) <= 16
  {
    OperandBuildsIff(o, sdk, 0);
    InstructionBuildsIff(ins, sdk, 0);
  }

  // ----- round trips -----

  /** `q` says what `o` says: signed immediates in their 64-bit unsigned form, helper names up to
      their first NUL, and widths where the caller gives one.  An empty operand keeps only its
      kind and its mark. */
  predicate Represents(q: Operand, o: Operand)
    decreases o
  {
    && q.markUdt == o.markUdt
    && (o.byteWidth > 0 && !o.payload.Empty? ==> q.byteWidth == o.byteWidth)
    && match o.payload
       case SignedImmediate(s) => q.payload == UnsignedImmediate(ToUnsigned(s))
       case HelperReference(name) => q.payload == HelperReference(CString(name))
       case NestedInstruction(Some(ins)) =>
         q.payload.NestedInstruction? && q.payload.nested.Some? && RepresentsInstruction(q.payload.nested.value, ins)
       case _ => q.payload == o.payload
  }

  predicate RepresentsInstruction(q: Instruction, ins: Instruction)
    decreases ins
  {
    && q.opcode == ins.opcode && q.floating == ins.floating
    && Represents(q.left, ins.left)
    && Represents(q.right, ins.right)
    && Represents(q.destination, ins.destination)
  }

  /** Parsing what was built gives the original back. */
  lemma {:induction false} BuiltOperandParses(o: Operand, sdk: Sdk, depth: nat)
    requires BuildOperand(o, sdk, depth).Ok?
    ensures ParseOperand(BuildOperand(o, sdk, depth).value).Ok?
    ensures Represents(ParseOperand(BuildOperand(o, sdk, depth).value).value, o)
    decreases o
  {
    if o.payload.NestedInstruction? {
      BuiltInstructionParses(o.payload.nested.value, sdk, depth + 1);
    }
  }

  lemma {:induction false} BuiltInstructionParses(ins: Instruction, sdk: Sdk, depth: nat)
    requires BuildInstruction(ins, sdk, depth).Ok?
    ensures ParseInstruction(BuildInstruction(ins, sdk, depth).value).Ok?
    ensures RepresentsInstruction(ParseInstruction(BuildInstruction(ins, sdk, depth).value).value, ins)
    decreases ins
  {
    BuiltOperandParses(ins.left, sdk, depth + 1);
    BuiltOperandParses(ins.right, sdk, depth + 1);
    BuiltOperandParses(ins.destination, sdk, depth + 1);
    OpcodesOneToOne(ins.opcode, ToSdkOpcode(ins.opcode));
  }

  /** No helper name starts with NUL, which would make it an empty C string. */
  predicate NamesVisible(o: Operand)
    decreases o
  {
    match o.payload
    case HelperReference(name) => name != "" && name[0] != '\0'
    case NestedInstruction(Some(ins)) => NamesVisibleIn(ins)
    case _ => true
  }

  predicate NamesVisibleIn(ins: Instruction)
    decreases ins
  {
    NamesVisible(ins.left) && NamesVisible(ins.right) && NamesVisible(ins.destination)
  }

  lemma {:induction false} CStringTwice(s: string)
    ensures CString(CString(s)) == CString(s)
  {
    if s != "" && s[0] != '\0' {
      CStringTwice(s[1..]);
      assert CString(s)[1..] == CString(s[1..]);
    }
  }

  /** Building what was parsed from a built operand gives the same SDK operand, and can fail
      only on a helper name that starts with NUL. */
  lemma {:induction false} ParsedOperandRebuilds(o: Operand, sdk: Sdk, depth: nat)
    requires BuildOperand(o, sdk, depth).Ok?
    ensures var m := BuildOperand(o, sdk, depth).value;
            ParseOperand(m).Ok? && BuildOperand(ParseOperand(m).value, sdk, depth).Ok? <==> NamesVisible(o)
    ensures var m := BuildOperand(o, sdk, depth).value;
            NamesVisible(o) ==> BuildOperand(ParseOperand(m).value, sdk, depth) == Ok(m)
    decreases o
  {
    BuiltOperandParses(o, sdk, depth);
    match o.payload
    case NestedInstruction(nested) => ParsedInstructionRebuilds(nested.value, sdk, depth + 1);
    case HelperReference(name) => CStringTwice(name);
    case _ =>
  }

  lemma {:induction false} ParsedInstructionRebuilds(ins: Instruction, sdk: Sdk, depth: nat)
    requires BuildInstruction(ins, sdk, depth).Ok?
    ensures var m := BuildInstruction(ins, sdk, depth).value;
            var q := ParseInstruction(m);
            q.Ok? && BuildInstruction(q.value, sdk, depth).Ok? <==> NamesVisibleIn(ins)
    ensures var m := BuildInstruction(ins, sdk, depth).value;
            NamesVisibleIn(ins) ==> BuildInstruction(ParseInstruction(m).value, sdk, depth) == Ok(m)
    decreases ins
  {
    BuiltInstructionParses(ins, sdk, depth);
    OpcodesOneToOne(ins.opcode, ToSdkOpcode(ins.opcode));
    BuiltOperandParses(ins.left, sdk, depth + 1);
    BuiltOperandParses(ins.right, sdk, depth + 1);
    BuiltOperandParses(ins.destination, sdk, depth + 1);
    ParsedOperandRebuilds(ins.left, sdk, depth + 1);
    ParsedOperandRebuilds(ins.right, sdk, depth + 1);
    ParsedOperandRebuilds(ins.destination, sdk, depth + 1);
  }
}
