/** Load-command scanning of the firmware loader: three loops over one list of commands. */
module MachOScan {
  import opened Common
  import TypedCodec

  const MAGIC64: U32 := 0xFEED_FACF
  const MAGIC32: U32 := 0xFEED_FACE
  const HEADER_SIZE64: nat := 32
  const HEADER_SIZE32: nat := 28
  const SEG_CMD64_MIN_SIZE: nat := 72
  const LC_SEGMENT_64: U32 := 0x19
  const LC_SEP_SEGMENT: U32 := 0x8000_0001

  /** Little-endian reads; a read past the end gives zero. */
  function ReadU32(d: seq<Byte>, off: nat): U32 {
    if off + 4 > |d| then 0
    else
      var b0: int, b1: int, b2: int, b3: int := d[off], d[off + 1], d[off + 2], d[off + 3];
      b0 + 0x100 * b1 + 0x1_0000 * b2 + 0x100_0000 * b3
  }

  function ReadU64(d: seq<Byte>, off: nat): U64 {
    if off + 8 > |d| then 0 else ReadU32(d, off) + 0x1_0000_0000 * ReadU32(d, off + 4)
  }

  /** The bytes from `off` on are those of `v`, low byte first. */
  predicate HoldsNumber(d: seq<Byte>, off: nat, v: nat, width: nat) {
    off + width <= |d| && d[off..off + width] == TypedCodec.LittleEndian(v, width)
  }

  lemma LowByteFirst(b: Byte, rest: nat, n: nat)
    ensures TypedCodec.LittleEndian(b + 256 * rest, n + 1) == [b] + TypedCodec.LittleEndian(rest, n)
  {
    var v: nat := b + 256 * rest;
    assert v % 256 == b && v / 256 == rest;
  }

  lemma FourBytes(b0: Byte, b1: Byte, b2: Byte, b3: Byte)
    ensures TypedCodec.LittleEndian(b0 as nat + 0x100 * b1 + 0x1_0000 * b2 + 0x100_0000 * b3, 4) == [b0, b1, b2, b3]
  {
    var v3: nat := b3;
    var v2: nat := b2 + 0x100 * v3;
    var v1: nat := b1 + 0x100 * v2;
    LowByteFirst(b3, 0, 0);
    LowByteFirst(b2, v3, 1);
    LowByteFirst(b1, v2, 2);
    LowByteFirst(b0, v1, 3);
  }

  lemma {:induction false} LittleEndianParts(low: nat, high: nat, m: nat, n: nat)
    requires low < TypedCodec.Power256(m)
    ensures TypedCodec.LittleEndian(low + TypedCodec.Power256(m) * high, m + n)
         == TypedCodec.LittleEndian(low, m) + TypedCodec.LittleEndian(high, n)
    decreases m
  {
    if m > 0 {
      var p := TypedCodec.Power256(m - 1);
      var b: Byte := low % 256;
      Reassociate(256, p, high);
      LittleEndianParts(low / 256, high, m - 1, n);
      LowByteFirst(b, low / 256 + p * high, m - 1 + n);
    }
  }

  /** The reads give the number whose bytes, low byte first, are in the image, or zero past its end. */
  lemma ReadsAreLittleEndian(d: seq<Byte>, off: nat)
    ensures if off + 4 <= |d| then HoldsNumber(d, off, ReadU32(d, off), 4) else ReadU32(d, off) == 0
    ensures if off + 8 <= |d| then HoldsNumber(d, off, ReadU64(d, off), 8) else ReadU64(d, off) == 0
  {
    Read32IsLittleEndian(d, off);
    Read32IsLittleEndian(d, off + 4);
    if off + 8 <= |d| {
      assert TypedCodec.Power256(4) == 0x1_0000_0000;
      LittleEndianParts(ReadU32(d, off), ReadU32(d, off + 4), 4, 4);
      assert d[off..off + 8] == d[off..off + 4] + d[off + 4..off + 8];
    }
  }

  lemma Read32IsLittleEndian(d: seq<Byte>, off: nat)
    ensures if off + 4 <= |d| then HoldsNumber(d, off, ReadU32(d, off), 4) else ReadU32(d, off) == 0
  {
    if off + 4 <= |d| {
      FourBytes(d[off], d[off + 1], d[off + 2], d[off + 3]);
      assert d[off..off + 4] == [d[off], d[off + 1], d[off + 2], d[off + 3]];
    }
  }

  datatype Command = Command(offset: nat, cmd: U32, size: U32)

  datatype Segment = Segment(vmaddr: U64, vmsize: U64, fileoff: U64, filesize: U64)

  /** The commands that a scan of at most `n` commands from `p` visits. */
  function Commands(d: seq<Byte>, p: nat, n: nat): seq<Command>
    decreases n
  {
    if n == 0 || p + 8 > |d| then []
    else
      var size := ReadU32(d, p + 4);
      if size < 8 || p + size > |d| then []
      else [Command(p, ReadU32(d, p), size)] + Commands(d, p + size, n - 1)
  }

  predicate IsCommand(d: seq<Byte>, p: nat) {
    p + 8 <= |d| && ReadU32(d, p + 4) >= 8 && p + ReadU32(d, p + 4) <= |d|
  }

  function EndOf(cmds: seq<Command>, p: nat): nat {
    if cmds == [] then p else cmds[|cmds| - 1].offset + cmds[|cmds| - 1].size
  }

  /** `c` holds what the image says at its offset. */
  predicate IsAt(d: seq<Byte>, c: Command) {
    IsCommand(d, c.offset) && c.cmd == ReadU32(d, c.offset) && c.size == ReadU32(d, c.offset + 4)
  }

  /** The commands lie one behind the other from `p` on. */
  predicate Adjacent(cmds: seq<Command>, p: nat) {
    && (cmds != [] ==> cmds[0].offset == p)
    && (forall i :: 0 < i < |cmds| ==> cmds[i].offset == cmds[i - 1].offset + cmds[i - 1].size)
  }

  lemma AdjacentGrows(c: Command, rest: seq<Command>)
    requires Adjacent(rest, c.offset + c.size)
    ensures Adjacent([c] + rest, c.offset) && EndOf([c] + rest, c.offset) == EndOf(rest, c.offset + c.size)
  {
  }

  /** The visited commands lie in the image one behind the other from `p` on, and the scan stops
      only at the count or in front of something that is no command. */
  lemma {:induction false} CommandsAreContiguous(d: seq<Byte>, p: nat, n: nat)
    ensures var cmds := Commands(d, p, n);
            && |cmds| <= n
            && (forall c :: c in cmds ==> IsAt(d, c))
            && Adjacent(cmds, p)
            && (|cmds| == n || !IsCommand(d, EndOf(cmds, p)))
    decreases n
  {
    if n > 0 && IsCommand(d, p) {
      var c := Command(p, ReadU32(d, p), ReadU32(d, p + 4));
      CommandsAreContiguous(d, p + c.size, n - 1);
      AdjacentGrows(c, Commands(d, p + c.size, n - 1));
    }
  }

  // ----- the file extent -----

  /** `fileoff + filesize` in 64-bit arithmetic. */
  function SegmentEnd(s: Segment): (end: U64)
    ensures (s.fileoff + s.filesize - end) % 0x1_0000_0000_0000_0000 == 0
  {
    (s.fileoff + s.filesize) % 0x1_0000_0000_0000_0000
  }

  function SegmentAt(d: seq<Byte>, p: nat): Segment {
    Segment(ReadU64(d, p + 24), ReadU64(d, p + 32), ReadU64(d, p + 40), ReadU64(d, p + 48))
  }

  /** Address and size in memory and in the file: 64-bit numbers at the offsets 24, 32, 40 and 48 of the
      command. */
  lemma SegmentFields(d: seq<Byte>, p: nat)
    requires p + 56 <= |d|
    ensures HoldsNumber(d, p + 24, SegmentAt(d, p).vmaddr, 8) && HoldsNumber(d, p + 32, SegmentAt(d, p).vmsize, 8)
    ensures HoldsNumber(d, p + 40, SegmentAt(d, p).fileoff, 8) && HoldsNumber(d, p + 48, SegmentAt(d, p).filesize, 8)
  {
    ReadsAreLittleEndian(d, p + 24);
    ReadsAreLittleEndian(d, p + 32);
    ReadsAreLittleEndian(d, p + 40);
    ReadsAreLittleEndian(d, p + 48);
  }

  /** The segments of the commands whose size is at least `low` and below `high`. */
  function SegmentsSized(d: seq<Byte>, cmds: seq<Command>, low: nat, high: nat): seq<Segment> {
    if cmds == [] then []
    else
      var c := cmds[0];
      var rest := SegmentsSized(d, cmds[1..], low, high);
      if c.cmd == LC_SEGMENT_64 && low <= c.size < high then [SegmentAt(d, c.offset)] + rest else rest
  }

  /** They come in command order, one for each command 0x19 of such a size. */
  lemma {:induction false} SegmentsInOrder(d: seq<Byte>, xs: seq<Command>, ys: seq<Command>, low: nat, high: nat)
    ensures SegmentsSized(d, xs + ys, low, high) == SegmentsSized(d, xs, low, high) + SegmentsSized(d, ys, low, high)
    ensures forall c: Command :: SegmentsSized(d, [c], low, high)
                              == if c.cmd == 0x19 && low <= c.size < high then [SegmentAt(d, c.offset)] else []
  {
    forall c: Command
      ensures SegmentsSized(d, [c], low, high)
           == if c.cmd == 0x19 && low <= c.size < high then [SegmentAt(d, c.offset)] else []
    {
      assert [c][1..] == [];
    }
    if xs == [] {
      assert xs + ys == ys;
    } else {
      assert (xs + ys)[1..] == xs[1..] + ys;
      SegmentsInOrder(d, xs[1..], ys, low, high);
    }
  }

  function LargestEnd(segments: seq<Segment>): nat {
    if segments == [] then 0 else Max(SegmentEnd(segments[0]), LargestEnd(segments[1..]))
  }

  lemma {:induction false} LargestEndIsMaximum(segments: seq<Segment>)
    ensures forall s :: s in segments ==> SegmentEnd(s) <= LargestEnd(segments)
    ensures LargestEnd(segments) == 0 || exists s :: s in segments && SegmentEnd(s) == LargestEnd(segments)
  {
    if segments != [] {
      LargestEndIsMaximum(segments[1..]);
      assert segments == [segments[0]] + segments[1..];
      if LargestEnd(segments) == SegmentEnd(segments[0]) {
        assert segments[0] in segments;
      }
    }
  }

  const NO_LIMIT: nat := 0x1_0000_0000

  function ImageCommands(d: seq<Byte>): seq<Command> {
    Commands(d, HEADER_SIZE64, ReadU32(d, 16))
  }

  /** They start behind the 32-byte header, and byte 16 of the header holds how many there are at most. */
  lemma ImageCommandsAre(d: seq<Byte>)
    requires |d| >= 32
    ensures HoldsNumber(d, 16, ReadU32(d, 16), 4)
    ensures var cmds := ImageCommands(d);
            && |cmds| <= ReadU32(d, 16)
            && (forall c :: c in cmds ==> c.offset + c.size <= |d| && c.size >= 8 &&
                                          HoldsNumber(d, c.offset, c.cmd, 4) && HoldsNumber(d, c.offset + 4, c.size, 4))
            && Adjacent(cmds, 32)
            && (|cmds| == ReadU32(d, 16) || !IsCommand(d, EndOf(cmds, 32)))
  {
    ReadsAreLittleEndian(d, 16);
    CommandsAreContiguous(d, 32, ReadU32(d, 16));
    forall c | c in ImageCommands(d)
      ensures HoldsNumber(d, c.offset, c.cmd, 4) && HoldsNumber(d, c.offset + 4, c.size, 4)
    {
      assert IsAt(d, c);
      ReadsAreLittleEndian(d, c.offset);
      ReadsAreLittleEndian(d, c.offset + 4);
    }
  }

  function ExtentFrom(d: seq<Byte>, p: nat, n: nat): nat {
    LargestEnd(SegmentsSized(d, Commands(d, p, n), 56, NO_LIMIT))
  }

  lemma ExtentStep(d: seq<Byte>, p: nat, n: nat)
    requires n > 0 && IsCommand(d, p)
    ensures var rest := ExtentFrom(d, p + ReadU32(d, p + 4), n - 1);
            var counts := ReadU32(d, p) == LC_SEGMENT_64 && ReadU32(d, p + 4) >= 56;
            ExtentFrom(d, p, n) == if counts then Max(SegmentEnd(SegmentAt(d, p)), rest) else rest
  {
  }

  method CalcMachOFileExtent(d: seq<Byte>) returns (extent: nat)
    ensures |d| < 1024 || ReadU32(d, 0) != 0xFEED_FACF ==> extent == 0
    ensures |d| >= 1024 && ReadU32(d, 0) == 0xFEED_FACF ==>
              extent == LargestEnd(SegmentsSized(d, ImageCommands(d), 56, 0x1_0000_0000))
  {
    if |d| < 1024 || ReadU32(d, 0) != MAGIC64 { return 0; }
    var ncmds := ReadU32(d, 16);
    var p := HEADER_SIZE64;
    extent := 0;
    var i := 0;
    ghost var total := FileExtent(d);
    while i < ncmds && p + 8 <= |d|
      invariant 0 <= i <= ncmds && p >= 0
      invariant total == Max(extent, ExtentFrom(d, p, ncmds - i))
      decreases ncmds - i
    {
      var cmd := ReadU32(d, p);
      var csz := ReadU32(d, p + 4);
      if csz < 8 || p + csz > |d| { break; }
      ExtentStep(d, p, ncmds - i);
      if cmd == LC_SEGMENT_64 && csz >= 56 {
        var fileoff: int := ReadU64(d, p + 40);
        var filesize: int := ReadU64(d, p + 48);
        extent := Max(extent, (fileoff + filesize) % 0x1_0000_0000_0000_0000);
      }
      p := p + csz;
      i := i + 1;
    }
  }

  lemma SegmentsHead(d: seq<Byte>, cmds: seq<Command>, low: nat, high: nat)
    requires cmds != [] && cmds[0].cmd == LC_SEGMENT_64 && low <= cmds[0].size < high
    ensures SegmentsSized(d, cmds, low, high)[0] == SegmentAt(d, cmds[0].offset)
    ensures SegmentsSized(d, cmds, low, high)[1..] == SegmentsSized(d, cmds[1..], low, high)
  {
  }

  /** The segments of a parsed image; names, sections, symbols and entry points are not kept. */
  function ParsedSegments(d: seq<Byte>): Option<seq<Segment>> {
    if |d| < HEADER_SIZE64 || ReadU32(d, 0) != MAGIC64 then None
    else Some(SegmentsSized(d, ImageCommands(d), SEG_CMD64_MIN_SIZE, NO_LIMIT))
  }

  method ParseMachO(d: seq<Byte>) returns (r: Option<seq<Segment>>)
    ensures r == ParsedSegments(d)
    ensures r.Some? <==> |d| >= 32 && ReadU32(d, 0) == 0xFEED_FACF
    ensures r.Some? ==> r.value == SegmentsSized(d, ImageCommands(d), 72, 0x1_0000_0000)
  {
    if |d| < HEADER_SIZE64 { return None; }
    if ReadU32(d, 0) != MAGIC64 { return None; }
    var ncmds := ReadU32(d, 16);
    var p := HEADER_SIZE64;
    var segments: seq<Segment> := [];
    var i := 0;
    while i < ncmds && p + 8 <= |d|
      invariant 0 <= i <= ncmds && p >= 0
      invariant SegmentsSized(d, ImageCommands(d), SEG_CMD64_MIN_SIZE, NO_LIMIT)
             == segments + SegmentsSized(d, Commands(d, p, ncmds - i), SEG_CMD64_MIN_SIZE, NO_LIMIT)
      decreases ncmds - i
    {
      var cmd := ReadU32(d, p);
      var csz := ReadU32(d, p + 4);
      if csz < 8 || p + csz > |d| { break; }
      assert Commands(d, p, ncmds - i)[1..] == Commands(d, p + csz, ncmds - i - 1);
      if cmd == LC_SEGMENT_64 && csz >= SEG_CMD64_MIN_SIZE {
        segments := segments + [SegmentAt(d, p)];
      }
      p := p + csz;
      i := i + 1;
    }
    assert Commands(d, p, ncmds - i) == [] && segments + [] == segments;
    r := Some(segments);
  }

  lemma {:induction false} LargestEndSplits(d: seq<Byte>, cmds: seq<Command>)
    ensures LargestEnd(SegmentsSized(d, cmds, 56, NO_LIMIT))
         == Max(LargestEnd(SegmentsSized(d, cmds, SEG_CMD64_MIN_SIZE, NO_LIMIT)),
                LargestEnd(SegmentsSized(d, cmds, 56, SEG_CMD64_MIN_SIZE)))
  {
    if cmds != [] {
      LargestEndSplits(d, cmds[1..]);
      var c := cmds[0];
      if c.cmd == LC_SEGMENT_64 && c.size >= 56 {
        SegmentsHead(d, cmds, 56, NO_LIMIT);
        if c.size >= SEG_CMD64_MIN_SIZE {
          SegmentsHead(d, cmds, SEG_CMD64_MIN_SIZE, NO_LIMIT);
        } else {
          SegmentsHead(d, cmds, 56, SEG_CMD64_MIN_SIZE);
        }
      }
    }
  }

  function FileExtent(d: seq<Byte>): nat {
    LargestEnd(SegmentsSized(d, ImageCommands(d), 56, NO_LIMIT))
  }

  /** No segment command is long enough for its file range but too short to be parsed. */
  predicate NoShortSegments(d: seq<Byte>) {
    forall i :: 0 <= i < |ImageCommands(d)| ==>
      ImageCommands(d)[i].cmd == LC_SEGMENT_64 ==> !(56 <= ImageCommands(d)[i].size < SEG_CMD64_MIN_SIZE)
  }

  lemma {:induction false} NoneShort(d: seq<Byte>, cmds: seq<Command>)
    requires forall i :: 0 <= i < |cmds| && cmds[i].cmd == LC_SEGMENT_64 ==> !(56 <= cmds[i].size < SEG_CMD64_MIN_SIZE)
    ensures SegmentsSized(d, cmds, 56, SEG_CMD64_MIN_SIZE) == []
  {
    if cmds != [] {
      NoneShort(d, cmds[1..]);
    }
  }

  /** The extent is the largest end over the parsed segments and over the segment commands of 56
      to 71 bytes, which only the extent loop counts. */
  lemma ExtentAgainstParse(d: seq<Byte>)
    requires |d| >= 1024 && ReadU32(d, 0) == 0xFEED_FACF
    ensures ParsedSegments(d).Some?
    ensures var short := LargestEnd(SegmentsSized(d, ImageCommands(d), 56, 72));
            && FileExtent(d) == Max(LargestEnd(ParsedSegments(d).value), short)
            && (FileExtent(d) == LargestEnd(ParsedSegments(d).value) <==> short <= LargestEnd(ParsedSegments(d).value))
    ensures NoShortSegments(d) ==> FileExtent(d) == LargestEnd(ParsedSegments(d).value)
  {
    LargestEndSplits(d, ImageCommands(d));
    if NoShortSegments(d) {
      NoneShort(d, ImageCommands(d));
      assert LargestEnd(SegmentsSized(d, ImageCommands(d), 56, SEG_CMD64_MIN_SIZE)) == 0;
    }
  }

  // ----- the SEP slide -----

  /** The data offset of the first LC_SEP_SEGMENT command of at least 16 bytes. */
  function FirstSlide(d: seq<Byte>, cmds: seq<Command>): Option<U32> {
    if cmds == [] then None
    else if cmds[0].cmd == LC_SEP_SEGMENT && cmds[0].size >= 16 then Some(ReadU32(d, cmds[0].offset + 8))
    else FirstSlide(d, cmds[1..])
  }

  predicate IsSepCommand(c: Command) {
    c.cmd == 0x8000_0001 && c.size >= 16
  }

  /** It is the number eight bytes into the first SEP command of at least 16 bytes, if there is one. */
  lemma {:induction false} FirstSlideIs(d: seq<Byte>, cmds: seq<Command>) returns (k: nat)
    ensures k <= |cmds| && forall i :: 0 <= i < k ==> !IsSepCommand(cmds[i])
    ensures k == |cmds| ==> FirstSlide(d, cmds) == None
    ensures k < |cmds| ==> IsSepCommand(cmds[k]) && FirstSlide(d, cmds).Some?
    ensures k < |cmds| && cmds[k].offset + 12 <= |d| ==>
              HoldsNumber(d, cmds[k].offset + 8, FirstSlide(d, cmds).value, 4)
  {
    k := 0;
    if cmds != [] {
      if IsSepCommand(cmds[0]) {
        ReadsAreLittleEndian(d, cmds[0].offset + 8);
      } else {
        var j := FirstSlideIs(d, cmds[1..]);
        k := j + 1;
      }
    }
  }

  method FindLcSepSlide(d: seq<Byte>) returns (slide: Option<U32>)
    ensures |d| < 32 || (ReadU32(d, 0) != 0xFEED_FACF && ReadU32(d, 0) != 0xFEED_FACE) ==> slide == None
    ensures |d| >= 32 && ReadU32(d, 0) == 0xFEED_FACF ==> slide == FirstSlide(d, Commands(d, 32, ReadU32(d, 16)))
    ensures |d| >= 32 && ReadU32(d, 0) == 0xFEED_FACE ==> slide == FirstSlide(d, Commands(d, 28, ReadU32(d, 16)))
  {
    if |d| < HEADER_SIZE64 { return None; }
    var magic := ReadU32(d, 0);
    if magic != MAGIC64 && magic != MAGIC32 { return None; }
    var ncmds := ReadU32(d, 16);
    var p := if magic == MAGIC64 then HEADER_SIZE64 else HEADER_SIZE32;
    ghost var start := p;
    var i := 0;
    while i < ncmds && p + 8 <= |d|
      invariant 0 <= i <= ncmds && p >= 0
      invariant FirstSlide(d, Commands(d, start, ncmds)) == FirstSlide(d, Commands(d, p, ncmds - i))
      decreases ncmds - i
    {
      var cmd := ReadU32(d, p);
      var csz := ReadU32(d, p + 4);
      if csz < 8 || p + csz > |d| { break; }
      assert Commands(d, p, ncmds - i)[1..] == Commands(d, p + csz, ncmds - i - 1);
      if cmd == LC_SEP_SEGMENT && csz >= 16 {
        return Some(ReadU32(d, p + 8));
      }
      p := p + csz;
      i := i + 1;
    }
    slide := None;
  }

  // ----- the two loops can disagree -----

  function ShortSegmentByte(i: nat): Byte {
    if i == 0 then 0xCF else if i == 1 then 0xFA else if i == 2 then 0xED else if i == 3 then 0xFE
    else if i == 16 then 1             // one command
    else if i == 32 then 0x19          // LC_SEGMENT_64
    else if i == 36 then 56            // its size
    else if i == 72 then 7             // its file offset
    else 0
  }

  lemma ShortSegmentDisagrees() returns (d: seq<Byte>)
    ensures |d| >= 1024 && ReadU32(d, 0) == 0xFEED_FACF && !NoShortSegments(d)
    ensures ParsedSegments(d) == Some([]) && FileExtent(d) == 7
  {
    d := seq<Byte>(1024, (i: nat) => ShortSegmentByte(i));
    assert ReadU32(d, 16) == 1 && ReadU32(d, 32) == LC_SEGMENT_64 && ReadU32(d, 36) == 56;
    assert ReadU64(d, 72) == 7 && ReadU64(d, 80) == 0;
    var c := Command(32, LC_SEGMENT_64, 56);
    assert Commands(d, 88, 0) == [];
    assert Commands(d, 32, 1) == [c];
    assert ImageCommands(d) == [c] && ImageCommands(d)[0] == c;
    assert [c][1..] == [];
    assert SegmentsSized(d, [c], 56, NO_LIMIT) == [SegmentAt(d, 32)] + SegmentsSized(d, [], 56, NO_LIMIT);
    assert SegmentEnd(SegmentAt(d, 32)) == 7;
    SegmentsHead(d, [c], 56, NO_LIMIT);
    assert SegmentsSized(d, [c], SEG_CMD64_MIN_SIZE, NO_LIMIT) == SegmentsSized(d, [], SEG_CMD64_MIN_SIZE, NO_LIMIT);
    assert LargestEnd([]) == 0;
  }
}
