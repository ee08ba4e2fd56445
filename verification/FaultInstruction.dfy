/** The x86-64 memory-operand decoder of src/rtti/FaultInstruction.cpp, against an encoder
    written from sections 2.1.5 and 2.2.1 of the Intel SDM, Volume 2. */
module FaultInstruction {
  import opened Bytes
  import opened NumberText
  import opened Wrappers

  // ----- The instruction format -----

  type Bits2 = x: int | 0 <= x < 4
  type Bits3 = x: int | 0 <= x < 8

  datatype Rex = Rex(w: bool, r: bool, x: bool, b: bool)
  datatype Sib = Sib(ss: Bits2, index: Bits3, base: Bits3)

  /** An instruction up to its displacement, field by field. */
  datatype Fields = Fields(
    prefixes: seq<byte>,
    rex: Option<Rex>,
    opcode: seq<byte>,
    mod: Bits2,
    reg: Bits3,
    rm: Bits3,
    sib: Option<Sib>,
    disp: seq<byte>)

  function Bit(b: bool): int { if b then 1 else 0 }

  function RexByte(r: Rex): byte {
    0x40 + 8 * Bit(r.w) + 4 * Bit(r.r) + 2 * Bit(r.x) + Bit(r.b)
  }

  function RexOf(b: byte): Rex
    requires b / 16 == 4
  {
    Rex(b / 8 % 2 == 1, b / 4 % 2 == 1, b / 2 % 2 == 1, b % 2 == 1)
  }

  function ModRmByte(mod: Bits2, reg: Bits3, rm: Bits3): byte { mod * 64 + reg * 8 + rm }

  function SibByte(s: Sib): byte { s.ss * 64 + s.index * 8 + s.base }

  function SibOf(b: byte): Sib { Sib(b / 64, b / 8 % 8, b % 8) }

  predicate IsLegacyPrefix(b: byte) {
    b == 0x66 || b == 0x67 || b == 0xF0 || b == 0xF2 || b == 0xF3 ||
    b == 0x2E || b == 0x36 || b == 0x3E || b == 0x26 || b == 0x64 || b == 0x65
  }

  /** One byte, or the 0F escape and one byte, or a 0F 38 or 0F 3A escape and one byte. */
  predicate IsOpcode(op: seq<byte>) {
    || (|op| == 1 && op[0] != 0x0F)
    || (|op| == 2 && op[0] == 0x0F && op[1] != 0x38 && op[1] != 0x3A)
    || (|op| == 3 && op[0] == 0x0F && (op[1] == 0x38 || op[1] == 0x3A))
  }

  /** Mod 0 replaces the base of r/m 5, and of SIB base 5, by a 32-bit displacement. */
  predicate NeedDisp32(mod: Bits2, rm: Bits3, sib: Option<Sib>) {
    mod == 0 && (rm == 5 || (sib.Some? && sib.value.base == 5))
  }

  function DispLen(mod: Bits2, rm: Bits3, sib: Option<Sib>): nat {
    if mod == 1 then 1 else if mod == 2 || NeedDisp32(mod, rm, sib) then 4 else 0
  }

  predicate WellFormed(f: Fields) {
    && (forall i :: 0 <= i < |f.prefixes| ==> IsLegacyPrefix(f.prefixes[i]))
    && IsOpcode(f.opcode)
    && (f.rex.None? ==> !IsLegacyPrefix(f.opcode[0]) && f.opcode[0] / 16 != 4)
    && f.mod != 3
    && (f.sib.Some? <==> f.rm == 4)
    && |f.disp| == DispLen(f.mod, f.rm, f.sib)
  }

  function RexBytes(r: Option<Rex>): seq<byte> { if r.Some? then [RexByte(r.value)] else [] }

  function SibBytes(s: Option<Sib>): seq<byte> { if s.Some? then [SibByte(s.value)] else [] }

  /** ModRM, SIB and displacement. */
  function OperandBytes(f: Fields): seq<byte> {
    [ModRmByte(f.mod, f.reg, f.rm)] + SibBytes(f.sib) + f.disp
  }

  function Serialize(f: Fields): seq<byte> {
    f.prefixes + (RexBytes(f.rex) + (f.opcode + OperandBytes(f)))
  }

  // ----- Operands and their encodings -----

  /** `[base + index*scale + disp]`, or a RIP-relative one; registers are numbered 0 to 15. */
  datatype Operand =
    | Mem(base: Option<nat>, index: Option<nat>, scale: nat, disp: int)
    | RipRelative(disp: int)

  predicate IsOperand(m: Operand) {
    && -0x8000_0000 <= m.disp < 0x8000_0000
    && (m.Mem? ==>
      && (m.base.Some? ==> m.base.value < 16)
      && (m.index.Some? ==> m.index.value < 16 && m.index.value != 4)
      && (m.scale == 1 || m.scale == 2 || m.scale == 4 || m.scale == 8))
  }

  /** What an assembler may choose freely.  `rex` carries W, R and whether a REX byte is present;
      its X and B matter only where the operand does not fix them. */
  datatype Choice = Choice(
    prefixes: seq<byte>,
    rex: Option<Rex>,
    opcode: seq<byte>,
    reg: Bits3,
    useSib: bool,
    mod: Bits2)

  function ScaleBits(scale: nat): Bits2 {
    if scale == 1 then 0 else if scale == 2 then 1 else if scale == 4 then 2 else 3
  }

  function ScaleOf(ss: Bits2): nat {
    if ss == 0 then 1 else if ss == 1 then 2 else if ss == 2 then 4 else 8
  }

  function SignedBytes(d: int, mod: Bits2, wide: bool): seq<byte>
    requires -0x8000_0000 <= d < 0x8000_0000 && (mod == 1 ==> -0x80 <= d < 0x80)
  {
    if mod == 1 then [if d < 0 then d + 256 else d]
    else if mod == 2 || wide then ToLE32(if d < 0 then d + TWO_32 else d)
    else []
  }

  /** The rows of tables 2-2 and 2-3 and of the REX extension that this operand allows. */
  predicate Encodable(m: Operand, c: Choice) {
    && IsOperand(m) && c.mod != 3 && IsOpcode(c.opcode)
    && (c.rex.None? ==> !IsLegacyPrefix(c.opcode[0]) && c.opcode[0] / 16 != 4)
    && (forall i :: 0 <= i < |c.prefixes| ==> IsLegacyPrefix(c.prefixes[i]))
    && (c.mod == 1 ==> -0x80 <= m.disp < 0x80)
    && match m
       case RipRelative(_) => c.mod == 0 && !c.useSib
       case Mem(base, index, scale, disp) =>
         var b := if base.Some? then base.value else 5;
         var i := if index.Some? then index.value else 4;
         && (c.mod == 0 && base.Some? ==> disp == 0 && b % 8 != 5)
         && (base.None? ==> c.mod == 0 && c.useSib)
         && (base.Some? ==> RexB(c.rex) == (b >= 8))
         && (index.Some? || b % 8 == 4 ==> c.useSib)
         && (c.useSib ==> RexX(c.rex) == (i >= 8))
         && (!c.useSib ==> scale == 1)
  }

  predicate RexX(r: Option<Rex>) { r.Some? && r.value.x }
  predicate RexB(r: Option<Rex>) { r.Some? && r.value.b }

  /** The encoder. */
  function EncodeFields(m: Operand, c: Choice): Fields
    requires Encodable(m, c)
  {
    match m
    case RipRelative(d) =>
      Fields(c.prefixes, c.rex, c.opcode, 0, c.reg, 5, None, SignedBytes(d, 0, true))
    case Mem(base, index, scale, d) =>
      var b := if base.Some? then base.value else 5;
      var i := if index.Some? then index.value else 4;
      if c.useSib then
        Fields(c.prefixes, c.rex, c.opcode, c.mod, c.reg, 4,
               Some(Sib(ScaleBits(scale), i % 8, b % 8)), SignedBytes(d, c.mod, base.None?))
      else
        Fields(c.prefixes, c.rex, c.opcode, c.mod, c.reg, b % 8, None, SignedBytes(d, c.mod, false))
  }

  /** A sign-extended displacement. */
  function DispOf(bytes: seq<byte>): int {
    if |bytes| == 1 then Signed(bytes[0], TWO_8)
    else if |bytes| == 4 then Signed(FromLE32(bytes), TWO_32)
    else 0
  }

  /** What ModRM, SIB and REX address, read off the tables. */
  function MeaningOf(mod: Bits2, rm: Bits3, sib: Option<Sib>, rex: Option<Rex>, disp: int): Operand {
    if sib.Some? then
      var s := sib.value;
      Mem(if mod == 0 && s.base == 5 then None else Some(s.base + 8 * Bit(RexB(rex))),
          if s.index == 4 && !RexX(rex) then None else Some(s.index + 8 * Bit(RexX(rex))),
          ScaleOf(s.ss), disp)
    else if mod == 0 && rm == 5 then RipRelative(disp)
    else Mem(Some(rm + 8 * Bit(RexB(rex))), None, 1, disp)
  }

  /** The encoder's inverse. */
  function Meaning(f: Fields): Operand
    requires WellFormed(f)
  {
    MeaningOf(f.mod, f.rm, f.sib, f.rex, DispOf(f.disp))
  }

  /** The choices that an encoding made. */
  function ChoiceOf(f: Fields): Choice {
    Choice(f.prefixes, f.rex, f.opcode, f.reg, f.sib.Some?, f.mod)
  }

  lemma DispRoundTrip(d: int, mod: Bits2, wide: bool)
    requires -0x8000_0000 <= d < 0x8000_0000 && (mod == 1 ==> -0x80 <= d < 0x80) && mod != 3
    ensures var bytes := SignedBytes(d, mod, wide);
      |bytes| == (if mod == 1 then 1 else if mod == 2 || wide then 4 else 0) && (bytes != [] ==> DispOf(bytes) == d)
  {
    LE32RoundTrip(if d < 0 then d + TWO_32 else d);
  }

  lemma DispDetermined(bytes: seq<byte>, mod: Bits2, wide: bool)
    requires |bytes| == (if mod == 1 then 1 else if mod == 2 || wide then 4 else 0)
    ensures -0x8000_0000 <= DispOf(bytes) < 0x8000_0000 && (mod == 1 ==> -0x80 <= DispOf(bytes) < 0x80)
    ensures SignedBytes(DispOf(bytes), mod, wide) == bytes && (bytes == [] ==> DispOf(bytes) == 0)
  {
    if |bytes| == 4 { LE32Determined(bytes); }
  }

  /** Every encoding of an operand means that operand. */
  lemma MeaningOfEncoding(m: Operand, c: Choice)
    requires Encodable(m, c)
    ensures WellFormed(EncodeFields(m, c)) && Meaning(EncodeFields(m, c)) == m
  {
    DispRoundTrip(m.disp, EncodeFields(m, c).mod, m.RipRelative? || m.base.None?);
  }

  /** And the encoder reaches every well-formed instruction: nothing else addresses memory. */
  lemma EncodingOfMeaning(f: Fields)
    requires WellFormed(f)
    ensures Encodable(Meaning(f), ChoiceOf(f)) && EncodeFields(Meaning(f), ChoiceOf(f)) == f
  {
    DispDetermined(f.disp, f.mod, NeedDisp32(f.mod, f.rm, f.sib));
  }

  // ----- Reading bytes back -----

  /** The first position from `p` that is not a legacy prefix. */
  function SkipPrefixes(code: seq<byte>, p: nat): (q: nat)
    requires p <= |code|
    ensures p <= q <= |code|
    ensures forall i :: p <= i < q ==> IsLegacyPrefix(code[i])
    ensures q < |code| ==> !IsLegacyPrefix(code[q])
    decreases |code| - p
  {
    if p < |code| && IsLegacyPrefix(code[p]) then SkipPrefixes(code, p + 1) else p
  }

  function OpcodeLen(code: seq<byte>, p: nat): nat {
    if p < |code| && code[p] == 0x0F
    then if p + 1 < |code| && (code[p + 1] == 0x38 || code[p + 1] == 0x3A) then 3 else 2
    else 1
  }

  /** ModRM, SIB and displacement at `p`. */
  function FetchOperand(code: seq<byte>, p: nat, prefixes: seq<byte>, rex: Option<Rex>, opcode: seq<byte>): Option<Fields> {
    if p >= |code| then None
    else
      var mod, reg, rm := code[p] / 64, code[p] / 8 % 8, code[p] % 8;
      if mod == 3 || (rm == 4 && p + 1 >= |code|) then None
      else
        var sib := if rm == 4 then Some(SibOf(code[p + 1])) else None;
        var at := if rm == 4 then p + 2 else p + 1;
        var len := DispLen(mod, rm, sib);
        if at + len > |code| then None
        else Some(Fields(prefixes, rex, opcode, mod, reg, rm, sib, code[at..at + len]))
  }

  function Fetch(code: seq<byte>): Option<Fields> {
    var p := SkipPrefixes(code, 0);
    if p >= |code| then None
    else
      var rex := if code[p] / 16 == 4 then Some(RexOf(code[p])) else None;
      var o := if rex.Some? then p + 1 else p;
      var q := o + OpcodeLen(code, o);
      if q > |code| then None else FetchOperand(code, q, code[..p], rex, code[o..q])
  }

  lemma ByteOfFields(b: byte)
    ensures ModRmByte(b / 64, b / 8 % 8, b % 8) == b && SibByte(SibOf(b)) == b
  {
    assert b / 8 == 8 * (b / 64) + b / 8 % 8;
  }

  lemma ByteOfRex(b: byte)
    requires b / 16 == 4
    ensures RexByte(RexOf(b)) == b
  {
    var b1, b2, b3 := b / 2, b / 4, b / 8;
    assert b == 2 * b1 + b % 2 && b1 == 2 * b2 + b1 % 2 && b2 == 2 * b3 + b2 % 2 && b3 == 8 + b3 % 2;
  }

  lemma FieldsOfBytes(mod: Bits2, reg: Bits3, rm: Bits3)
    ensures var b := ModRmByte(mod, reg, rm); b / 64 == mod && b / 8 % 8 == reg && b % 8 == rm
  {
    var b := ModRmByte(mod, reg, rm);
    assert b / 8 == mod * 8 + reg;
  }

  lemma RexOfByte(r: Rex)
    ensures RexByte(r) / 16 == 4 && RexOf(RexByte(r)) == r
  {
  }

  lemma {:induction false} SkipExactly(code: seq<byte>, p: nat, q: nat)
    requires p <= q < |code| && !IsLegacyPrefix(code[q])
    requires forall i :: p <= i < q ==> IsLegacyPrefix(code[i])
    ensures SkipPrefixes(code, p) == q
    decreases q - p
  {
    if p < q { SkipExactly(code, p + 1, q); }
  }

  lemma FetchOperandOfBytes(f: Fields, code: seq<byte>, p: nat, tail: seq<byte>)
    requires WellFormed(f) && p <= |code| && code[p..] == OperandBytes(f) + tail
    ensures FetchOperand(code, p, f.prefixes, f.rex, f.opcode) == Some(f)
  {
    FieldsOfBytes(f.mod, f.reg, f.rm);
    assert code[p] == code[p..][0] == ModRmByte(f.mod, f.reg, f.rm);
    if f.sib.Some? {
      var s := f.sib.value;
      FieldsOfBytes(s.ss, s.index, s.base);
      assert code[p + 1] == code[p..][1] == SibByte(s);
      assert SibOf(code[p + 1]) == s;
      assert f.disp == code[p..][2..2 + |f.disp|] == code[p + 2..p + 2 + |f.disp|];
    } else {
      assert f.disp == code[p..][1..1 + |f.disp|] == code[p + 1..p + 1 + |f.disp|];
    }
  }

  lemma Pieces(a: seq<byte>, b: seq<byte>, c: seq<byte>, d: seq<byte>, tail: seq<byte>)
    ensures var code := a + (b + (c + d)) + tail;
      var o := |a| + |b|;
      var q := o + |c|;
      code[..|a|] == a && code[|a|..o] == b && code[o..q] == c && code[q..] == d + tail
  {
  }

  lemma SkipsThese(code: seq<byte>, prefixes: seq<byte>)
    requires |prefixes| < |code| && code[..|prefixes|] == prefixes && !IsLegacyPrefix(code[|prefixes|])
    requires forall i :: 0 <= i < |prefixes| ==> IsLegacyPrefix(prefixes[i])
    ensures SkipPrefixes(code, 0) == |prefixes|
  {
    forall i | 0 <= i < |prefixes| ensures IsLegacyPrefix(code[i]) {
      assert code[i] == code[..|prefixes|][i];
    }
    SkipExactly(code, 0, |prefixes|);
  }

  lemma OpcodeLenOf(code: seq<byte>, o: nat, opcode: seq<byte>)
    requires o + |opcode| <= |code| && code[o..o + |opcode|] == opcode && IsOpcode(opcode)
    ensures OpcodeLen(code, o) == |opcode| && code[o] == opcode[0]
  {
    assert code[o] == code[o..o + |opcode|][0];
    if |opcode| > 1 { assert code[o + 1] == code[o..o + |opcode|][1]; }
  }

  lemma FetchReads(code: seq<byte>, f: Fields, p: nat, o: nat, q: nat)
    requires WellFormed(f) && p == |f.prefixes| && o == p + |RexBytes(f.rex)| && q == o + |f.opcode| <= |code|
    requires code[..p] == f.prefixes && code[p..o] == RexBytes(f.rex) && code[o..q] == f.opcode
    requires FetchOperand(code, q, f.prefixes, f.rex, f.opcode) == Some(f)
    ensures Fetch(code) == Some(f)
  {
    OpcodeLenOf(code, o, f.opcode);
    if f.rex.Some? {
      RexOfByte(f.rex.value);
      assert code[p] == code[p..o][0];
    }
    SkipsThese(code, f.prefixes);
  }

  /** Fetching inverts serialising, whatever follows. */
  lemma FetchSerialized(f: Fields, tail: seq<byte>)
    requires WellFormed(f)
    ensures Fetch(Serialize(f) + tail) == Some(f)
  {
    var code := Serialize(f) + tail;
    var p := |f.prefixes|;
    var o := p + |RexBytes(f.rex)|;
    var q := o + |f.opcode|;
    Pieces(f.prefixes, RexBytes(f.rex), f.opcode, OperandBytes(f), tail);
    FetchOperandOfBytes(f, code, q, tail);
    FetchReads(code, f, p, o, q);
  }

  lemma OneThen(code: seq<byte>, p: nat, len: nat)
    requires p + 1 + len <= |code|
    ensures [code[p]] + code[p + 1..p + 1 + len] == code[p..p + 1 + len]
  {
  }

  lemma FetchedOperandBytes(code: seq<byte>, p: nat, prefixes: seq<byte>, rex: Option<Rex>, opcode: seq<byte>)
    requires FetchOperand(code, p, prefixes, rex, opcode).Some?
    ensures var f := FetchOperand(code, p, prefixes, rex, opcode).value;
      var end := p + |OperandBytes(f)|;
      end <= |code| && OperandBytes(f) == code[p..end]
  {
    var f := FetchOperand(code, p, prefixes, rex, opcode).value;
    ByteOfFields(code[p]);
    if code[p] % 8 == 4 {
      ByteOfFields(code[p + 1]);
      OneThen(code, p + 1, |f.disp|);
      OneThen(code, p, 1 + |f.disp|);
    } else {
      OneThen(code, p, |f.disp|);
    }
  }

  lemma OperandThere(f: Fields, code: seq<byte>, p: nat)
    requires FetchOperand(code, p, f.prefixes, f.rex, f.opcode) == Some(f)
    ensures p + |OperandBytes(f)| <= |code| && OperandBytes(f) == code[p..p + |OperandBytes(f)|]
  {
    FetchedOperandBytes(code, p, f.prefixes, f.rex, f.opcode);
  }

  lemma JoinSlices(code: seq<byte>, p: nat, o: nat, q: nat, end: nat)
    requires p <= o <= q <= end <= |code|
    ensures code[..p] + (code[p..o] + (code[o..q] + code[q..end])) == code[..end] <= code
  {
  }

  lemma SerializedThere(f: Fields, code: seq<byte>, p: nat, o: nat, q: nat)
    requires p <= o <= q && q + |OperandBytes(f)| <= |code|
    requires f.prefixes == code[..p] && RexBytes(f.rex) == code[p..o] && f.opcode == code[o..q]
    requires OperandBytes(f) == code[q..q + |OperandBytes(f)|]
    ensures Serialize(f) <= code
  {
    JoinSlices(code, p, o, q, q + |OperandBytes(f)|);
  }

  lemma FetchIsWellFormed(code: seq<byte>)
    requires Fetch(code).Some?
    ensures WellFormed(Fetch(code).value)
  {
  }

  /** Where the parts of what is fetched stand. */
  lemma FetchedParts(code: seq<byte>)
    requires Fetch(code).Some?
    ensures var f := Fetch(code).value;
      var p := |f.prefixes|;
      var o := p + |RexBytes(f.rex)|;
      var q := o + |f.opcode|;
      q <= |code| && f.prefixes == code[..p] && RexBytes(f.rex) == code[p..o] && f.opcode == code[o..q]
      && FetchOperand(code, q, f.prefixes, f.rex, f.opcode) == Some(f)
  {
    var f := Fetch(code).value;
    if f.rex.Some? { ByteOfRex(code[|f.prefixes|]); }
  }

  /** Whatever is fetched was serialised there. */
  lemma FetchIsSerialized(code: seq<byte>)
    requires Fetch(code).Some?
    ensures WellFormed(Fetch(code).value) && Serialize(Fetch(code).value) <= code
  {
    var f := Fetch(code).value;
    FetchIsWellFormed(code);
    FetchedParts(code);
    var p := |f.prefixes|;
    var o := p + |RexBytes(f.rex)|;
    var q := o + |f.opcode|;
    OperandThere(f, code, q);
    SerializedThere(f, code, p, o, q);
  }

  // ----- The decoder -----

  const REG_NAMES: seq<string> := [
    "RAX", "RCX", "RDX", "RBX", "RSP", "RBP", "RSI", "RDI",
    "R8", "R9", "R10", "R11", "R12", "R13", "R14", "R15"]

  datatype DecodedFault = DecodedFault(
    ok: bool, eaMatches: bool, ripRelative: bool, baseHasReg: bool, indexHasReg: bool, baseIsNull: bool,
    scale: nat, disp: int, baseValue: uint64, computedEA: uint64,
    baseReg: string, indexReg: string, operand: string)

  const NOT_DECODED := DecodedFault(false, false, false, false, false, false, 1, 0, 0, 0, "", "", "")

  type Registers = r: seq<uint64> | |r| == 16 witness [0, 0, 0, 0, 0, 0, 0, 0, 0, 0, 0, 0, 0, 0, 0, 0]

  /** The address of an operand: plain integer arithmetic, reduced once at the end. */
  function EffectiveAddress(m: Operand, regs: Registers): uint64
    requires IsOperand(m) && m.Mem?
  {
    ((if m.base.Some? then regs[m.base.value] else 0)
     + (if m.index.Some? then regs[m.index.value] * m.scale else 0)
     + m.disp) % TWO_64
  }

  lemma {:induction false} HexLength(n: nat, digits: nat, bound: nat)
    requires n < bound && digits > 0
    requires bound == Power16(digits)
    ensures |Hex(n)| <= digits
    decreases digits
  {
    if n >= 16 {
      assert digits > 1;
      HexLength(n / 16, digits - 1, Power16(digits - 1));
    }
  }

  function Power16(k: nat): nat { if k == 0 then 1 else 16 * Power16(k - 1) }

  function DecimalDigit(scale: nat): string
    requires scale < 10
  {
    ["0123456789"[scale]]
  }

  function BaseText(d: DecodedFault): string {
    if d.ripRelative then "RIP" else if d.baseHasReg then d.baseReg else ""
  }

  function IndexText(d: DecodedFault): string
    requires d.scale < 10
  {
    if d.indexHasReg then (if BaseText(d) == "" then "" else "+") + d.indexReg + "*" + DecimalDigit(d.scale) else ""
  }

  function DispText(d: DecodedFault): string
    requires d.scale < 10
  {
    if d.disp < 0 then "-0x" + Hex(-d.disp)
    else if d.disp > 0 || (!d.baseHasReg && !d.indexHasReg && !d.ripRelative)
    then (if BaseText(d) + IndexText(d) == "" then "" else "+") + "0x" + Hex(d.disp)
    else ""
  }

  /** The whole operand, brackets included. */
  function OperandText(d: DecodedFault): string
    requires d.scale < 10
  {
    "[" + BaseText(d) + IndexText(d) + DispText(d) + "]"
  }

  /** The part of the answer that names the operand. */
  function Named(m: Operand, regs: Registers): (d: DecodedFault)
    requires IsOperand(m)
    ensures d.scale < 10
  {
    var base := if m.Mem? then m.base else None;
    var index := if m.Mem? then m.index else None;
    NOT_DECODED.(
    ok := true, ripRelative := m.RipRelative?, scale := if m.Mem? then m.scale else 1, disp := m.disp,
    baseHasReg := base.Some?, baseReg := if base.Some? then REG_NAMES[base.value] else "",
    baseValue := if base.Some? then regs[base.value] else 0,
    baseIsNull := base.Some? && regs[base.value] == 0,
    indexHasReg := index.Some?, indexReg := if index.Some? then REG_NAMES[index.value] else "")
  }

  /** The decoder's answer for an operand. */
  function Answer(m: Operand, regs: Registers, faultAddr: uint64): DecodedFault
    requires IsOperand(m)
  {
    var ea := if m.Mem? then EffectiveAddress(m, regs) else 0;
    Named(m, regs).(
    operand := OperandText(Named(m, regs)), computedEA := ea, eaMatches := m.Mem? && ea == faultAddr)
  }

  /** `snprintf` at position `n` of the buffer: what fits, then NUL; returns the full length. */
  method Snprintf(buf: array<char>, n: nat, text: string) returns (written: nat)
    requires n < buf.Length
    modifies buf
    ensures written == |text|
    ensures var k := if |text| < buf.Length - n then |text| else buf.Length - n - 1;
      buf[..n + k] == old(buf[..n]) + text[..k]
  {
    var k := if |text| < buf.Length - n then |text| else buf.Length - n - 1;
    for i := 0 to k
      invariant buf[..n + i] == old(buf[..n]) + text[..i]
    {
      buf[n + i] := text[i];
      assert buf[..n + i + 1] == buf[..n + i] + [text[i]];
    }
    buf[n + k] := '\0';
    written := |text|;
  }

  function Advance(n: nat, w: nat, size: nat): nat
    requires size > 0
  {
    if n + w < size then n + w else size - 1
  }

  /** Appends a piece that fits. */
  method Put(buf: array<char>, n: nat, text: string) returns (m: nat)
    requires n + |text| < buf.Length
    modifies buf
    ensures m == n + |text| && buf[..m] == old(buf[..n]) + text
  {
    var w := Snprintf(buf, n, text);
    assert text[..|text|] == text;
    m := Advance(n, w, buf.Length);
  }

  lemma TextsFit(d: DecodedFault)
    requires |d.baseReg| <= 3 && |d.indexReg| <= 3 && d.scale < 10
    requires -0x8000_0000 <= d.disp < 0x8000_0000
    ensures |BaseText(d)| <= 3 && |IndexText(d)| <= 6 && |DispText(d)| <= 11
  {
    assert Power16(8) == TWO_32;
    HexLength(if d.disp < 0 then -d.disp else d.disp, 8, TWO_32);
  }

  /** The longest operand is `[R15+R15*8-0x80000000]`: the 48-byte buffer never truncates, so the
      text is complete and its bracket closed. */
  method BuildOperand(d: DecodedFault) returns (operand: string)
    requires |d.baseReg| <= 3 && |d.indexReg| <= 3 && d.scale < 10
    requires d.baseHasReg ==> d.baseReg != ""
    requires -0x8000_0000 <= d.disp < 0x8000_0000
    ensures operand == OperandText(d)
    ensures |operand| <= 22 && operand[|operand| - 1] == ']'
  {
    TextsFit(d);
    var buf := new char[48];
    buf[0] := '[';
    var n := 1;
    assert buf[..n] == "[";
    if d.ripRelative {
      n := Put(buf, n, "RIP");
    } else if d.baseHasReg {
      n := Put(buf, n, d.baseReg);
    }
    ghost var upToBase := "[" + BaseText(d);
    assert buf[..n] == upToBase;
    n := PutIndex(buf, n, d);
    ghost var upToIndex := upToBase + IndexText(d);
    n := PutDisp(buf, n, d);
    ghost var upToDisp := upToIndex + DispText(d);
    if n < buf.Length - 1 {
      buf[n] := ']';
      n := n + 1;
      assert buf[..n] == upToDisp + "]";
    }
    operand := buf[..n];
  }

  method PutIndex(buf: array<char>, n: nat, d: DecodedFault) returns (m: nat)
    requires d.scale < 10 && n == 1 + |BaseText(d)| && n + |IndexText(d)| < buf.Length
    modifies buf
    ensures m == n + |IndexText(d)| && buf[..m] == old(buf[..n]) + IndexText(d)
  {
    m := n;
    if d.indexHasReg {
      m := Put(buf, n, (if n > 1 then "+" else "") + d.indexReg + "*" + DecimalDigit(d.scale));
    }
  }

  method PutDisp(buf: array<char>, n: nat, d: DecodedFault) returns (m: nat)
    requires d.scale < 10 && n == 1 + |BaseText(d) + IndexText(d)| && n + |DispText(d)| < buf.Length
    modifies buf
    ensures m == n + |DispText(d)| && buf[..m] == old(buf[..n]) + DispText(d)
  {
    m := n;
    if d.disp != 0 || (!d.baseHasReg && !d.indexHasReg && !d.ripRelative) {
      if d.disp < 0 {
        m := Put(buf, n, "-0x" + Hex(-d.disp));
      } else {
        m := Put(buf, n, (if n > 1 then "+" else "") + "0x" + Hex(d.disp));
      }
    }
  }

  /** Steps over prefixes, REX and opcode. */
  method SkipToModRm(code: seq<byte>)
    returns (found: bool, p: nat, rexX: bool, rexB: bool,
             ghost prefixes: seq<byte>, ghost rex: Option<Rex>, ghost opcode: seq<byte>)
    ensures !found ==> Fetch(code).None?
    ensures found ==> Fetch(code) == FetchOperand(code, p, prefixes, rex, opcode)
    ensures found ==> rexX == RexX(rex) && rexB == RexB(rex)
  {
    found, p, rexX, rexB, prefixes, rex, opcode := false, 0, false, false, [], None, [];
    while p < |code|
      invariant p <= |code| && SkipPrefixes(code, 0) == SkipPrefixes(code, p)
    {
      if !IsLegacyPrefix(code[p]) { break; }
      p := p + 1;
    }
    prefixes := code[..p];
    if p >= |code| { return; }
    if code[p] / 16 == 4 {
      rex := Some(RexOf(code[p]));
      rexX := code[p] / 2 % 2 == 1;
      rexB := code[p] % 2 == 1;
      p := p + 1;
    }
    ghost var o := p;
    if p >= |code| { return; }
    var op0 := code[p];
    p := p + 1;
    if op0 == 0x0F {
      if p >= |code| { return; }
      var op1 := code[p];
      p := p + 1;
      if op1 == 0x38 || op1 == 0x3A {
        if p >= |code| { return; }
        p := p + 1;
      }
    }
    opcode := code[o..p];
    found := true;
  }

  /** Decodes the instruction at the fault: the operand that the fetched fields mean, with its
      address in 64-bit wrapping arithmetic, or nothing when no memory operand is encoded. */
  method DecodeFaultOperand(code: seq<byte>, regs: Registers, faultAddr: uint64) returns (d: DecodedFault)
    ensures Fetch(code).None? ==> d == NOT_DECODED
    ensures Fetch(code).Some? ==>
      WellFormed(Fetch(code).value) && IsOperand(Meaning(Fetch(code).value)) &&
      d == Answer(Meaning(Fetch(code).value), regs, faultAddr)
  {
    d := NOT_DECODED;
    if |code| < 2 { return; }
    var found, p, rexX, rexB, prefixes, rex, opcode := SkipToModRm(code);
    if !found { return; }
    if Fetch(code).Some? {
      FetchIsSerialized(code);
      EncodingOfMeaning(Fetch(code).value);
    }
    d := DecodeModRm(code, p, rexX, rexB, regs, faultAddr, prefixes, rex, opcode);
  }

  /** The displacement that the mod bits ask for. */
  method ReadDisp(code: seq<byte>, p: nat, mod: Bits2, needDisp32: bool) returns (ok: bool, disp: int)
    requires p <= |code|
    ensures var len := if mod == 1 then 1 else if mod == 2 || needDisp32 then 4 else 0;
      (ok <==> p + len <= |code|) && (ok ==> disp == DispOf(code[p..p + len]))
  {
    ok, disp := true, 0;
    if mod == 1 {
      if p >= |code| { return false, 0; }
      disp := Signed(code[p], TWO_8);
    } else if mod == 2 || needDisp32 {
      if p + 4 > |code| { return false, 0; }
      disp := Signed(FromLE32(code[p..p + 4]), TWO_32);
    }
  }

  /** The SIB byte after a ModRM byte that asks for one. */
  function SibAfter(code: seq<byte>, p: nat, rm: Bits3): Option<Sib> {
    if rm == 4 && p < |code| then Some(SibOf(code[p])) else None
  }

  /** Base, index and scale, from ModRM and, where there is one, SIB. */
  method DecodeSib(code: seq<byte>, start: nat, mod: Bits2, rm: Bits3, rexX: bool, rexB: bool, ghost rex: Option<Rex>)
    returns (ok: bool, p: nat, ripRel: bool, baseIdx: int, indexIdx: int, scale: nat, needDisp32: bool)
    requires rexX == RexX(rex) && rexB == RexB(rex) && start <= |code| && mod != 3
    ensures ok <==> rm != 4 || start < |code|
    ensures ok ==>
      var sib := SibAfter(code, start, rm);
      && p == (if sib.Some? then start + 1 else start) && needDisp32 == NeedDisp32(mod, rm, sib)
      && Decoded(ripRel, baseIdx, indexIdx, scale, 0) == MeaningOf(mod, rm, sib, rex, 0)
      && -1 <= baseIdx < 16 && -1 <= indexIdx < 16 && (ripRel ==> baseIdx == -1 && indexIdx == -1 && scale == 1)
  {
    ok, p := true, start;
    baseIdx, indexIdx, scale := -1, -1, 1;
    ripRel, needDisp32 := false, false;
    if rm == 4 {
      if p >= |code| { return false, p, ripRel, baseIdx, indexIdx, scale, needDisp32; }
      var sib := code[p];
      p := p + 1;
      scale := ScaleOf(sib / 64);
      var idx, bse := sib / 8 % 8, sib % 8;
      if !(idx == 4 && !rexX) { indexIdx := idx + if rexX then 8 else 0; }
      if bse == 5 && mod == 0 {
        needDisp32 := true;
      } else {
        baseIdx := bse + if rexB then 8 else 0;
      }
    } else if rm == 5 && mod == 0 {
      ripRel := true;
      needDisp32 := true;
    } else {
      baseIdx := rm + if rexB then 8 else 0;
    }
  }

  /** The operand fetched, in the decoder's terms. */
  lemma FetchedMeaning(code: seq<byte>, p: nat, prefixes: seq<byte>, rex: Option<Rex>, opcode: seq<byte>)
    requires p < |code| && code[p] / 64 != 3 && (code[p] % 8 == 4 ==> p + 1 < |code|)
    ensures var mod, rm := code[p] / 64, code[p] % 8;
      var sib := SibAfter(code, p + 1, rm);
      var at, len := if rm == 4 then p + 2 else p + 1, DispLen(mod, rm, sib);
      var f := FetchOperand(code, p, prefixes, rex, opcode);
      && (f.Some? <==> at + len <= |code|)
      && (f.Some? && WellFormed(f.value) ==>
            Meaning(f.value) == MeaningOf(mod, rm, sib, rex, DispOf(code[at..at + len])))
  {
  }

  /** From the ModRM byte on. */
  method DecodeModRm(code: seq<byte>, start: nat, rexX: bool, rexB: bool, regs: Registers, faultAddr: uint64,
                     ghost prefixes: seq<byte>, ghost rex: Option<Rex>, ghost opcode: seq<byte>)
    returns (d: DecodedFault)
    requires rexX == RexX(rex) && rexB == RexB(rex)
    requires var f := FetchOperand(code, start, prefixes, rex, opcode);
      f.Some? ==> WellFormed(f.value) && IsOperand(Meaning(f.value))
    ensures var f := FetchOperand(code, start, prefixes, rex, opcode);
      d == if f.Some? then Answer(Meaning(f.value), regs, faultAddr) else NOT_DECODED
  {
    d := NOT_DECODED;
    if start >= |code| { return; }
    var modrm := code[start];
    var mod, rm := modrm / 64, modrm % 8;
    if mod == 3 { return; }
    var ok, p, ripRel, baseIdx, indexIdx, scale, needDisp32 := DecodeSib(code, start + 1, mod, rm, rexX, rexB, rex);
    if !ok { return; }
    FetchedMeaning(code, start, prefixes, rex, opcode);
    var read, disp := ReadDisp(code, p, mod, needDisp32);
    if !read { return; }
    ghost var m := Meaning(FetchOperand(code, start, prefixes, rex, opcode).value);
    assert m == MeaningOf(mod, rm, SibAfter(code, start + 1, rm), rex, disp);
    assert m == Decoded(ripRel, baseIdx, indexIdx, scale, disp);
    d := Fill(ripRel, baseIdx, indexIdx, scale, disp, regs, faultAddr);
  }

  ghost function Decoded(ripRel: bool, baseIdx: int, indexIdx: int, scale: nat, disp: int): Operand {
    if ripRel then RipRelative(disp)
    else Mem(if baseIdx >= 0 then Some(baseIdx) else None, if indexIdx >= 0 then Some(indexIdx) else None, scale, disp)
  }

  /** The 64-bit sum, reduced after every operation as the machine does. */
  method Address(baseIdx: int, indexIdx: int, scale: nat, disp: int, regs: Registers) returns (ea: uint64)
    requires -1 <= baseIdx < 16 && -1 <= indexIdx < 16 && IsOperand(Decoded(false, baseIdx, indexIdx, scale, disp))
    ensures ea == EffectiveAddress(Decoded(false, baseIdx, indexIdx, scale, disp), regs)
  {
    ea := if baseIdx >= 0 then regs[baseIdx] else 0;
    ghost var base: uint64 := ea;
    var product: nat := 0;
    if indexIdx >= 0 {
      product := regs[indexIdx] * scale;
      ea := Add64(ea, product);
    }
    WrapsOnceAtTheEnd(base, product, disp);
    ea := Add64(ea, disp);
  }

  /** Unsigned 64-bit addition; a negative right operand is its two's complement. */
  function Add64(a: uint64, b: int): uint64 { (a + b % TWO_64) % TWO_64 }

  /** Fills the result from the decoded parts. */
  method Fill(ripRel: bool, baseIdx: int, indexIdx: int, scale: nat, disp: int, regs: Registers, faultAddr: uint64)
    returns (d: DecodedFault)
    requires -1 <= baseIdx < 16 && -1 <= indexIdx < 16
    requires ripRel ==> baseIdx == -1 && indexIdx == -1 && scale == 1
    requires IsOperand(Decoded(ripRel, baseIdx, indexIdx, scale, disp))
    ensures d == Answer(Decoded(ripRel, baseIdx, indexIdx, scale, disp), regs, faultAddr)
  {
    d := NameRegisters(ripRel, baseIdx, indexIdx, scale, disp, regs);
    var operand := BuildOperand(d);
    if ripRel {
      NoAddress(disp, regs, faultAddr);
      d := d.(operand := operand);
    } else {
      var ea := Address(baseIdx, indexIdx, scale, disp, regs);
      WithAddress(Decoded(false, baseIdx, indexIdx, scale, disp), regs, faultAddr);
      d := d.(operand := operand, computedEA := ea, eaMatches := ea == faultAddr);
    }
  }

  lemma WithAddress(m: Operand, regs: Registers, faultAddr: uint64)
    requires IsOperand(m) && m.Mem?
    ensures var n, ea := Named(m, regs), EffectiveAddress(m, regs);
      Answer(m, regs, faultAddr) == n.(operand := OperandText(n), computedEA := ea, eaMatches := ea == faultAddr)
  {
  }

  lemma NoAddress(disp: int, regs: Registers, faultAddr: uint64)
    requires IsOperand(RipRelative(disp))
    ensures var n := Named(RipRelative(disp), regs);
      Answer(RipRelative(disp), regs, faultAddr) == n.(operand := OperandText(n))
  {
  }

  method NameRegisters(ripRel: bool, baseIdx: int, indexIdx: int, scale: nat, disp: int, regs: Registers)
    returns (d: DecodedFault)
    requires -1 <= baseIdx < 16 && -1 <= indexIdx < 16
    requires ripRel ==> baseIdx == -1 && indexIdx == -1 && scale == 1
    requires IsOperand(Decoded(ripRel, baseIdx, indexIdx, scale, disp))
    ensures d == Named(Decoded(ripRel, baseIdx, indexIdx, scale, disp), regs)
    ensures |d.baseReg| <= 3 && |d.indexReg| <= 3 && (d.baseHasReg ==> d.baseReg != "")
  {
    d := NOT_DECODED.(ok := true, ripRelative := ripRel, scale := scale, disp := disp);
    if baseIdx >= 0 {
      ShortName(baseIdx);
      d := d.(baseHasReg := true, baseReg := REG_NAMES[baseIdx], baseValue := regs[baseIdx],
              baseIsNull := regs[baseIdx] == 0);
    }
    if indexIdx >= 0 {
      ShortName(indexIdx);
      d := d.(indexHasReg := true, indexReg := REG_NAMES[indexIdx]);
    }
  }

  lemma ShortName(i: nat)
    requires i < 16
    ensures 0 < |REG_NAMES[i]| <= 3
  {
  }

  /** Reducing after every operation is the same as reducing at the end. */
  lemma WrapsOnceAtTheEnd(base: uint64, product: nat, disp: int)
    ensures Add64(Add64(base, product), disp) == (base + product + disp) % TWO_64
    ensures Add64(base, 0) == base
  {
  }

  // ----- The round trip -----

  /** For every operand and every way of encoding it, whatever bytes follow, the decoder's answer
      is that operand, and its address is base + index * scale + disp modulo 2^64. */
  lemma DecodesWhatWasEncoded(m: Operand, c: Choice, tail: seq<byte>)
    requires Encodable(m, c)
    ensures var code := Serialize(EncodeFields(m, c)) + tail;
      && Fetch(code) == Some(EncodeFields(m, c))
      && WellFormed(Fetch(code).value) && Meaning(Fetch(code).value) == m
  {
    MeaningOfEncoding(m, c);
    FetchSerialized(EncodeFields(m, c), tail);
  }

  /** The linear address per the SDM: an FS or GS override adds a segment base, and an address-size
      override computes in 32 bits. */
  function LinearAddress(m: Operand, regs: Registers, prefixes: seq<byte>, segmentBase: uint64): uint64
    requires IsOperand(m) && m.Mem?
  {
    var base := if m.base.Some? then regs[m.base.value] else 0;
    var index := if m.index.Some? then regs[m.index.value] else 0;
    var offset := if 0x67 in prefixes
                  then (base % TWO_32 + index % TWO_32 * m.scale + m.disp) % TWO_32
                  else (base + index * m.scale + m.disp) % TWO_64;
    if 0x64 in prefixes || 0x65 in prefixes then (segmentBase + offset) % TWO_64 else offset
  }

  lemma Narrow(base: uint64, index: uint64, scale: nat, disp: int)
    requires scale == 1 || scale == 2 || scale == 4 || scale == 8
    ensures (base % TWO_32 + index % TWO_32 * scale + disp) % TWO_32 == (base + index * scale + disp) % TWO_64 % TWO_32
  {
    var b, i := base / TWO_32, index / TWO_32;
    assert base + index * scale + disp == (base % TWO_32 + index % TWO_32 * scale + disp) + TWO_32 * (b + i * scale);
  }

  /** The decoder skips address-size, FS and GS overrides like any other prefix.  Whatever stands
      among the prefixes, its address is the linear one exactly when the segment base that applies is
      the part of the address that a 32-bit computation drops. */
  lemma WhenTheAddressIsLinear(m: Operand, regs: Registers, prefixes: seq<byte>, segmentBase: uint64)
    requires IsOperand(m) && m.Mem?
    ensures var ea := EffectiveAddress(m, regs);
      LinearAddress(m, regs, prefixes, segmentBase) == ea
      <==> (if 0x64 in prefixes || 0x65 in prefixes then segmentBase else 0)
           == (if 0x67 in prefixes then ea - ea % TWO_32 else 0)
  {
    var base := if m.base.Some? then regs[m.base.value] else 0;
    var index := if m.index.Some? then regs[m.index.value] else 0;
    var ea := EffectiveAddress(m, regs);
    assert ea == (base + index * m.scale + m.disp) % TWO_64;
    Narrow(base, index, m.scale, m.disp);
    SegmentAdded(if 0x64 in prefixes || 0x65 in prefixes then segmentBase else 0, ea,
                 if 0x67 in prefixes then ea % TWO_32 else ea);
  }

  /** Adding a segment base to an offset gives the address back exactly when the base is the rest. */
  lemma SegmentAdded(segment: uint64, ea: uint64, offset: uint64)
    requires offset <= ea
    ensures (segment + offset) % TWO_64 == ea <==> segment == ea - offset
  {
    if segment + offset >= TWO_64 { assert (segment + offset) % TWO_64 == segment + offset - TWO_64; }
  }

  /** The decoder answers exactly for the byte strings that begin with an encoded memory operand. */
  lemma DecodesNothingElse(code: seq<byte>)
    ensures Fetch(code).Some? <==>
      exists m: Operand, c: Choice :: Encodable(m, c) && Serialize(EncodeFields(m, c)) <= code
  {
    if Fetch(code).Some? {
      var f := Fetch(code).value;
      FetchIsSerialized(code);
      EncodingOfMeaning(f);
      assert Encodable(Meaning(f), ChoiceOf(f));
    }
    forall m: Operand, c: Choice | Encodable(m, c) && Serialize(EncodeFields(m, c)) <= code
      ensures Fetch(code).Some?
    {
      var bytes := Serialize(EncodeFields(m, c));
      DecodesWhatWasEncoded(m, c, code[|bytes|..]);
      assert bytes + code[|bytes|..] == code;
    }
  }

  // ----- Reading the text of an operand -----

  function RegisterNumber(name: string): Option<nat> {
    match name
    case "RAX" => Some(0)
    case "RCX" => Some(1)
    case "RDX" => Some(2)
    case "RBX" => Some(3)
    case "RSP" => Some(4)
    case "RBP" => Some(5)
    case "RSI" => Some(6)
    case "RDI" => Some(7)
    case "R8" => Some(8)
    case "R9" => Some(9)
    case "R10" => Some(10)
    case "R11" => Some(11)
    case "R12" => Some(12)
    case "R13" => Some(13)
    case "R14" => Some(14)
    case "R15" => Some(15)
    case _ => None
  }

  predicate IsMark(c: char) { c == '+' || c == '-' || c == '*' }

  /** The length of the word before the first mark. */
  function WordLen(s: string): (n: nat)
    ensures n <= |s|
  {
    if s == [] || IsMark(s[0]) then 0 else 1 + WordLen(s[1..])
  }

  /** A displacement: `0x` and digits after a sign; at the start of an operand it may have none. */
  function ReadDispText(s: string, first: bool): Option<int> {
    if s == [] then Some(0)
    else
      var unsigned := if s[0] == '+' || s[0] == '-' then s[1..] else s;
      if (s[0] != '+' && s[0] != '-' && !first) || |unsigned| < 3 || unsigned[..2] != "0x" || !AllHexDigits(unsigned[2..])
      then None
      else Some(if s[0] == '-' then 0 - HexValue(unsigned[2..]) else HexValue(unsigned[2..]))
  }

  /** What follows the base: `REG*d` after a plus, and a displacement. */
  function ReadIndexText(base: Option<nat>, s: string): Option<Operand> {
    var t := if base.Some? && s != [] && s[0] == '+' then s[1..] else s;
    var index, rest := RegisterNumber(t[..WordLen(t)]), t[WordLen(t)..];
    if index.Some? && |rest| >= 2 && rest[0] == '*' && IsDigit(rest[1]) then
      match ReadDispText(rest[2..], false)
      case None => None
      case Some(d) => Some(Mem(base, index, DigitValue(rest[1]), d))
    else
      match ReadDispText(s, base.None?)
      case None => None
      case Some(d) => Some(Mem(base, None, 1, d))
  }

  function ReadInner(s: string): Option<Operand> {
    var word, rest := s[..WordLen(s)], s[WordLen(s)..];
    if word == "RIP" then
      match ReadDispText(rest, false)
      case None => None
      case Some(d) => Some(RipRelative(d))
    else if RegisterNumber(word).Some? && (rest == [] || rest[0] != '*') then ReadIndexText(RegisterNumber(word), rest)
    else ReadIndexText(None, s)
  }

  /** The operand that a text shows, or nothing. */
  function ReadOperandText(s: string): Option<Operand> {
    if |s| < 2 || s[0] != '[' || s[|s| - 1] != ']' then None else ReadInner(s[1..|s| - 1])
  }

  /** An operand without index shows no scale. */
  function Shown(m: Operand): Operand {
    if m.Mem? && m.index.None? then m.(scale := 1) else m
  }

  lemma NameRead(i: nat)
    requires i < 16
    ensures RegisterNumber(REG_NAMES[i]) == Some(i) && REG_NAMES[i] != "RIP"
    ensures forall k :: 0 <= k < |REG_NAMES[i]| ==> !IsMark(REG_NAMES[i][k])
  {
  }

  lemma {:induction false} WordRead(word: string, rest: string)
    requires (forall k :: 0 <= k < |word| ==> !IsMark(word[k])) && (rest == [] || IsMark(rest[0]))
    ensures WordLen(word + rest) == |word|
    ensures (word + rest)[..|word|] == word && (word + rest)[|word|..] == rest
    decreases |word|
  {
    if word == [] {
      assert word + rest == rest;
    } else {
      assert (word + rest)[1..] == word[1..] + rest;
      WordRead(word[1..], rest);
    }
  }

  lemma NotARegister(word: string)
    requires word == [] || word[0] == '0'
    ensures RegisterNumber(word).None? && word != "RIP"
  {
  }

  /** The text of a displacement after something else. */
  function LaterDisp(disp: int): string {
    if disp < 0 then "-0x" + Hex(-disp) else if disp > 0 then "+0x" + Hex(disp) else ""
  }

  lemma HexWord(n: nat)
    ensures ("0x" + Hex(n))[..2] == "0x" && ("0x" + Hex(n))[2..] == Hex(n)
    ensures WordLen("0x" + Hex(n)) == |"0x" + Hex(n)|
  {
    HexRoundTrip(n);
    WordRead("0x" + Hex(n), []);
    assert "0x" + Hex(n) + [] == "0x" + Hex(n);
  }

  lemma SignedReads(sign: char, n: nat, first: bool)
    requires sign == '+' || sign == '-'
    ensures ReadDispText([sign] + ("0x" + Hex(n)), first) == Some(if sign == '-' then 0 - n else n)
  {
    var s := [sign] + ("0x" + Hex(n));
    HexWord(n);
    HexRoundTrip(n);
    assert s[1..] == "0x" + Hex(n);
  }

  lemma UnsignedReads(n: nat)
    ensures ReadDispText("0x" + Hex(n), true) == Some(n)
  {
    HexWord(n);
    HexRoundTrip(n);
  }

  lemma LaterDispReads(disp: int)
    ensures ReadDispText(LaterDisp(disp), false) == Some(disp)
    ensures LaterDisp(disp) == [] || LaterDisp(disp)[0] == '+' || LaterDisp(disp)[0] == '-'
  {
    if disp < 0 {
      SignedReads('-', -disp, false);
      SignBeforeHex(Hex(-disp));
    } else if disp > 0 {
      SignedReads('+', disp, false);
      SignBeforeHex(Hex(disp));
    }
  }

  lemma SignBeforeHex(digits: string)
    ensures "-0x" + digits == ['-'] + ("0x" + digits) && "+0x" + digits == ['+'] + ("0x" + digits)
  {
  }

  /** No index is read where only a displacement follows. */
  lemma NoIndexReads(base: nat, disp: int)
    ensures ReadIndexText(Some(base), LaterDisp(disp)) == Some(Mem(Some(base), None, 1, disp))
  {
    LaterDispReads(disp);
    var s := LaterDisp(disp);
    var t := if s != [] && s[0] == '+' then s[1..] else s;
    if disp > 0 {
      SignBeforeHex(Hex(disp));
      assert t == "0x" + Hex(disp);
      HexWord(disp);
      assert t[..WordLen(t)] == t;
    } else if disp < 0 {
      assert s[0] == '-';
      assert WordLen(t) == 0;
    }
    NotARegister(t[..WordLen(t)]);
  }

  /** An index and what follows it, without the plus. */
  function IndexPart(index: nat, scale: nat, disp: int): string
    requires index < 16 && scale < 10
  {
    REG_NAMES[index] + ("*" + DecimalDigit(scale) + LaterDisp(disp))
  }

  lemma IndexReads(base: Option<nat>, index: nat, scale: nat, disp: int)
    requires index < 16 && 0 < scale < 10
    ensures var s := IndexPart(index, scale, disp);
      ReadIndexText(base, if base.Some? then ['+'] + s else s) == Some(Mem(base, Some(index), scale, disp))
    ensures WordLen(IndexPart(index, scale, disp)) == |REG_NAMES[index]|
    ensures IndexPart(index, scale, disp)[..|REG_NAMES[index]|] == REG_NAMES[index]
    ensures IndexPart(index, scale, disp)[|REG_NAMES[index]|..] == "*" + DecimalDigit(scale) + LaterDisp(disp)
  {
    var s := IndexPart(index, scale, disp);
    var rest := "*" + DecimalDigit(scale) + LaterDisp(disp);
    NameRead(index);
    WordRead(REG_NAMES[index], rest);
    LaterDispReads(disp);
    assert rest[2..] == LaterDisp(disp) && rest[0] == '*' && rest[1] == "0123456789"[scale];
    ScaleDigit(scale);
    assert (['+'] + s)[1..] == s;
    if base.None? { NameFirst(index); }
  }

  lemma ScaleDigit(scale: nat)
    requires scale < 10
    ensures IsDigit("0123456789"[scale]) && DigitValue("0123456789"[scale]) == scale
  {
  }

  /** A name does not begin with a plus. */
  lemma NameFirst(i: nat)
    requires i < 16
    ensures REG_NAMES[i] != [] && REG_NAMES[i][0] != '+'
  {
  }

  /** After a base, RIP or an index a displacement is printed with its sign, or not at all. */
  lemma DispFollows(m: Operand, regs: Registers)
    requires IsOperand(m) && (m.Mem? ==> m.base.Some? || m.index.Some?)
    ensures DispText(Named(m, regs)) == LaterDisp(m.disp)
  {
    if m.Mem? && m.base.Some? { NameFirst(m.base.value); }
  }

  lemma IndexFollows(m: Operand, regs: Registers)
    requires IsOperand(m) && m.Mem? && m.index.Some?
    ensures IndexText(Named(m, regs)) + LaterDisp(m.disp)
         == (if m.base.Some? then ['+'] else []) + IndexPart(m.index.value, m.scale, m.disp)
  {
    if m.base.Some? { NameFirst(m.base.value); }
  }

  /** The text between the brackets. */
  lemma InnerText(m: Operand, regs: Registers)
    requires IsOperand(m)
    ensures var d := Named(m, regs);
      BaseText(d) + IndexText(d) + DispText(d)
      == match m
         case RipRelative(disp) => "RIP" + LaterDisp(disp)
         case Mem(Some(b), None, _, disp) => REG_NAMES[b] + LaterDisp(disp)
         case Mem(Some(b), Some(i), scale, disp) => REG_NAMES[b] + (['+'] + IndexPart(i, scale, disp))
         case Mem(None, Some(i), scale, disp) => IndexPart(i, scale, disp)
         case Mem(None, None, _, disp) => if disp < 0 then LaterDisp(disp) else "0x" + Hex(disp)
  {
    var d := Named(m, regs);
    if m.Mem? && m.base.None? && m.index.None? {
      assert BaseText(d) + IndexText(d) == "";
    } else {
      DispFollows(m, regs);
      if m.Mem? && m.index.Some? {
        IndexFollows(m, regs);
        Regrouped(BaseText(d), IndexText(d), DispText(d));
      } else {
        assert BaseText(d) + IndexText(d) == BaseText(d);
      }
    }
  }

  lemma Regrouped(a: string, b: string, c: string)
    ensures a + b + c == a + (b + c) && [] + c == c
  {
  }

  lemma BaseReads(b: nat, rest: string)
    requires b < 16 && (rest == [] || rest[0] == '+' || rest[0] == '-')
    ensures ReadInner(REG_NAMES[b] + rest) == ReadIndexText(Some(b), rest)
  {
    NameRead(b);
    WordRead(REG_NAMES[b], rest);
  }

  lemma IndexFirstReads(i: nat, scale: nat, disp: int)
    requires i < 16 && 0 < scale < 10
    ensures ReadInner(IndexPart(i, scale, disp)) == Some(Mem(None, Some(i), scale, disp))
  {
    NameRead(i);
    IndexReads(None, i, scale, disp);
  }

  lemma OnlyDispReads(disp: int)
    ensures ReadInner(if disp < 0 then LaterDisp(disp) else "0x" + Hex(disp)) == Some(Mem(None, None, 1, disp))
  {
    if disp < 0 {
      var s := ['-'] + ("0x" + Hex(-disp));
      assert LaterDisp(disp) == s;
      SignedReads('-', -disp, true);
      assert WordLen(s) == 0;
      NotARegister([]);
      assert s[..0] == [];
    } else {
      var s := "0x" + Hex(disp);
      UnsignedReads(disp);
      HexWord(disp);
      NotARegister(s);
      assert s[..WordLen(s)] == s;
    }
  }

  /** The text between the brackets shows the operand. */
  lemma InnerReads(m: Operand, regs: Registers)
    requires IsOperand(m)
    ensures var d := Named(m, regs); ReadInner(BaseText(d) + IndexText(d) + DispText(d)) == Some(Shown(m))
  {
    InnerText(m, regs);
    match m
    case RipRelative(disp) =>
      LaterDispReads(disp);
      WordRead("RIP", LaterDisp(disp));
    case Mem(Some(b), None, _, disp) =>
      LaterDispReads(disp);
      BaseReads(b, LaterDisp(disp));
      NoIndexReads(b, disp);
    case Mem(Some(b), Some(i), scale, disp) =>
      BaseReads(b, ['+'] + IndexPart(i, scale, disp));
      IndexReads(Some(b), i, scale, disp);
    case Mem(None, Some(i), scale, disp) => IndexFirstReads(i, scale, disp);
    case Mem(None, None, _, disp) => OnlyDispReads(disp);
  }

  /** For every operand the printed text, read back, is that operand: base, index, scale where there is
      an index, sign and displacement. */
  lemma OperandReadsBack(m: Operand, regs: Registers, faultAddr: uint64)
    requires IsOperand(m)
    ensures ReadOperandText(Answer(m, regs, faultAddr).operand) == Some(Shown(m))
  {
    InnerReads(m, regs);
    TextInBrackets(Named(m, regs));
  }

  lemma TextInBrackets(d: DecodedFault)
    requires d.scale < 10
    ensures ReadOperandText(OperandText(d)) == ReadInner(BaseText(d) + IndexText(d) + DispText(d))
  {
    var inner := BaseText(d) + IndexText(d) + DispText(d);
    assert OperandText(d) == "[" + inner + "]";
    InBrackets(inner);
  }

  lemma InBrackets(inner: string)
    ensures ReadOperandText("[" + inner + "]") == ReadInner(inner)
  {
    assert ("[" + inner + "]")[1..|inner| + 1] == inner;
  }

  /** The other parts of the answer. */
  lemma AnswerMeans(m: Operand, regs: Registers, faultAddr: uint64)
    requires IsOperand(m)
    ensures var d := Answer(m, regs, faultAddr);
      && d.ok && d.ripRelative == m.RipRelative? && d.disp == m.disp
      && (m.RipRelative? ==> !d.baseHasReg && !d.indexHasReg && !d.eaMatches && d.computedEA == 0)
      && (m.Mem? ==>
            && d.scale == m.scale && d.baseHasReg == m.base.Some? && d.indexHasReg == m.index.Some?
            && (d.baseHasReg ==> RegisterNumber(d.baseReg) == m.base && d.baseValue == regs[m.base.value]
                                 && (d.baseIsNull <==> regs[m.base.value] == 0))
            && (d.indexHasReg ==> RegisterNumber(d.indexReg) == m.index)
            && (d.eaMatches <==> d.computedEA == faultAddr)
            && exists wraps: int :: d.computedEA == (if m.base.Some? then regs[m.base.value] else 0)
                 + (if m.index.Some? then regs[m.index.value] * m.scale else 0) + m.disp + wraps * 0x1_0000_0000_0000_0000)
  {
    if m.Mem? {
      if m.base.Some? { NameRead(m.base.value); }
      if m.index.Some? { NameRead(m.index.value); }
      AddressMeans(m, regs);
    }
  }

  lemma AddressMeans(m: Operand, regs: Registers)
    requires IsOperand(m) && m.Mem?
    ensures exists wraps: int :: EffectiveAddress(m, regs) == (if m.base.Some? then regs[m.base.value] else 0)
              + (if m.index.Some? then regs[m.index.value] * m.scale else 0) + m.disp + wraps * 0x1_0000_0000_0000_0000
  {
    var sum := (if m.base.Some? then regs[m.base.value] else 0)
               + (if m.index.Some? then regs[m.index.value] * m.scale else 0) + m.disp;
    var wraps := -(sum / TWO_64);
    assert sum == sum / TWO_64 * TWO_64 + sum % TWO_64;
    assert EffectiveAddress(m, regs) == sum + wraps * 0x1_0000_0000_0000_0000;
  }

  // ----- Known instructions -----

  /** `mov rax, [rax-0x10]`. */
  lemma NegativeDisplacement()
    ensures var f := Fetch([0x48, 0x8B, 0x40, 0xF0]);
      f.Some? && WellFormed(f.value) && Meaning(f.value) == Mem(Some(0), None, 1, -0x10)
  {
    var code: seq<byte> := [0x48, 0x8B, 0x40, 0xF0];
    assert SkipPrefixes(code, 0) == 0;
    assert code[3..4] == [0xF0];
  }

  /** `mov r9, [r8+r12*4+8]`: REX.R, REX.X and REX.B, SIB and an 8-bit displacement. */
  lemma ExtendedRegisters()
    ensures var f := Fetch([0x4F, 0x8B, 0x4C, 0xA0, 0x08]);
      f.Some? && WellFormed(f.value) && Meaning(f.value) == Mem(Some(8), Some(12), 4, 8)
  {
    var code: seq<byte> := [0x4F, 0x8B, 0x4C, 0xA0, 0x08];
    assert SkipPrefixes(code, 0) == 0;
    assert code[4..5] == [0x08];
  }

  /** `mov rax, [rax+r9*8]`: REX.X alone. */
  lemma ExtendedIndex()
    ensures var f := Fetch([0x4A, 0x8B, 0x04, 0xC8]);
      f.Some? && WellFormed(f.value) && Meaning(f.value) == Mem(Some(0), Some(9), 8, 0)
  {
    var code: seq<byte> := [0x4A, 0x8B, 0x04, 0xC8];
    assert SkipPrefixes(code, 0) == 0;
    assert code[4..4] == [];
  }

  /** `mov ecx, [rip+0x12345678]`. */
  lemma RipRelativeLoad()
    ensures var f := Fetch([0x8B, 0x0D, 0x78, 0x56, 0x34, 0x12]);
      f.Some? && WellFormed(f.value) && Meaning(f.value) == RipRelative(0x1234_5678)
  {
    var code: seq<byte> := [0x8B, 0x0D, 0x78, 0x56, 0x34, 0x12];
    assert SkipPrefixes(code, 0) == 0;
    assert code[2..6] == [0x78, 0x56, 0x34, 0x12];
  }

  /** `movzx eax, byte ptr [0x10]`: a two-byte opcode, and a SIB byte without base and index. */
  lemma AbsoluteAddress()
    ensures var f := Fetch([0x0F, 0xB6, 0x04, 0x25, 0x10, 0x00, 0x00, 0x00]);
      f.Some? && WellFormed(f.value) && Meaning(f.value) == Mem(None, None, 1, 0x10)
  {
    var code: seq<byte> := [0x0F, 0xB6, 0x04, 0x25, 0x10, 0x00, 0x00, 0x00];
    assert SkipPrefixes(code, 0) == 0;
    assert code[4..8] == [0x10, 0x00, 0x00, 0x00];
  }

  /** The prefixes of section 2.1.1 of the SDM, in its four groups. */
  lemma PrefixesOfTheManual(b: byte)
    ensures IsLegacyPrefix(b) <==> b in {0xF0, 0xF2, 0xF3} + {0x2E, 0x36, 0x3E, 0x26, 0x64, 0x65} + {0x66} + {0x67}
  {
  }
}
