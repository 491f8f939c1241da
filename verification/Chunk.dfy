/**
 The format of binary chunks: function prototypes, and the bytes that stand for them.
 */
module Chunk {
  import opened ByteStrings
  import opened Words
  import Binary

  const MAX_ITEMS := 0x400_0000
  const MAX_INT32 := 0x7FFF_FFFF
  const MAX_DEPTH := 200
  const MAX_SHORT := 40
  const OP_COUNT := 83
  const OP_CLOSURE := 79
  const LIM_LINE_DIFF := 0x80
  const MAX_IWTH_ABS := 128
  const ABS_MARK: Byte := 0x80

  type Word = x: int | 0 <= x < 0x1_0000_0000

  type Long = x: int | 0 <= x < 0x1_0000_0000_0000_0000

  // ---------------------------------------------------------------------------------------------
  // Prototypes

  /** A float constant is its 64 bits. */
  datatype Constant = CNil | CFalse | CTrue | CInt(i: int) | CFloat(bits: Long) | CStr(s: Bytes)

  datatype UpvalDesc = UpvalDesc(name: Bytes, inStack: bool, index: Byte, kind: Byte)

  datatype LocVar = LocVar(name: Bytes, startPc: int, endPc: int)

  datatype Proto = Proto(
    source: Bytes, lineDefined: int, lastLine: int, numParams: Byte, isVararg: bool, maxStack: Byte,
    code: seq<Word>, constants: seq<Constant>, upvalues: seq<UpvalDesc>, protos: seq<Proto>,
    lineInfo: seq<int>, locVars: seq<LocVar>)

  function OpCode(w: Word): int {
    w % 128
  }

  function ArgBx(w: Word): int {
    w / 0x8000
  }

  /** validateProto: known opcodes, and closures of existing prototypes. */
  predicate ValidCode(code: seq<Word>, nprotos: nat) {
    forall i :: 0 <= i < |code| ==>
      OpCode(code[i]) < OP_COUNT && (OpCode(code[i]) == OP_CLOSURE ==> ArgBx(code[i]) < nprotos)
  }

  predicate FitsInt(x: int) {
    0 <= x <= MAX_INT32
  }

  predicate FitsStr(s: Bytes) {
    |s| <= MAX_ITEMS
  }

  predicate FitsConstant(k: Constant) {
    (k.CInt? ==> Int64(k.i)) && (k.CStr? ==> FitsStr(k.s))
  }

  /** Within the limits of the format, except for the debug information. */
  predicate FitsCode(p: Proto) {
    && FitsInt(p.lineDefined) && FitsInt(p.lastLine)
    && |p.code| <= MAX_ITEMS && |p.constants| <= MAX_ITEMS && |p.upvalues| <= MAX_ITEMS && |p.protos| <= MAX_ITEMS
    && (forall i :: 0 <= i < |p.constants| ==> FitsConstant(p.constants[i]))
    && ValidCode(p.code, |p.protos|)
  }

  predicate FitsDebug(p: Proto) {
    FitsNames(p) && |p.lineInfo| <= MAX_ITEMS && forall i :: 0 <= i < |p.lineInfo| ==> FitsInt(p.lineInfo[i])
  }

  /** Nested at most n deep, and within the limits at every level. */
  predicate Fits(p: Proto, strip: bool, n: nat)
    decreases p
  {
    (&& n > 0 && FitsCode(p) && (strip || FitsDebug(p))
     && forall i :: 0 <= i < |p.protos| ==> Fits(p.protos[i], strip, n - 1)) == true
  }

  predicate IsInt32(x: int) {
    -0x8000_0000 <= x <= MAX_INT32
  }

  /** Within the limits of the format but for the lines, which are any 32-bit integers, with a source
      name, and nested at most n deep: what a reader can accept. */
  predicate Accepted(p: Proto, n: int)
    decreases p
  {
    (&& n > 0 && FitsCode(p) && FitsNames(p) && p.source != []
     && |p.lineInfo| <= MAX_ITEMS && (forall i :: 0 <= i < |p.lineInfo| ==> IsInt32(p.lineInfo[i]))
     && forall i :: 0 <= i < |p.protos| ==> Accepted(p.protos[i], n - 1)) == true
  }

  predicate FitsNames(p: Proto) {
    && FitsStr(p.source) && |p.locVars| <= MAX_ITEMS
    && (forall i :: 0 <= i < |p.locVars| ==> FitsLocVar(p.locVars[i]))
    && (forall i :: 0 <= i < |p.upvalues| ==> FitsStr(p.upvalues[i].name))
  }

  predicate FitsLocVar(v: LocVar) {
    FitsStr(v.name) && FitsInt(v.startPc) && FitsInt(v.endPc)
  }

  /** No line is negative, at any level. */
  predicate PlainLines(p: Proto)
    decreases p
  {
    (forall i :: 0 <= i < |p.lineInfo| ==> p.lineInfo[i] >= 0) && forall i :: 0 <= i < |p.protos| ==>
        PlainLines(p.protos[i])
  }

  /** What a reader can accept, a printer can print. */
  lemma {:induction false} AcceptedFits(p: Proto, strip: bool, n: nat)
    requires Accepted(p, n) && (strip || PlainLines(p))
    ensures Fits(p, strip, n) && Sized(p) && AllSourced(p)
    decreases p
  {
    forall i | 0 <= i < |p.protos|
      ensures Fits(p.protos[i], strip, n - 1) && Sized(p.protos[i]) && AllSourced(p.protos[i]) {
      AcceptedFits(p.protos[i], strip, n - 1);
    }
  }

  /** Every string and list is one that memory can hold. */
  predicate Sized(p: Proto)
    decreases p
  {
    (&& |p.source| <= MAX_INT && |p.code| <= MAX_INT && |p.constants| <= MAX_INT && |p.upvalues| <= MAX_INT
     && |p.protos| <= MAX_INT && |p.lineInfo| <= MAX_INT && |p.locVars| <= MAX_INT
     && (forall i :: 0 <= i < |p.constants| && p.constants[i].CStr? ==> |p.constants[i].s| <= MAX_INT)
     && (forall i :: 0 <= i < |p.upvalues| ==> |p.upvalues[i].name| <= MAX_INT)
     && (forall i :: 0 <= i < |p.locVars| ==> |p.locVars[i].name| <= MAX_INT)
     && forall i :: 0 <= i < |p.protos| ==> Sized(p.protos[i])) == true
  }

  /** What is left of a source name after loading: an absent one becomes "=?". */
  function Named(source: Bytes): (s: Bytes)
    ensures s == source <==> source != []
  {
    if source == [] then [61, 63] else source
  }

  function Anonymous(uvs: seq<UpvalDesc>): seq<UpvalDesc> {
    seq(|uvs|, i requires 0 <= i < |uvs| => uvs[i].(name := []))
  }

  /** The prototype that loading gives back. */
  function Loaded(p: Proto, strip: bool): Proto
    decreases p
  {
    var protos := seq(|p.protos|, i requires 0 <= i < |p.protos| => Loaded(p.protos[i], strip));
    if strip then p.(source := Named([]), upvalues := Anonymous(p.upvalues), protos := protos, lineInfo := [],
                     locVars := [])
    else p.(source := Named(p.source), protos := protos)
  }

  predicate AllSourced(p: Proto)
    decreases p
  {
    p.source != [] && forall i :: 0 <= i < |p.protos| ==> AllSourced(p.protos[i])
  }

  /** Without stripping, what is lost is an empty source name and nothing else. */
  lemma {:induction false} LoadedSame(p: Proto)
    ensures Loaded(p, false) == p <==> AllSourced(p)
    decreases p
  {
    var protos := Loaded(p, false).protos;
    forall i | 0 <= i < |p.protos| ensures protos[i] == p.protos[i] <==> AllSourced(p.protos[i]) {
      LoadedSame(p.protos[i]);
    }
    if AllSourced(p) { assert protos == p.protos; }
    if Loaded(p, false) == p { assert protos == p.protos; }
  }

  // ---------------------------------------------------------------------------------------------
  // Numbers

  /** Groups of seven bits, the most significant first. */
  function Groups(x: nat): (g: Bytes)
    ensures |g| >= 1 && forall i :: 0 <= i < |g| ==> g[i] < 128
  {
    if x < 128 then [x] else Groups(x / 128) + [x % 128]
  }

  /** What the first n groups denote. */
  function GroupsValue(g: Bytes, n: nat): nat
    requires n <= |g|
  {
    if n == 0 then 0 else 128 * GroupsValue(g, n - 1) + g[n - 1]
  }

  lemma {:induction false} GroupsValuePrefix(g: Bytes, b: Byte, n: nat)
    requires n <= |g|
    ensures GroupsValue(g + [b], n) == GroupsValue(g, n)
    decreases n
  {
    if n > 0 { GroupsValuePrefix(g, b, n - 1); }
  }

  lemma {:induction false} GroupsBack(x: nat)
    ensures GroupsValue(Groups(x), |Groups(x)|) == x
    ensures GroupsValue(Groups(x), |Groups(x)| - 1) == x / 128
    decreases x
  {
    if x >= 128 {
      var g := Groups(x / 128);
      GroupsBack(x / 128);
      GroupsValuePrefix(g, x % 128, |g|);
    }
  }

  /** dumpSize: the last group is marked. */
  function Size(x: nat): (bs: Bytes)
    ensures |bs| >= 1
  {
    var g := Groups(x);
    g[..|g| - 1] + [g[|g| - 1] + 128]
  }

  // ---------------------------------------------------------------------------------------------
  // Strings, constants, descriptors

  function Str(s: Bytes): Bytes {
    Size(|s| + 1) + s
  }

  function Flag(b: bool): Bytes {
    if b then [1] else [0]
  }

  function ConstantTag(k: Constant): Byte {
    match k
    case CNil => 0x00
    case CFalse => 0x01
    case CTrue => 0x11
    case CInt(_) => 0x03
    case CFloat(_) => 0x13
    case CStr(s) => if |s| <= MAX_SHORT then 0x04 else 0x14
  }

  function ConstantBody(k: Constant): Bytes {
    match k
    case CNil => []
    case CFalse => []
    case CTrue => []
    case CInt(i) => Binary.Digits(Unsigned(i), 8)
    case CFloat(bits) => Binary.Digits(bits, 8)
    case CStr(s) => Str(s)
  }

  function ConstantBytes(k: Constant): Bytes {
    [ConstantTag(k)] + ConstantBody(k)
  }

  /** The parts from the i-th on, put together. */
  function From(parts: seq<Bytes>, i: nat): Bytes
    requires i <= |parts|
    decreases |parts| - i
  {
    if i == |parts| then [] else parts[i] + From(parts, i + 1)
  }

  function CodeParts(code: seq<Word>): seq<Bytes> {
    seq(|code|, i requires 0 <= i < |code| => Binary.Digits(code[i], 4))
  }

  function ConstantParts(ks: seq<Constant>): seq<Bytes> {
    seq(|ks|, i requires 0 <= i < |ks| => ConstantBytes(ks[i]))
  }

  function UpvalueParts(uvs: seq<UpvalDesc>): seq<Bytes> {
    seq(|uvs|, i requires 0 <= i < |uvs| => Flag(uvs[i].inStack) + [uvs[i].index] + [uvs[i].kind])
  }

  function NameParts(uvs: seq<UpvalDesc>): seq<Bytes> {
    seq(|uvs|, i requires 0 <= i < |uvs| => Str(uvs[i].name))
  }

  function LocVarBytes(v: LocVar): Bytes {
    Str(v.name) + Size(Clip(v.startPc)) + Size(Clip(v.endPc))
  }

  function LocVarParts(vs: seq<LocVar>): seq<Bytes> {
    seq(|vs|, i requires 0 <= i < |vs| => LocVarBytes(vs[i]))
  }

  function AbsParts(abs: seq<AbsLine>): seq<Bytes> {
    seq(|abs|, i requires 0 <= i < |abs| => AbsBytes(abs[i]))
  }

  function AbsBytes(a: AbsLine): Bytes {
    Size(a.pc) + Size(Clip(a.line))
  }

  /** uint64(v) of an int. */
  function Clip(v: int): nat {
    Unsigned(v)
  }

  /** A counted list. */
  function Counted(parts: seq<Bytes>): Bytes {
    Size(|parts|) + From(parts, 0)
  }

  // ---------------------------------------------------------------------------------------------
  // Line information

  datatype AbsLine = AbsLine(pc: nat, line: int)

  /** byte(int8(d)). */
  function DeltaByte(d: int): Byte {
    d % 256
  }

  /** int(int8(b)). */
  function ByteDelta(b: Byte): int {
    if b < 128 then b else b - 256
  }

  predicate TakesAbs(dif: int, iwthabs: int) {
    dif >= LIM_LINE_DIFF || dif <= -LIM_LINE_DIFF || iwthabs >= MAX_IWTH_ABS
  }

  /** The signed-byte deltas from pc on, given the line before and the instructions since the last
      absolute line. */
  function Deltas(lines: seq<int>, pc: nat, prev: int, iwthabs: int): (bs: Bytes)
    requires pc <= |lines|
    ensures |bs| == |lines| - pc
    decreases |lines| - pc
  {
    if pc == |lines| then []
    else
      var dif := lines[pc] - prev;
      if TakesAbs(dif, iwthabs) then [ABS_MARK] + Deltas(lines, pc + 1, lines[pc], 1)
      else [DeltaByte(dif)] + Deltas(lines, pc + 1, lines[pc], iwthabs + 1)
  }

  function Absolutes(lines: seq<int>, pc: nat, prev: int, iwthabs: int): (abs: seq<AbsLine>)
    requires pc <= |lines|
    ensures |abs| <= |lines| - pc && forall i :: 0 <= i < |abs| ==>
              abs[i].pc < |lines| && abs[i].line == lines[abs[i].pc]
    decreases |lines| - pc
  {
    if pc == |lines| then []
    else
      var dif := lines[pc] - prev;
      if TakesAbs(dif, iwthabs) then [AbsLine(pc, lines[pc])] + Absolutes(lines, pc + 1, lines[pc], 1)
      else Absolutes(lines, pc + 1, lines[pc], iwthabs + 1)
  }

  /** A delta that fits is not the marker, and comes back. */
  lemma DeltaBack(d: int)
    requires -LIM_LINE_DIFF < d < LIM_LINE_DIFF
    ensures DeltaByte(d) != ABS_MARK && ByteDelta(DeltaByte(d)) == d
  {
  }

  function BytesOf(bs: Bytes): seq<Bytes> {
    seq(|bs|, i requires 0 <= i < |bs| => [bs[i]])
  }

  // ---------------------------------------------------------------------------------------------
  // Prototypes as bytes

  function DebugBytes(p: Proto, strip: bool): Bytes {
    if strip then Size(0) + Size(0) + Size(0) + Size(0)
    else
      Counted(BytesOf(Deltas(p.lineInfo, 0, p.lineDefined, 0))) +
      Counted(AbsParts(Absolutes(p.lineInfo, 0, p.lineDefined, 0))) +
      Counted(LocVarParts(p.locVars)) +
      Counted(NameParts(p.upvalues))
  }

  function SourceBytes(p: Proto, strip: bool, parent: Bytes): Bytes {
    if strip || p.source == parent then Size(0) else Str(p.source)
  }

  function HeadBytes(p: Proto): Bytes {
    Size(Clip(p.lineDefined)) + Size(Clip(p.lastLine)) + [p.numParams] + Flag(p.isVararg) + [p.maxStack]
  }

  function ProtoBytes(p: Proto, strip: bool, parent: Bytes): Bytes
    decreases p, 1, 0
  {
    SourceBytes(p, strip, parent) + HeadBytes(p) +
    Counted(CodeParts(p.code)) + Counted(ConstantParts(p.constants)) + Counted(UpvalueParts(p.upvalues)) +
    (Size(|p.protos|) + ProtosFrom(p, strip, 0)) + DebugBytes(p, strip)
  }

  /** The nested prototypes from the i-th on, which inherit the source. */
  function ProtosFrom(p: Proto, strip: bool, i: nat): Bytes
    requires i <= |p.protos|
    decreases p, 0, |p.protos| - i
  {
    if i == |p.protos| then [] else ProtoBytes(p.protos[i], strip, p.source) + ProtosFrom(p, strip, i + 1)
  }

  // The bytes of nested prototypes, passed around as a function: this keeps the verifier from
  // expanding them where they are only put together.

  type Spelling = (Proto, Bytes) -> Bytes

  ghost predicate Spells(f: Spelling, strip: bool) {
    forall p, parent :: Spelled(f, strip, p, parent)
  }

  ghost predicate Spelled(f: Spelling, strip: bool, p: Proto, parent: Bytes) {
    f(p, parent) == ProtoBytes(p, strip, parent)
  }

  ghost function Spell(strip: bool): (f: Spelling)
    ensures Spells(f, strip)
  {
    (p, parent) => ProtoBytes(p, strip, parent)
  }

  ghost function ListFrom(f: Spelling, ps: seq<Proto>, source: Bytes, i: nat): Bytes
    requires i <= |ps|
    decreases |ps| - i
  {
    if i == |ps| then [] else f(ps[i], source) + ListFrom(f, ps, source, i + 1)
  }

  lemma {:induction false} ListSpelled(f: Spelling, p: Proto, strip: bool, i: nat)
    requires Spells(f, strip) && i <= |p.protos|
    ensures ListFrom(f, p.protos, p.source, i) == ProtosFrom(p, strip, i)
    decreases |p.protos| - i
  {
    if i < |p.protos| {
      ListSpelled(f, p, strip, i + 1);
      ProtosSpelled(f, p, strip, i);
      ListUnfolds(f, p.protos, p.source, i);
    } else {
      ProtosEnd(p, strip);
    }
  }

  lemma {:induction false} ListUnfolds(f: Spelling, ps: seq<Proto>, source: Bytes, i: nat)
    requires i < |ps|
    ensures ListFrom(f, ps, source, i) == f(ps[i], source) + ListFrom(f, ps, source, i + 1)
  {
  }

  lemma {:induction false} ProtosSpelled(f: Spelling, p: Proto, strip: bool, i: nat)
    requires Spells(f, strip) && i < |p.protos|
    ensures ProtosFrom(p, strip, i) == f(p.protos[i], p.source) + ProtosFrom(p, strip, i + 1)
  {
    assert Spelled(f, strip, p.protos[i], p.source);
  }

  lemma {:induction false} ProtosEnd(p: Proto, strip: bool)
    ensures ProtosFrom(p, strip, |p.protos|) == []
  {
  }

  /** The bytes of a prototype, one field after the other. */
  lemma ProtoSpelled(f: Spelling, p: Proto, strip: bool, parent: Bytes)
    requires Spells(f, strip)
    ensures f(p, parent) ==
            SourceBytes(p, strip, parent) + HeadBytes(p) +
            Counted(CodeParts(p.code)) + Counted(ConstantParts(p.constants)) + Counted(UpvalueParts(p.upvalues)) +
            (Size(|p.protos|) + ListFrom(f, p.protos, p.source, 0)) + DebugBytes(p, strip)
  {
    assert Spelled(f, strip, p, parent);
    ListSpelled(f, p, strip, 0);
  }

  const SIGNATURE: Bytes := [0x1b, 76, 117, 97]
  const DATA: Bytes := [0x19, 0x93, 13, 10, 0x1a, 10]
  const VERSION: Byte := 0x54
  const FORMAT: Byte := 0
  const CHECK_INT: Long := 0x5678
  const CHECK_NUM: Long := 0x4077_2800_0000_0000     // the bits of 370.5

  function Header(): Bytes {
    SIGNATURE + [VERSION] + [FORMAT] + DATA + [4] + [8] + [8] + Binary.Digits(CHECK_INT, 8)
      + Binary.Digits(CHECK_NUM, 8)
  }

  function CountByte(n: nat): Byte {
    n % 256
  }

  function ChunkBytes(p: Proto, strip: bool): Bytes {
    Header() + [CountByte(|p.upvalues|)] + ProtoBytes(p, strip, [])
  }

  // ---------------------------------------------------------------------------------------------
  // What the numbers of the format stand for

  /** A type of Lua, with its variant above it. */
  function Variant(basic: nat, variant: nat): nat {
    basic + 16 * variant
  }

  /** nil is type 0, booleans are type 1, numbers type 3 and strings type 4; the variants are false and
      true, integer and float, short and long. */
  lemma TagIsVariant(k: Constant)
    ensures ConstantTag(k) ==
            if k.CNil? then Variant(0, 0)
            else if k.CFalse? || k.CTrue? then Variant(1, if k.CTrue? then 1 else 0)
            else if k.CInt? || k.CFloat? then Variant(3, if k.CFloat? then 1 else 0)
            else Variant(4, if |k.s| > MAX_SHORT then 1 else 0)
  {
  }

  /** An instruction with a Bx argument: seven bits of opcode, eight of A, seventeen of Bx. */
  lemma InstructionFields(op: nat, a: nat, bx: nat)
    requires op < 0x80 && a < 0x100 && bx < 0x2_0000
    ensures var w: Word := op + 0x80 * a + 0x8000 * bx; OpCode(w) == op && ArgBx(w) == bx
  {
  }

  /** Words are little-endian. */
  lemma WordWorth(w: Word, n: Long)
    ensures Binary.LittleEndian(Binary.Digits(w, 4)) == w && Binary.LittleEndian(Binary.Digits(n, 8)) == n
  {
    Binary.PowSmall();
    Binary.LittleNumber(Binary.Digits(w, 4));
    Binary.LittleNumber(Binary.Digits(n, 8));
    Binary.NumberOfDigits(w, 4);
    Binary.NumberOfDigits(n, 8);
  }

  /** Escape and Lua, version 5.4, the line ends that transfers spoil, and the number 370.5, as a sign,
      eleven bits of exponent in excess 1023 and the fraction of a mantissa of 53 bits. */
  lemma HeaderNumbers()
    ensures SIGNATURE == [27, 'L' as int, 'u' as int, 'a' as int] && VERSION == 16 * 5 + 4
    ensures DATA == [0x19, 0x93, '\r' as int, '\n' as int, 0x1a, '\n' as int]
    ensures var two52 := 0x10_0000_0000_0000; var e, m := CHECK_NUM / two52 - 1023, CHECK_NUM % two52;
            e == 8 && 2 * (two52 + m) == 741 * (two52 / 0x100)     // 2 * (1 + m / 2^52) * 2^8 == 741
  {
  }

  /** A delta is a signed byte. */
  lemma DeltaIsSigned(d: int)
    requires -128 <= d < 128
    ensures DeltaByte(d) == if d >= 0 then d else 256 + d
  {
  }
}
