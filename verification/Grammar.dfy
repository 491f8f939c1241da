/**
 The grammar of binary chunks: which bytes stand for which prototype, and why others are refused. The
 printed form of a prototype stands for that prototype, whatever follows it, and whatever bytes stand
 for a prototype, it is a valid one.
 */
module Grammar {
  import opened Options
  import opened ByteStrings
  import opened Words
  import Binary
  import opened Chunk

  datatype Error = Fine | Truncated | Malformed

  type Fault = e: Error | !e.Fine? witness Truncated

  /** The value that the bytes begin with, and what follows it; or why there is none. */
  datatype Parsed<+T> = Got(value: T, rest: Bytes) | Refused(why: Fault) {
    predicate IsFailure() {
      Refused?
    }

    function PropagateFailure<U>(): Parsed<U>
      requires Refused?
    {
      Refused(why)
    }

    function Extract(): (T, Bytes)
      requires Got?
    {
      (value, rest)
    }
  }

  type Rule<T> = Bytes -> Parsed<T>

  // ---------------------------------------------------------------------------------------------
  // Numbers

  /** 2^57 - 1: a varint is refused once this much has been read and more is to come. */
  const LIMIT := 0x1FF_FFFF_FFFF_FFFF

  /** What the first n bytes denote, as groups of seven bits. */
  function Bits(z: Bytes, n: nat): nat
    requires n <= |z|
  {
    if n == 0 then 0 else 128 * Bits(z, n - 1) + z[n - 1] % 128
  }

  /** The first n bytes are a number that can be read: the last one is marked, and no other, and
      what comes before it is not too large. */
  predicate Legible(z: Bytes, n: nat) {
    0 < n <= |z| && z[n - 1] >= 128 && (forall i :: 0 <= i < n - 1 ==> z[i] < 128) && Bits(z, n - 1) < LIMIT
  }

  lemma {:induction false} BitsGrow(z: Bytes, i: nat, n: nat)
    requires i <= n <= |z|
    ensures Bits(z, i) <= Bits(z, n)
    decreases n
  {
    if i < n { BitsGrow(z, i, n - 1); }
  }

  lemma {:induction false} BitsAre(z: Bytes, g: Bytes, n: nat)
    requires n <= |z| && n <= |g| && forall i :: 0 <= i < n ==> z[i] % 128 == g[i]
    ensures Bits(z, n) == GroupsValue(g, n)
    decreases n
  {
    if n > 0 { BitsAre(z, g, n - 1); }
  }

  /** The input goes on after a number that is already too large. */
  predicate Overflows(z: Bytes, n: nat) {
    n < |z| && (forall i :: 0 <= i < n ==> z[i] < 128) && Bits(z, n) >= LIMIT
  }

  ghost function ParseNumber(z: Bytes): Parsed<nat> {
    if exists n: nat :: Legible(z, n) then
      var n: nat :| Legible(z, n);
      Got(Bits(z, n), z[n..])
    else if exists n: nat :: Overflows(z, n) then Refused(Malformed)
    else Refused(Truncated)
  }

  lemma NumberIs(z: Bytes, n: nat)
    requires Legible(z, n)
    ensures ParseNumber(z) == Got(Bits(z, n), z[n..])
  {
    var m: nat :| Legible(z, m) && ParseNumber(z) == Got(Bits(z, m), z[m..]);
    assert m == n;
  }

  lemma NumberTooLarge(z: Bytes, n: nat)
    requires Overflows(z, n)
    ensures ParseNumber(z) == Refused(Malformed)
  {
    forall m: nat | Legible(z, m) ensures false { BitsGrow(z, n, m - 1); }
  }

  /** Nothing but groups to come before the end. */
  lemma NumberCut(z: Bytes)
    requires forall i :: 0 <= i < |z| ==> z[i] < 128
    requires |z| > 0 ==> Bits(z, |z| - 1) < LIMIT
    ensures ParseNumber(z) == Refused(Truncated)
  {
    forall n: nat | Overflows(z, n) ensures false { BitsGrow(z, n, |z| - 1); }
  }

  lemma {:induction false} SizeBits(x: nat, rest: Bytes)
    ensures var z, n := Size(x) + rest, |Size(x)|;
            && Bits(z, n) == x && z[n..] == rest && z[n - 1] >= 128 && (forall i :: 0 <= i < n - 1 ==> z[i] < 128)
            && Bits(z, n - 1) == x / 128
  {
    var g, z, n := Groups(x), Size(x) + rest, |Size(x)|;
    GroupsBack(x);
    BitsAre(z, g, n);
    BitsAre(z, g, n - 1);
  }

  /** A number that was written is read as itself if it is below the limit, and refused otherwise. */
  lemma {:induction false} NumberPrinted(x: nat, rest: Bytes)
    ensures ParseNumber(Size(x) + rest) == if x < LIMIT * 128 then Got(x, rest) else Refused(Malformed)
  {
    var z, n := Size(x) + rest, |Size(x)|;
    SizeBits(x, rest);
    if x < LIMIT * 128 {
      NumberIs(z, n);
    } else {
      NumberTooLarge(z, n - 1);
    }
  }

  ghost function AtMost(limit: nat, z: Bytes): (o: Parsed<nat>)
    ensures o.Got? ==> o.value <= limit
  {
    var (n, z1) :- ParseNumber(z);
    if n <= limit then Got(n, z1) else Refused(Malformed)
  }

  ghost function ParseCount(z: Bytes): Parsed<nat> {
    AtMost(MAX_ITEMS, z)
  }

  ghost function ParseInt(z: Bytes): Parsed<nat> {
    AtMost(MAX_INT32, z)
  }

  // ---------------------------------------------------------------------------------------------
  // Bytes, words and strings

  function Take(n: nat, z: Bytes): (o: Parsed<Bytes>)
    ensures o.Got? ==> |o.value| == n
  {
    if n <= |z| then Got(z[..n], z[n..]) else Refused(Truncated)
  }

  function ParseByte(z: Bytes): Parsed<Byte> {
    var (b, z1) :- Take(1, z);
    Got(b[0], z1)
  }

  function ParseWord(z: Bytes): Parsed<Word> {
    var (b, z1) :- Take(4, z);
    Binary.PowSmall();
    Got(Binary.Number(b), z1)
  }

  function ParseLong(z: Bytes): Parsed<Long> {
    var (b, z1) :- Take(8, z);
    Binary.PowSmall();
    Got(Binary.Number(b), z1)
  }

  /** A string, or the null one. */
  ghost function ParseText(z: Bytes): (o: Parsed<Option<Bytes>>)
    ensures o.Got? && o.value.Some? ==> FitsStr(o.value.value)
  {
    var (size, z1) :- ParseNumber(z);
    if size == 0 then Got(None, z1)
    else if size - 1 > MAX_ITEMS then Refused(Malformed)
    else
      var (s, z2) :- Take(size - 1, z1);
      Got(Some(s), z2)
  }

  function OrElse(s: Option<Bytes>, other: Bytes): Bytes {
    if s.Some? then s.value else other
  }

  ghost function ParseString(z: Bytes): (o: Parsed<Bytes>)
    ensures o.Got? ==> FitsStr(o.value)
  {
    var (s, z1) :- ParseText(z);
    Got(OrElse(s, []), z1)
  }

  // ---------------------------------------------------------------------------------------------
  // Lists

  ghost function Many<T>(rule: Rule<T>, n: nat, z: Bytes): (o: Parsed<seq<T>>)
    ensures o.Got? ==> |o.value| == n
  {
    if n == 0 then Got([], z)
    else
      var (xs, z1) :- Many(rule, n - 1, z);
      var (x, z2) :- rule(z1);
      Got(xs + [x], z2)
  }

  ghost function Listed<T>(rule: Rule<T>, z: Bytes): (o: Parsed<seq<T>>)
    ensures o.Got? ==> |o.value| <= MAX_ITEMS
  {
    var (n, z1) :- ParseCount(z);
    Many(rule, n, z1)
  }

  /** The rule reads b as x, whatever follows. */
  ghost predicate Reads<T(!new)>(rule: Rule<T>, b: Bytes, x: T) {
    forall rest :: ReadsBefore(rule, b, x, rest)
  }

  ghost predicate ReadsBefore<T(!new)>(rule: Rule<T>, b: Bytes, x: T, rest: Bytes) {
    rule(b + rest) == Got(x, rest)
  }

  ghost predicate ReadsEach<T(!new)>(rule: Rule<T>, parts: seq<Bytes>, xs: seq<T>) {
    |parts| == |xs| && forall i :: 0 <= i < |xs| ==> Reads(rule, parts[i], xs[i])
  }

  lemma Assoc(a: Bytes, b: Bytes, c: Bytes)
    ensures (a + b) + c == a + (b + c)
  {
  }

  lemma {:induction false} ManyRead<T(!new)>(rule: Rule<T>, parts: seq<Bytes>, xs: seq<T>, n: nat, rest: Bytes)
    requires ReadsEach(rule, parts, xs) && n <= |xs|
    ensures Many(rule, n, From(parts, 0) + rest) == Got(xs[..n], From(parts, n) + rest)
    decreases n
  {
    if n > 0 {
      ManyRead(rule, parts, xs, n - 1, rest);
      Assoc(parts[n - 1], From(parts, n), rest);
      assert Reads(rule, parts[n - 1], xs[n - 1]);
      assert ReadsBefore(rule, parts[n - 1], xs[n - 1], From(parts, n) + rest);
      assert xs[..n] == xs[..n - 1] + [xs[n - 1]];
    }
  }

  lemma {:induction false} ListRead<T(!new)>(rule: Rule<T>, parts: seq<Bytes>, xs: seq<T>, rest: Bytes)
    requires ReadsEach(rule, parts, xs) && |xs| <= MAX_ITEMS
    ensures Listed(rule, Counted(parts) + rest) == Got(xs, rest)
  {
    var n := |xs|;
    Assoc(Size(n), From(parts, 0), rest);
    NumberPrinted(n, From(parts, 0) + rest);
    ManyRead(rule, parts, xs, n, rest);
    assert xs[..n] == xs && From(parts, n) + rest == rest;
  }

  ghost predicate Gives<T(!new)>(rule: Rule<T>, p: T -> bool) {
    forall z :: GivesAt(rule, p, z)
  }

  ghost predicate GivesAt<T(!new)>(rule: Rule<T>, p: T -> bool, z: Bytes) {
    rule(z).Got? ==> p(rule(z).value)
  }

  lemma {:induction false} ManyGiven<T(!new)>(rule: Rule<T>, p: T -> bool, n: nat, z: Bytes)
    requires Gives(rule, p) && Many(rule, n, z).Got?
    ensures forall i :: 0 <= i < n ==> p(Many(rule, n, z).value[i])
    decreases n
  {
    if n > 0 {
      ManyGiven(rule, p, n - 1, z);
      assert GivesAt(rule, p, Many(rule, n - 1, z).rest);
    }
  }

  // ---------------------------------------------------------------------------------------------
  // The items of lists

  ghost function ParseConstant(z: Bytes): (o: Parsed<Constant>)
    ensures o.Got? ==> FitsConstant(o.value)
  {
    var (tag, z1) :- ParseByte(z);
    ParseBody(tag, z1)
  }

  ghost function ParseBody(tag: Byte, z: Bytes): (o: Parsed<Constant>)
    ensures o.Got? ==> FitsConstant(o.value)
  {
    if tag == 0x00 then Got(CNil, z)
    else if tag == 0x01 then Got(CFalse, z)
    else if tag == 0x11 then Got(CTrue, z)
    else if tag == 0x13 then
      var (w, z1) :- ParseLong(z);
      Got(CFloat(w), z1)
    else if tag == 0x03 then
      var (w, z1) :- ParseLong(z);
      Got(CInt(Signed(w)), z1)
    else if tag == 0x04 || tag == 0x14 then
      var (s, z1) :- ParseString(z);
      Got(CStr(s), z1)
    else Refused(Malformed)
  }

  function ParseUpvalue(z: Bytes): Parsed<UpvalDesc> {
    var (inStack, z1) :- ParseByte(z);
    var (index, z2) :- ParseByte(z1);
    var (kind, z3) :- ParseByte(z2);
    Got(UpvalDesc([], inStack != 0, index, kind), z3)
  }

  ghost function ParseAbsLine(z: Bytes): Parsed<AbsLine> {
    var (pc, z1) :- ParseInt(z);
    var (line, z2) :- ParseInt(z1);
    Got(AbsLine(pc, line), z2)
  }

  ghost function ParseLocVar(z: Bytes): (o: Parsed<LocVar>)
    ensures o.Got? ==> FitsLocVar(o.value)
  {
    var (name, z1) :- ParseString(z);
    var (startPc, z2) :- ParseInt(z1);
    var (endPc, z3) :- ParseInt(z2);
    Got(LocVar(name, startPc, endPc), z3)
  }

  lemma {:induction false} StringRead(s: Bytes, rest: Bytes)
    requires FitsStr(s)
    ensures ParseText(Str(s) + rest) == Got(Some(s), rest)
    ensures ParseString(Str(s) + rest) == Got(s, rest)
  {
    Assoc(Size(|s| + 1), s, rest);
    NumberPrinted(|s| + 1, s + rest);
  }

  lemma {:induction false} NullRead(rest: Bytes)
    ensures ParseText(Size(0) + rest) == Got(None, rest)
  {
    NumberPrinted(0, rest);
  }

  lemma {:induction false} IntRead(x: int, rest: Bytes)
    requires FitsInt(x)
    ensures ParseInt(Size(Clip(x)) + rest) == Got(x, rest)
  {
    NumberPrinted(x, rest);
  }

  lemma ByteRead(b: Byte, rest: Bytes)
    ensures ParseByte([b] + rest) == Got(b, rest)
  {
  }

  lemma {:induction false} WordRead(w: Word, rest: Bytes)
    ensures ParseWord(Binary.Digits(w, 4) + rest) == Got(w, rest)
  {
    Binary.PowSmall();
    Binary.NumberOfDigits(w, 4);
  }

  lemma {:induction false} LongRead(w: Long, rest: Bytes)
    ensures ParseLong(Binary.Digits(w, 8) + rest) == Got(w, rest)
  {
    Binary.PowSmall();
    Binary.NumberOfDigits(w, 8);
  }

  lemma {:induction false} BodyRead(k: Constant, rest: Bytes)
    requires FitsConstant(k)
    ensures ParseBody(ConstantTag(k), ConstantBody(k) + rest) == Got(k, rest)
  {
    match k {
      case CNil => assert ConstantBody(k) + rest == rest;
      case CFalse => assert ConstantBody(k) + rest == rest;
      case CTrue => assert ConstantBody(k) + rest == rest;
      case CInt(i) =>
        SignedUnsigned(i);
        LongRead(Unsigned(i), rest);
      case CFloat(bits) => LongRead(bits, rest);
      case CStr(s) => StringRead(s, rest);
    }
  }

  lemma {:induction false} ConstantRead(k: Constant, rest: Bytes)
    requires FitsConstant(k)
    ensures ParseConstant(ConstantBytes(k) + rest) == Got(k, rest)
  {
    Assoc([ConstantTag(k)], ConstantBody(k), rest);
    ByteRead(ConstantTag(k), ConstantBody(k) + rest);
    BodyRead(k, rest);
  }

  lemma UpvalueRead(u: UpvalDesc, rest: Bytes)
    ensures ParseUpvalue(Flag(u.inStack) + [u.index] + [u.kind] + rest) == Got(u.(name := []), rest)
  {
    var b := Flag(u.inStack)[0];
    assert Flag(u.inStack) + [u.index] + [u.kind] + rest == [b] + ([u.index] + ([u.kind] + rest));
    ByteRead(b, [u.index] + ([u.kind] + rest));
    ByteRead(u.index, [u.kind] + rest);
    ByteRead(u.kind, rest);
  }

  lemma {:induction false} AbsLineRead(a: AbsLine, rest: Bytes)
    requires FitsInt(a.pc) && FitsInt(a.line)
    ensures ParseAbsLine(AbsBytes(a) + rest) == Got(a, rest)
  {
    Assoc(Size(a.pc), Size(Clip(a.line)), rest);
    IntRead(a.pc, Size(Clip(a.line)) + rest);
    IntRead(a.line, rest);
  }

  lemma {:induction false} LocVarRead(v: LocVar, rest: Bytes)
    requires FitsLocVar(v)
    ensures ParseLocVar(LocVarBytes(v) + rest) == Got(v, rest)
  {
    var b2, b3 := Size(Clip(v.startPc)), Size(Clip(v.endPc));
    Assoc(Str(v.name) + b2, b3, rest);
    Assoc(Str(v.name), b2, b3 + rest);
    StringRead(v.name, b2 + (b3 + rest));
    IntRead(v.startPc, b3 + rest);
    IntRead(v.endPc, rest);
  }

  lemma {:induction false} CodeRead(code: seq<Word>, rest: Bytes)
    requires |code| <= MAX_ITEMS
    ensures Listed(ParseWord, Counted(CodeParts(code)) + rest) == Got(code, rest)
  {
    forall i, r | 0 <= i < |code| ensures ReadsBefore(ParseWord, CodeParts(code)[i], code[i], r) {
      WordRead(code[i], r);
    }
    ListRead(ParseWord, CodeParts(code), code, rest);
  }

  lemma {:induction false} ConstantsRead(ks: seq<Constant>, rest: Bytes)
    requires |ks| <= MAX_ITEMS && forall i :: 0 <= i < |ks| ==> FitsConstant(ks[i])
    ensures Listed(ParseConstant, Counted(ConstantParts(ks)) + rest) == Got(ks, rest)
  {
    forall i, r | 0 <= i < |ks| ensures ReadsBefore(ParseConstant, ConstantParts(ks)[i], ks[i], r) {
      ConstantRead(ks[i], r);
    }
    ListRead(ParseConstant, ConstantParts(ks), ks, rest);
  }

  lemma {:induction false} UpvaluesRead(uvs: seq<UpvalDesc>, rest: Bytes)
    requires |uvs| <= MAX_ITEMS
    ensures Listed(ParseUpvalue, Counted(UpvalueParts(uvs)) + rest) == Got(Anonymous(uvs), rest)
  {
    forall i, r | 0 <= i < |uvs| ensures ReadsBefore(ParseUpvalue, UpvalueParts(uvs)[i], Anonymous(uvs)[i], r) {
      UpvalueRead(uvs[i], r);
    }
    ListRead(ParseUpvalue, UpvalueParts(uvs), Anonymous(uvs), rest);
  }

  lemma {:induction false} LineInfoRead(info: Bytes, rest: Bytes)
    requires |info| <= MAX_ITEMS
    ensures Listed(ParseByte, Counted(BytesOf(info)) + rest) == Got(info, rest)
  {
    forall i, r | 0 <= i < |info| ensures ReadsBefore(ParseByte, BytesOf(info)[i], info[i], r) {
      ByteRead(info[i], r);
    }
    ListRead(ParseByte, BytesOf(info), info, rest);
  }

  lemma {:induction false} AbsRead(abs: seq<AbsLine>, rest: Bytes)
    requires |abs| <= MAX_ITEMS && forall i :: 0 <= i < |abs| ==> FitsInt(abs[i].pc) && FitsInt(abs[i].line)
    ensures Listed(ParseAbsLine, Counted(AbsParts(abs)) + rest) == Got(abs, rest)
  {
    forall i, r | 0 <= i < |abs| ensures ReadsBefore(ParseAbsLine, AbsParts(abs)[i], abs[i], r) {
      AbsLineRead(abs[i], r);
    }
    ListRead(ParseAbsLine, AbsParts(abs), abs, rest);
  }

  lemma {:induction false} LocVarsRead(vs: seq<LocVar>, rest: Bytes)
    requires |vs| <= MAX_ITEMS && forall i :: 0 <= i < |vs| ==> FitsLocVar(vs[i])
    ensures Listed(ParseLocVar, Counted(LocVarParts(vs)) + rest) == Got(vs, rest)
  {
    forall i, r | 0 <= i < |vs| ensures ReadsBefore(ParseLocVar, LocVarParts(vs)[i], vs[i], r) {
      LocVarRead(vs[i], r);
    }
    ListRead(ParseLocVar, LocVarParts(vs), vs, rest);
  }

  // ---------------------------------------------------------------------------------------------
  // Line information

  /** The conversion int32(x). */
  function Int32(x: int): (i: int)
    ensures IsInt32(i) && (IsInt32(x) ==> i == x)
  {
    (x + 0x8000_0000) % 0x1_0000_0000 - 0x8000_0000
  }

  /** What compressLines makes of the 32-bit lines. */
  ghost predicate Compressed(lineinfo: Bytes, abs: seq<AbsLine>, lineDefined: int, lines: seq<int>) {
    && (forall i :: 0 <= i < |lines| ==> IsInt32(lines[i]))
    && lineinfo == Deltas(lines, 0, lineDefined, 0) && abs == Absolutes(lines, 0, lineDefined, 0)
  }

  /** What the two lists say about the next line. */
  lemma LineStep(info: Bytes, abs: seq<AbsLine>, lines: seq<int>, pc: nat, prev: int, iwthabs: int, a: nat)
    requires pc < |info| == |lines| && a <= |abs|
    requires info[pc..] == Deltas(lines, pc, prev, iwthabs) && abs[a..] == Absolutes(lines, pc, prev, iwthabs)
    ensures info[pc] == ABS_MARK ==>
              && a < |abs| && abs[a] == AbsLine(pc, lines[pc])
              && info[pc + 1..] == Deltas(lines, pc + 1, lines[pc], 1)
              && abs[a + 1..] == Absolutes(lines, pc + 1, lines[pc], 1)
    ensures info[pc] != ABS_MARK ==>
              && prev + ByteDelta(info[pc]) == lines[pc]
              && info[pc + 1..] == Deltas(lines, pc + 1, lines[pc], iwthabs + 1)
              && abs[a..] == Absolutes(lines, pc + 1, lines[pc], iwthabs + 1)
  {
    var dif := lines[pc] - prev;
    assert info[pc] == info[pc..][0] && info[pc + 1..] == info[pc..][1..];
    if TakesAbs(dif, iwthabs) {
      assert abs[a] == abs[a..][0] && abs[a + 1..] == abs[a..][1..];
    } else {
      DeltaBack(dif);
    }
  }

  /** The number of markers among the first n bytes. */
  function Marks(info: Bytes, n: nat): nat
    requires n <= |info|
  {
    if n == 0 then 0 else Marks(info, n - 1) + if info[n - 1] == ABS_MARK then 1 else 0
  }

  predicate Entered(info: Bytes, abs: seq<AbsLine>, pc: nat)
    requires pc < |info|
  {
    info[pc] == ABS_MARK ==> Marks(info, pc) < |abs| && abs[Marks(info, pc)].pc == pc
  }

  /** Every marker has its absolute entry, and there are no other entries. */
  predicate Paired(info: Bytes, abs: seq<AbsLine>) {
    Marks(info, |info|) == |abs| && forall pc :: 0 <= pc < |info| ==> Entered(info, abs, pc)
  }

  /** The line after the first n deltas: that of the last marker's entry, and the deltas since. */
  function LineAfter(info: Bytes, abs: seq<AbsLine>, lineDefined: int, n: nat): int
    requires n <= |info| && Marks(info, n) <= |abs|
  {
    if n == 0 then lineDefined
    else if info[n - 1] == ABS_MARK then abs[Marks(info, n - 1)].line
    else LineAfter(info, abs, lineDefined, n - 1) + ByteDelta(info[n - 1])
  }

  predicate LineIs(line: int, info: Bytes, abs: seq<AbsLine>, lineDefined: int, pc: nat)
    requires pc < |info|
  {
    Marks(info, pc + 1) <= |abs| && line == Int32(LineAfter(info, abs, lineDefined, pc + 1))
  }

  /** out has the lines of the first n instructions. */
  predicate LinesAre(out: seq<int>, info: Bytes, abs: seq<AbsLine>, lineDefined: int, n: nat)
    requires n <= |info|
  {
    |out| == n && forall k :: 0 <= k < n ==> LineIs(out[k], info, abs, lineDefined, k)
  }

  /** Compressed lines are well paired and give the lines back. */
  lemma LinesBack(lineinfo: Bytes, abs: seq<AbsLine>, lineDefined: int, lines: seq<int>)
    requires Compressed(lineinfo, abs, lineDefined, lines)
    ensures Paired(lineinfo, abs) && LinesAre(lines, lineinfo, abs, lineDefined, |lineinfo|)
  {
    assert lineinfo[0..] == lineinfo && abs[0..] == abs;
    LinesFrom(lineinfo, abs, lineDefined, lines, 0, 0);
  }

  lemma LineNext(info: Bytes, abs: seq<AbsLine>, lineDefined: int, pc: nat, line: int)
    requires pc < |info| && Marks(info, pc) <= |abs|
    requires info[pc] == ABS_MARK ==> Marks(info, pc) < |abs| && abs[Marks(info, pc)] == AbsLine(pc, line)
    requires info[pc] != ABS_MARK ==> LineAfter(info, abs, lineDefined, pc) + ByteDelta(info[pc]) == line
    ensures Marks(info, pc + 1) == Marks(info, pc) + if info[pc] == ABS_MARK then 1 else 0
    ensures Marks(info, pc + 1) <= |abs| && LineAfter(info, abs, lineDefined, pc + 1) == line && Entered(info, abs, pc)
  {
  }

  lemma {:induction false} LinesFrom(info: Bytes, abs: seq<AbsLine>, lineDefined: int, lines: seq<int>, pc: nat,
                                     iwthabs: int)
    requires pc <= |info| == |lines| && Marks(info, pc) <= |abs| && forall i :: 0 <= i < |lines| ==> IsInt32(lines[i])
    requires var prev, a := LineAfter(info, abs, lineDefined, pc), Marks(info, pc);
             info[pc..] == Deltas(lines, pc, prev, iwthabs) && abs[a..] == Absolutes(lines, pc, prev, iwthabs)
    ensures Marks(info, |info|) == |abs|
    ensures forall k :: pc <= k < |info| ==> Entered(info, abs, k) && LineIs(lines[k], info, abs, lineDefined, k)
    decreases |info| - pc
  {
    if pc < |info| {
      LineStep(info, abs, lines, pc, LineAfter(info, abs, lineDefined, pc), iwthabs, Marks(info, pc));
      LineNext(info, abs, lineDefined, pc, lines[pc]);
      LinesFrom(info, abs, lineDefined, lines, pc + 1, if info[pc] == ABS_MARK then 1 else iwthabs + 1);
    }
  }

  lemma {:induction false} MarksGrow(info: Bytes, i: nat, n: nat)
    requires i <= n <= |info|
    ensures Marks(info, i) <= Marks(info, n)
    decreases n
  {
    if i < n { MarksGrow(info, i, n - 1); }
  }

  /** The lines of well paired deltas and entries. */
  ghost function Decompressed(info: Bytes, abs: seq<AbsLine>, lineDefined: int): seq<int>
    requires Paired(info, abs)
  {
    seq(|info|, k requires 0 <= k < |info| =>
      (MarksGrow(info, k + 1, |info|); Int32(LineAfter(info, abs, lineDefined, k + 1))))
  }

  lemma DecompressedIs(out: seq<int>, info: Bytes, abs: seq<AbsLine>, lineDefined: int)
    requires Paired(info, abs)
    ensures out == Decompressed(info, abs, lineDefined) <==> LinesAre(out, info, abs, lineDefined, |info|)
  {
    var lines := Decompressed(info, abs, lineDefined);
    forall k | 0 <= k < |info| ensures LineIs(lines[k], info, abs, lineDefined, k) {
      MarksGrow(info, k + 1, |info|);
    }
    if LinesAre(out, info, abs, lineDefined, |info|) {
      forall k | 0 <= k < |info| ensures out[k] == lines[k] { assert LineIs(out[k], info, abs, lineDefined, k); }
    }
  }

  // ---------------------------------------------------------------------------------------------
  // Debug information

  datatype Debug = Debug(lineInfo: seq<int>, locVars: seq<LocVar>, upvalues: seq<UpvalDesc>)

  function WithNames(uvs: seq<UpvalDesc>, names: seq<Bytes>): seq<UpvalDesc>
    requires |names| == |uvs|
  {
    seq(|uvs|, i requires 0 <= i < |uvs| => uvs[i].(name := names[i]))
  }

  /** The names of the upvalues: none, or exactly as many as there are upvalues. */
  ghost function ParseNames(uvs: seq<UpvalDesc>, z: Bytes): Parsed<seq<UpvalDesc>> {
    var (n, z1) :- ParseCount(z);
    if n == 0 then Got(uvs, z1)
    else if n != |uvs| then Refused(Malformed)
    else
      var (names, z2) :- Many(ParseString, n, z1);
      Got(WithNames(uvs, names), z2)
  }

  ghost function ParseLines(info: Bytes, abs: seq<AbsLine>, lineDefined: int, z: Bytes): Parsed<seq<int>> {
    if info == [] then Got([], z)
    else if Paired(info, abs) then Got(Decompressed(info, abs, lineDefined), z)
    else Refused(Malformed)
  }

  ghost function ParseDebug(lineDefined: int, uvs: seq<UpvalDesc>, z: Bytes): Parsed<Debug> {
    var (info, z1) :- Listed(ParseByte, z);
    var (abs, z2) :- Listed(ParseAbsLine, z1);
    var (locVars, z3) :- Listed(ParseLocVar, z2);
    var (uvs1, z4) :- ParseNames(uvs, z3);
    var (lines, z5) :- ParseLines(info, abs, lineDefined, z4);
    Got(Debug(lines, locVars, uvs1), z5)
  }

  lemma {:induction false} NamesRead(uvs: seq<UpvalDesc>, strip: bool, rest: Bytes)
    requires |uvs| <= MAX_ITEMS && (strip || forall i :: 0 <= i < |uvs| ==> FitsStr(uvs[i].name))
    ensures var b := if strip then Size(0) else Counted(NameParts(uvs));
            ParseNames(Anonymous(uvs), b + rest) == Got(if strip then Anonymous(uvs) else uvs, rest)
  {
    if strip {
      NumberPrinted(0, rest);
    } else {
      var n, parts, names := |uvs|, NameParts(uvs), seq(|uvs|, i requires 0 <= i < |uvs| => uvs[i].name);
      forall i, r | 0 <= i < n ensures ReadsBefore(ParseString, parts[i], names[i], r) {
        StringRead(uvs[i].name, r);
      }
      Assoc(Size(n), From(parts, 0), rest);
      NumberPrinted(n, From(parts, 0) + rest);
      ManyRead(ParseString, parts, names, n, rest);
      assert names[..n] == names && From(parts, n) + rest == rest;
      assert WithNames(Anonymous(uvs), names) == uvs;
    }
  }

  lemma DebugSplit(p: Proto, strip: bool, rest: Bytes, b1: Bytes, b2: Bytes, b3: Bytes, b4: Bytes)
    requires b1 == Counted(BytesOf(if strip then [] else Deltas(p.lineInfo, 0, p.lineDefined, 0)))
    requires b2 == Counted(AbsParts(if strip then [] else Absolutes(p.lineInfo, 0, p.lineDefined, 0)))
    requires b3 == Counted(LocVarParts(if strip then [] else p.locVars))
    requires b4 == if strip then Size(0) else Counted(NameParts(p.upvalues))
    ensures DebugBytes(p, strip) + rest == b1 + (b2 + (b3 + (b4 + rest)))
  {
    if strip { assert b1 == Size(0) && b2 == Size(0) && b3 == Size(0); }
    assert DebugBytes(p, strip) == b1 + b2 + b3 + b4;
    Assoc(b1 + b2 + b3, b4, rest);
    Assoc(b1 + b2, b3, b4 + rest);
    Assoc(b1, b2, b3 + (b4 + rest));
  }

  lemma LinesRead(lines: seq<int>, lineDefined: int, z: Bytes)
    requires forall i :: 0 <= i < |lines| ==> FitsInt(lines[i])
    ensures ParseLines(Deltas(lines, 0, lineDefined, 0), Absolutes(lines, 0, lineDefined, 0), lineDefined, z) ==
            Got(lines, z)
  {
    var info, abs := Deltas(lines, 0, lineDefined, 0), Absolutes(lines, 0, lineDefined, 0);
    if info != [] {
      LinesBack(info, abs, lineDefined, lines);
      DecompressedIs(lines, info, abs, lineDefined);
    }
  }

  /** The printed debug information of a prototype. */
  lemma {:induction false} DebugRead(p: Proto, strip: bool, rest: Bytes)
    requires FitsCode(p) && (strip || FitsDebug(p))
    ensures ParseDebug(p.lineDefined, Anonymous(p.upvalues), DebugBytes(p, strip) + rest) ==
            Got(if strip then Debug([], [], Anonymous(p.upvalues)) else Debug(p.lineInfo, p.locVars, p.upvalues), rest)
  {
    var info: Bytes := if strip then [] else Deltas(p.lineInfo, 0, p.lineDefined, 0);
    var abs := if strip then [] else Absolutes(p.lineInfo, 0, p.lineDefined, 0);
    var vs := if strip then [] else p.locVars;
    var b1, b2, b3 := Counted(BytesOf(info)), Counted(AbsParts(abs)), Counted(LocVarParts(vs));
    var b4 := if strip then Size(0) else Counted(NameParts(p.upvalues));
    DebugSplit(p, strip, rest, b1, b2, b3, b4);
    LineInfoRead(info, b2 + (b3 + (b4 + rest)));
    AbsRead(abs, b3 + (b4 + rest));
    LocVarsRead(vs, b4 + rest);
    NamesRead(p.upvalues, strip, rest);
    if !strip { LinesRead(p.lineInfo, p.lineDefined, rest); }
  }

  // ---------------------------------------------------------------------------------------------
  // Prototypes

  /** Lines, parameters, varargs and stack size, in a prototype without anything else. */
  ghost function ParseHead(source: Bytes, z: Bytes): (o: Parsed<Proto>)
    ensures o.Got? ==> o.value.source == source && FitsInt(o.value.lineDefined) && FitsInt(o.value.lastLine)
  {
    var (lineDefined, z1) :- ParseInt(z);
    var (lastLine, z2) :- ParseInt(z1);
    var (numParams, z3) :- ParseByte(z2);
    var (isVararg, z4) :- ParseByte(z3);
    var (maxStack, z5) :- ParseByte(z4);
    Got(Proto(source, lineDefined, lastLine, numParams, isVararg != 0, maxStack, [], [], [], [], [], []), z5)
  }

  /** The fields before the nested prototypes; the source is as written, or inherited. */
  ghost function ParseFields(parent: Bytes, z: Bytes): Parsed<Proto> {
    var (src, z1) :- ParseText(z);
    var (q, z2) :- ParseHead(OrElse(src, parent), z1);
    var (code, z3) :- Listed(ParseWord, z2);
    var (constants, z4) :- Listed(ParseConstant, z3);
    var (upvalues, z5) :- Listed(ParseUpvalue, z4);
    Got(q.(code := code, constants := constants, upvalues := upvalues), z5)
  }

  function Whole(q: Proto, protos: seq<Proto>, d: Debug): Proto {
    q.(source := Named(q.source), upvalues := d.upvalues, protos := protos, lineInfo := d.lineInfo,
       locVars := d.locVars)
  }

  /** A prototype nested at most n deep, and valid, in one with the given source. */
  ghost function ParseProto(parent: Bytes, n: nat, z: Bytes): Parsed<Proto>
    decreases n, 0
  {
    if n == 0 then Refused(Malformed)
    else
      var (q, z1) :- ParseFields(parent, z);
      ParseRest(q, Nested(q.source, n - 1), z1)
  }

  /** The nested prototypes, which are those of the given rule, and the debug information. */
  ghost function ParseRest(q: Proto, nested: Rule<Proto>, z: Bytes): Parsed<Proto> {
    var (protos, z1) :- Listed(nested, z);
    var (d, z2) :- ParseDebug(q.lineDefined, q.upvalues, z1);
    if ValidCode(q.code, |protos|) then Got(Whole(q, protos, d), z2) else Refused(Malformed)
  }

  ghost function Nested(source: Bytes, n: nat): Rule<Proto>
    decreases n, 1
  {
    z => ParseProto(source, n, z)
  }

  function ParseBytes(b: Bytes, z: Bytes): Parsed<()> {
    var (b', z1) :- Take(|b|, z);
    if b' == b then Got((), z1) else Refused(Malformed)
  }

  /** The sizes of instructions, integers and floats, and the numbers that show the byte order and the
      float format. */
  function ParseSizes(z: Bytes): Parsed<()> {
    var (_, z1) :- ParseBytes([4], z);
    var (_, z2) :- ParseBytes([8], z1);
    var (_, z3) :- ParseBytes([8], z2);
    var (i, z4) :- ParseLong(z3);
    if i != CHECK_INT then Refused(Malformed)
    else
      var (x, z5) :- ParseLong(z4);
      if x != CHECK_NUM then Refused(Malformed) else Got((), z5)
  }

  function ParseHeader(z: Bytes): Parsed<()> {
    var (_, z1) :- ParseBytes(SIGNATURE, z);
    var (_, z2) :- ParseBytes([VERSION], z1);
    var (_, z3) :- ParseBytes([FORMAT], z2);
    var (_, z4) :- ParseBytes(DATA, z3);
    ParseSizes(z4)
  }

  /** The main function, with the number of its upvalues, which is written twice. */
  ghost function ParseMain(main: Rule<Proto>, z: Bytes): Parsed<Proto> {
    var (nups, z1) :- ParseByte(z);
    var (q, z2) :- main(z1);
    if nups == |q.upvalues| then Got(q, z2) else Refused(Malformed)
  }

  /** A whole chunk. */
  ghost function ParseChunk(z: Bytes): Parsed<Proto> {
    var (_, z1) :- ParseHeader(z);
    ParseMain(Nested([], MAX_DEPTH), z1)
  }

  lemma NestedIs(source: Bytes, n: nat, z: Bytes)
    ensures Nested(source, n)(z) == ParseProto(source, n, z)
  {
  }

  lemma {:induction false} ProtoSteps(source: Bytes, n: nat, z: Bytes, o: Parsed<Proto>)
    requires o == ParseFields(source, z)
    ensures ParseProto(source, n, z) ==
            if n == 0 then Refused(Malformed)
            else if o.Refused? then Refused(o.why)
            else ParseRest(o.value, Nested(o.value.source, n - 1), o.rest)
  {
  }

  lemma {:induction false} NestedSteps(source: Bytes, n: nat, z: Bytes, o: Parsed<Proto>)
    requires o == ParseFields(source, z)
    ensures Nested(source, n)(z) ==
            if n == 0 then Refused(Malformed)
            else if o.Refused? then Refused(o.why)
            else ParseRest(o.value, Nested(o.value.source, n - 1), o.rest)
  {
    NestedIs(source, n, z);
    ProtoSteps(source, n, z, o);
  }

  lemma ChunkSteps(z: Bytes, main: Rule<Proto>, o: Parsed<()>)
    requires main == Nested([], MAX_DEPTH) && o == ParseHeader(z)
    ensures ParseChunk(z) == if o.Got? then ParseMain(main, o.rest) else Refused(o.why)
  {
  }

  // ---------------------------------------------------------------------------------------------
  // What is printed stands for what was printed

  function Bare(p: Proto, strip: bool): Proto {
    Proto(if strip then [] else p.source, p.lineDefined, p.lastLine, p.numParams, p.isVararg, p.maxStack, [], [], [],
          [], [], [])
  }

  lemma {:induction false} HeadRead(p: Proto, strip: bool, rest: Bytes)
    requires FitsInt(p.lineDefined) && FitsInt(p.lastLine)
    ensures ParseHead(if strip then [] else p.source, HeadBytes(p) + rest) == Got(Bare(p, strip), rest)
  {
    var b1, b2, b4 := Size(Clip(p.lineDefined)), Size(Clip(p.lastLine)), Flag(p.isVararg);
    Assoc(b1 + b2 + [p.numParams] + b4, [p.maxStack], rest);
    Assoc(b1 + b2 + [p.numParams], b4, [p.maxStack] + rest);
    Assoc(b1 + b2, [p.numParams], b4 + ([p.maxStack] + rest));
    Assoc(b1, b2, [p.numParams] + (b4 + ([p.maxStack] + rest)));
    assert b4 == [b4[0]];
    IntRead(p.lineDefined, b2 + ([p.numParams] + (b4 + ([p.maxStack] + rest))));
    IntRead(p.lastLine, [p.numParams] + (b4 + ([p.maxStack] + rest)));
    ByteRead(p.numParams, b4 + ([p.maxStack] + rest));
    ByteRead(b4[0], [p.maxStack] + rest);
    ByteRead(p.maxStack, rest);
  }

  lemma {:induction false} SourceRead(p: Proto, strip: bool, parent: Bytes, rest: Bytes)
    requires strip || FitsStr(p.source)
    ensures var o := ParseText(SourceBytes(p, strip, parent) + rest);
            && o.Got? && o.rest == rest
            && OrElse(o.value, if strip then [] else parent) == if strip then [] else p.source
  {
    if strip || p.source == parent {
      NullRead(rest);
    } else {
      StringRead(p.source, rest);
    }
  }

  /** The fields of p up to the nested prototypes, with the source that these inherit. */
  function Fields(p: Proto, strip: bool): Proto {
    Bare(p, strip).(code := p.code, constants := p.constants, upvalues := Anonymous(p.upvalues))
  }

  function FieldBytes(p: Proto, strip: bool, parent: Bytes): Bytes {
    SourceBytes(p, strip, parent) + HeadBytes(p) + Counted(CodeParts(p.code)) + Counted(ConstantParts(p.constants)) +
    Counted(UpvalueParts(p.upvalues))
  }

  lemma {:induction false} FieldsRead(p: Proto, strip: bool, parent: Bytes, rest: Bytes)
    requires FitsCode(p) && (strip || FitsStr(p.source))
    ensures ParseFields(if strip then [] else parent, FieldBytes(p, strip, parent) + rest) ==
            Got(Fields(p, strip), rest)
  {
    var b1, b2, b3 := SourceBytes(p, strip, parent), HeadBytes(p), Counted(CodeParts(p.code));
    var b4, b5 := Counted(ConstantParts(p.constants)), Counted(UpvalueParts(p.upvalues));
    Assoc(b1 + b2 + b3 + b4, b5, rest);
    Assoc(b1 + b2 + b3, b4, b5 + rest);
    Assoc(b1 + b2, b3, b4 + (b5 + rest));
    Assoc(b1, b2, b3 + (b4 + (b5 + rest)));
    SourceRead(p, strip, parent, b2 + (b3 + (b4 + (b5 + rest))));
    HeadRead(p, strip, b3 + (b4 + (b5 + rest)));
    CodeRead(p.code, b4 + (b5 + rest));
    ConstantsRead(p.constants, b5 + rest);
    UpvaluesRead(p.upvalues, rest);
  }

  function ProtoParts(f: Spelling, ps: seq<Proto>, source: Bytes): seq<Bytes> {
    seq(|ps|, i requires 0 <= i < |ps| => f(ps[i], source))
  }

  lemma {:induction false} ListParts(f: Spelling, ps: seq<Proto>, source: Bytes, i: nat)
    requires i <= |ps|
    ensures ListFrom(f, ps, source, i) == From(ProtoParts(f, ps, source), i)
    decreases |ps| - i
  {
    if i < |ps| { ListParts(f, ps, source, i + 1); }
  }

  /** The bytes of a prototype in three parts. */
  lemma ProtoSplit(f: Spelling, p: Proto, strip: bool, parent: Bytes, rest: Bytes)
    requires Spells(f, strip)
    ensures f(p, parent) + rest ==
            FieldBytes(p, strip, parent) +
            (Counted(ProtoParts(f, p.protos, p.source)) + (DebugBytes(p, strip) + rest))
  {
    var b, c, d := FieldBytes(p, strip, parent), Counted(ProtoParts(f, p.protos, p.source)), DebugBytes(p, strip);
    ProtoSpelled(f, p, strip, parent);
    ListParts(f, p.protos, p.source, 0);
    assert f(p, parent) == b + c + d;
    Assoc(b + c, d, rest);
    Assoc(b, c, d + rest);
  }

  lemma WholeLoaded(p: Proto, strip: bool)
    ensures var d := if strip then Debug([], [], Anonymous(p.upvalues)) else Debug(p.lineInfo, p.locVars, p.upvalues);
            Whole(Fields(p, strip), Loaded(p, strip).protos, d) == Loaded(p, strip)
  {
  }

  /** The printed form of a prototype within the limits stands for what loading gives back. */
  lemma {:induction false} ProtoRead(f: Spelling, p: Proto, strip: bool, parent: Bytes, n: nat, rest: Bytes)
    requires Spells(f, strip) && Fits(p, strip, n)
    ensures ParseProto(if strip then [] else parent, n, f(p, parent) + rest) == Got(Loaded(p, strip), rest)
    decreases p
  {
    var src, protos := if strip then [] else p.source, Loaded(p, strip).protos;
    var parts := ProtoParts(f, p.protos, p.source);
    var nested := Nested(src, n - 1);
    forall i, r | 0 <= i < |p.protos| ensures ReadsBefore(nested, parts[i], protos[i], r) {
      ProtoRead(f, p.protos[i], strip, p.source, n - 1, r);
      NestedIs(src, n - 1, parts[i] + r);
    }
    var z1 := Counted(parts) + (DebugBytes(p, strip) + rest);
    ProtoSplit(f, p, strip, parent, rest);
    FieldsRead(p, strip, parent, z1);
    ProtoSteps(if strip then [] else parent, n, f(p, parent) + rest, Got(Fields(p, strip), z1));
    RestRead(p, strip, nested, parts, rest);
  }

  lemma {:induction false} RestRead(p: Proto, strip: bool, nested: Rule<Proto>, parts: seq<Bytes>, rest: Bytes)
    requires FitsCode(p) && (strip || FitsDebug(p)) && ReadsEach(nested, parts, Loaded(p, strip).protos)
    ensures ParseRest(Fields(p, strip), nested, Counted(parts) + (DebugBytes(p, strip) + rest)) ==
            Got(Loaded(p, strip), rest)
  {
    ListRead(nested, parts, Loaded(p, strip).protos, DebugBytes(p, strip) + rest);
    DebugRead(p, strip, rest);
    WholeLoaded(p, strip);
  }

  lemma TakeAll(b: Bytes, rest: Bytes)
    ensures ParseBytes(b, b + rest) == Got((), rest)
  {
    assert (b + rest)[..|b|] == b && (b + rest)[|b|..] == rest;
  }

  lemma {:induction false} SizesRead(rest: Bytes)
    ensures var checks := Binary.Digits(CHECK_INT, 8) + (Binary.Digits(CHECK_NUM, 8) + rest);
            ParseSizes([4] + ([8] + ([8] + checks))) == Got((), rest)
  {
    var b := Binary.Digits(CHECK_NUM, 8) + rest;
    var checks := Binary.Digits(CHECK_INT, 8) + b;
    TakeAll([4], [8] + ([8] + checks));
    TakeAll([8], [8] + checks);
    TakeAll([8], checks);
    LongRead(CHECK_INT, b);
    LongRead(CHECK_NUM, rest);
  }

  lemma {:induction false} HeaderRead(rest: Bytes)
    ensures ParseHeader(Header() + rest) == Got((), rest)
  {
    var checks := Binary.Digits(CHECK_INT, 8) + (Binary.Digits(CHECK_NUM, 8) + rest);
    var sizes := [4] + ([8] + ([8] + checks));
    HeaderSplit(rest, checks);
    SizesRead(rest);
    TakeAll(DATA, sizes);
    TakeAll([FORMAT], DATA + sizes);
    TakeAll([VERSION], [FORMAT] + (DATA + sizes));
    TakeAll(SIGNATURE, [VERSION] + ([FORMAT] + (DATA + sizes)));
  }

  lemma HeaderSplit(rest: Bytes, checks: Bytes)
    requires checks == Binary.Digits(CHECK_INT, 8) + (Binary.Digits(CHECK_NUM, 8) + rest)
    ensures Header() + rest ==
            SIGNATURE + ([VERSION] + ([FORMAT] + (DATA + ([4] + ([8] + ([8] + checks))))))
  {
    var a, b := Binary.Digits(CHECK_INT, 8), Binary.Digits(CHECK_NUM, 8);
    var h2 := SIGNATURE + [VERSION] + [FORMAT];
    var h4 := h2 + DATA + [4];
    var h6 := h4 + [8] + [8];
    Assoc(h6 + a, b, rest);
    Assoc(h6, a, b + rest);
    Assoc(h4 + [8], [8], checks);
    Assoc(h4, [8], [8] + checks);
    Assoc(h2 + DATA, [4], [8] + ([8] + checks));
    Assoc(h2, DATA, [4] + ([8] + ([8] + checks)));
    Assoc(SIGNATURE + [VERSION], [FORMAT], DATA + ([4] + ([8] + ([8] + checks))));
    Assoc(SIGNATURE, [VERSION], [FORMAT] + (DATA + ([4] + ([8] + ([8] + checks)))));
  }

  lemma {:induction false} MainRead(main: Rule<Proto>, q: Proto, b: Bytes, rest: Bytes)
    requires main(b + rest) == Got(q, rest)
    ensures ParseMain(main, [CountByte(|q.upvalues|)] + (b + rest)) ==
            if |q.upvalues| <= 255 then Got(q, rest) else Refused(Malformed)
  {
    ByteRead(CountByte(|q.upvalues|), b + rest);
  }

  lemma SameUpvalues(p: Proto, strip: bool)
    ensures |Loaded(p, strip).upvalues| == |p.upvalues|
  {
  }

  lemma ChunkSplit(p: Proto, strip: bool, b: Bytes, rest: Bytes)
    requires b == ProtoBytes(p, strip, [])
    ensures ChunkBytes(p, strip) + rest == Header() + ([CountByte(|p.upvalues|)] + (b + rest))
  {
    var n := [CountByte(|p.upvalues|)];
    Assoc(Header() + n, b, rest);
    Assoc(Header(), n, b + rest);
  }

  /** A printed chunk, whatever follows it. */
  lemma {:induction false} ChunkRead(p: Proto, strip: bool, rest: Bytes)
    requires Fits(p, strip, MAX_DEPTH)
    ensures ParseChunk(ChunkBytes(p, strip) + rest) ==
            if |p.upvalues| <= 255 then Got(Loaded(p, strip), rest) else Refused(Malformed)
  {
    var f := Spell(strip);
    assert Spelled(f, strip, p, []);
    ChunkSplit(p, strip, f(p, []), rest);
    ProtoRead(f, p, strip, [], MAX_DEPTH, rest);
    SameUpvalues(p, strip);
    NestedIs([], MAX_DEPTH, f(p, []) + rest);
    MainRead(Nested([], MAX_DEPTH), Loaded(p, strip), f(p, []), rest);
    var z1 := [CountByte(|p.upvalues|)] + (f(p, []) + rest);
    HeaderRead(z1);
    ChunkSteps(ChunkBytes(p, strip) + rest, Nested([], MAX_DEPTH), Got((), z1));
  }

  // ---------------------------------------------------------------------------------------------
  // Whatever stands for a prototype stands for a valid one

  predicate NamesFit(uvs: seq<UpvalDesc>) {
    forall i :: 0 <= i < |uvs| ==> FitsStr(uvs[i].name)
  }

  predicate LinesFit(lines: seq<int>) {
    |lines| <= MAX_ITEMS && forall i :: 0 <= i < |lines| ==> IsInt32(lines[i])
  }

  predicate DebugFits(d: Debug, uvs: seq<UpvalDesc>) {
    (&& LinesFit(d.lineInfo) && |d.locVars| <= MAX_ITEMS
     && (forall i :: 0 <= i < |d.locVars| ==> FitsLocVar(d.locVars[i]))
     && NamesFit(d.upvalues) && |d.upvalues| == |uvs|) == true
  }

  lemma {:induction false} ListGiven<T(!new)>(rule: Rule<T>, p: T -> bool, z: Bytes)
    requires Gives(rule, p) && Listed(rule, z).Got?
    ensures forall i :: 0 <= i < |Listed(rule, z).value| ==> p(Listed(rule, z).value[i])
  {
    ManyGiven(rule, p, ParseCount(z).value, ParseCount(z).rest);
  }

  lemma {:induction false} NamesGiven(uvs: seq<UpvalDesc>, z: Bytes)
    requires ParseNames(uvs, z).Got? && NamesFit(uvs)
    ensures NamesFit(ParseNames(uvs, z).value) && |ParseNames(uvs, z).value| == |uvs|
  {
    var o := ParseCount(z);
    if o.value > 0 {
      assert forall y :: GivesAt(ParseString, FitsStr, y);
      ManyGiven(ParseString, FitsStr, o.value, o.rest);
    }
  }

  lemma {:induction false} LinesGiven(info: Bytes, abs: seq<AbsLine>, lineDefined: int, z: Bytes)
    requires ParseLines(info, abs, lineDefined, z).Got? && |info| <= MAX_ITEMS
    ensures LinesFit(ParseLines(info, abs, lineDefined, z).value)
  {
  }

  lemma {:induction false} LocVarsGiven(z: Bytes)
    requires Listed(ParseLocVar, z).Got?
    ensures forall i :: 0 <= i < |Listed(ParseLocVar, z).value| ==> FitsLocVar(Listed(ParseLocVar, z).value[i])
  {
    assert forall y :: GivesAt(ParseLocVar, FitsLocVar, y);
    ListGiven(ParseLocVar, FitsLocVar, z);
  }

  lemma {:induction false} DebugGiven(lineDefined: int, uvs: seq<UpvalDesc>, z: Bytes)
    requires ParseDebug(lineDefined, uvs, z).Got? && NamesFit(uvs)
    ensures DebugFits(ParseDebug(lineDefined, uvs, z).value, uvs)
  {
    var o1 := Listed(ParseByte, z);
    var o2 := Listed(ParseAbsLine, o1.rest);
    var o3 := Listed(ParseLocVar, o2.rest);
    LocVarsGiven(o2.rest);
    NamesGiven(uvs, o3.rest);
    LinesGiven(o1.value, o2.value, lineDefined, ParseNames(uvs, o3.rest).rest);
  }

  predicate Unnamed(u: UpvalDesc) {
    u.name == []
  }

  /** What comes before the nested prototypes is within the limits. */
  predicate FieldsFit(q: Proto) {
    (&& FitsInt(q.lineDefined) && FitsInt(q.lastLine) && FitsStr(q.source)
     && |q.code| <= MAX_ITEMS && |q.constants| <= MAX_ITEMS && |q.upvalues| <= MAX_ITEMS && NamesFit(q.upvalues)
     && forall i :: 0 <= i < |q.constants| ==> FitsConstant(q.constants[i])) == true
  }

  lemma {:induction false} FieldsOf(parent: Bytes, z: Bytes) returns (o: Parsed<Proto>)
    ensures o == ParseFields(parent, z) && (FitsStr(parent) && o.Got? ==> FieldsFit(o.value))
  {
    o := ParseFields(parent, z);
    if FitsStr(parent) && o.Got? { FieldsGiven(parent, z); }
  }

  lemma {:induction false} ConstantsGiven(z: Bytes)
    requires Listed(ParseConstant, z).Got?
    ensures forall i :: 0 <= i < |Listed(ParseConstant, z).value| ==> FitsConstant(Listed(ParseConstant, z).value[i])
  {
    assert forall y :: GivesAt(ParseConstant, FitsConstant, y);
    ListGiven(ParseConstant, FitsConstant, z);
  }

  lemma {:induction false} UpvaluesGiven(z: Bytes)
    requires Listed(ParseUpvalue, z).Got?
    ensures NamesFit(Listed(ParseUpvalue, z).value)
  {
    assert forall y :: GivesAt(ParseUpvalue, Unnamed, y);
    ListGiven(ParseUpvalue, Unnamed, z);
  }

  lemma {:induction false} FieldsGiven(parent: Bytes, z: Bytes)
    requires ParseFields(parent, z).Got? && FitsStr(parent)
    ensures FieldsFit(ParseFields(parent, z).value)
  {
    var o1 := ParseText(z);
    var o2 := ParseHead(OrElse(o1.value, parent), o1.rest);
    var o3 := Listed(ParseWord, o2.rest);
    var o4 := Listed(ParseConstant, o3.rest);
    ConstantsGiven(o3.rest);
    UpvaluesGiven(o4.rest);
  }

  lemma AcceptedWhole(q: Proto, protos: seq<Proto>, d: Debug, n: nat)
    requires FieldsFit(q) && DebugFits(d, q.upvalues) && ValidCode(q.code, |protos|) && n > 0
    requires |protos| <= MAX_ITEMS && forall i :: 0 <= i < |protos| ==> Accepted(protos[i], n - 1)
    ensures Accepted(Whole(q, protos, d), n)
  {
  }

  function AcceptedTo(n: nat): Proto -> bool {
    p => Accepted(p, n)
  }

  lemma {:induction false} RestGiven(q: Proto, nested: Rule<Proto>, n: nat, z: Bytes)
    requires n > 0 && FieldsFit(q) && Gives(nested, AcceptedTo(n - 1))
    ensures ParseRest(q, nested, z).Got? ==> AcceptedTo(n)(ParseRest(q, nested, z).value)
  {
    if ParseRest(q, nested, z).Got? {
      var o := Listed(nested, z);
      ListGiven(nested, AcceptedTo(n - 1), z);
      DebugGiven(q.lineDefined, q.upvalues, o.rest);
      AcceptedWhole(q, o.value, ParseDebug(q.lineDefined, q.upvalues, o.rest).value, n);
    }
  }

  lemma {:induction false} ProtoGiven(source: Bytes, n: nat, z: Bytes, o: Parsed<Proto>)
    requires o == ParseFields(source, z) && (o.Got? ==> FieldsFit(o.value))
    requires n > 0 && o.Got? ==> Gives(Nested(o.value.source, n - 1), AcceptedTo(n - 1))
    ensures GivesAt(Nested(source, n), AcceptedTo(n), z)
  {
    NestedSteps(source, n, z, o);
    if n > 0 && o.Got? {
      RestGiven(o.value, Nested(o.value.source, n - 1), n, o.rest);
    }
  }

  /** Whatever stands for a prototype stands for one with valid code and counts at every level. */
  lemma {:induction false} ProtosGiven(source: Bytes, n: nat)
    requires FitsStr(source)
    ensures Gives(Nested(source, n), AcceptedTo(n))
    decreases n
  {
    var rule, fits := Nested(source, n), AcceptedTo(n);
    forall z ensures GivesAt(rule, fits, z) {
      var o := FieldsOf(source, z);
      if n > 0 && o.Got? { ProtosGiven(o.value.source, n - 1); }
      ProtoGiven(source, n, z, o);
    }
  }

  /** Whatever stands for a chunk stands for a valid prototype, with as many upvalues as fit a byte. */
  lemma {:induction false} ChunkGiven(z: Bytes)
    requires ParseChunk(z).Got?
    ensures Accepted(ParseChunk(z).value, MAX_DEPTH) && |ParseChunk(z).value.upvalues| <= 255
  {
    ProtosGiven([], MAX_DEPTH);
    assert GivesAt(Nested([], MAX_DEPTH), AcceptedTo(MAX_DEPTH), ParseByte(ParseHeader(z).rest).rest);
  }
}
