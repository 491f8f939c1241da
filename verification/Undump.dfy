/**
 The parser of binary chunks: a reader with a sticky error. What it reads, and the error it stops
 with, are those that the grammar gives.
 */
module Undump {
  import opened Options
  import opened ByteStrings
  import opened Words
  import Binary
  import opened Chunk
  import opened Grammar

  /** decompressLines. */
  method DecompressLines(lineinfo: Bytes, abs: seq<AbsLine>, lineDefined: int) returns (out: seq<int>, ok: bool)
    ensures ok <==> Paired(lineinfo, abs)
    ensures if ok then LinesAre(out, lineinfo, abs, lineDefined, |lineinfo|) else out == []
  {
    out := [];
    var previousline, absIdx := lineDefined, 0;
    for pc := 0 to |lineinfo|
      invariant absIdx == Marks(lineinfo, pc) <= |abs| && previousline == LineAfter(lineinfo, abs, lineDefined, pc)
      invariant forall k :: 0 <= k < pc ==> Entered(lineinfo, abs, k)
      invariant LinesAre(out, lineinfo, abs, lineDefined, pc)
    {
      if lineinfo[pc] == ABS_MARK {
        if absIdx >= |abs| || abs[absIdx].pc != pc {
          assert !Entered(lineinfo, abs, pc);
          return [], false;
        }
        previousline := abs[absIdx].line;
        absIdx := absIdx + 1;
      } else {
        previousline := previousline + ByteDelta(lineinfo[pc]);
      }
      out := out + [Int32(previousline)];
    }
    if absIdx != |abs| {
      return [], false;
    }
    ok := true;
  }

  class UndumpReader {
    var r: Bytes
    var err: Error
    var depth: nat

    constructor (input: Bytes)
      ensures r == input && err.Fine? && depth == 0
    {
      r, err, depth := input, Fine, 0;
    }

    /** From the error e on: v has been read as o says; or the error is the first one. */
    ghost predicate Answers<T>(o: Parsed<T>, v: T, e: Error)
      reads this
    {
      if !e.Fine? then err == e
      else if o.Got? then err.Fine? && o == Got(v, r)
      else err == o.why
    }

    method Read(n: nat) returns (v: Bytes)
      modifies this`r, this`err
      ensures |v| == n && Answers(Take(n, old(r)), v, old(err))
    {
      if !err.Fine? {
        return seq(n, _ => 0);
      }
      if |r| < n {
        r, err := [], Truncated;
        return seq(n, _ => 0);
      }
      v := r[..n];
      r := r[n..];
    }

    method Failing()
      modifies this`err
      ensures err == if old(err.Fine?) then Malformed else old(err)
    {
      if err.Fine? {
        err := Malformed;
      }
    }

    method U8() returns (v: Byte)
      modifies this`r, this`err
      ensures Answers(ParseByte(old(r)), v, old(err))
    {
      var b := Read(1);
      v := b[0];
    }

    method U32() returns (v: Word)
      modifies this`r, this`err
      ensures Answers(ParseWord(old(r)), v, old(err))
    {
      var b := Read(4);
      Binary.PowSmall();
      v := Binary.Number(b);
    }

    method U64() returns (v: Long)
      modifies this`r, this`err
      ensures Answers(ParseLong(old(r)), v, old(err))
    {
      var b := Read(8);
      Binary.PowSmall();
      v := Binary.Number(b);
    }

    /** size: the number, in as many groups as there are, unless it overflows or the input ends. */
    method SizeOf() returns (x: nat)
      modifies this`r, this`err
      ensures x < TWO64 && Answers(ParseNumber(old(r)), x, old(err))
    {
      ghost var z, e, i := r, err, 0;
      x := 0;
      while true
        invariant 0 <= i <= |z| && x < TWO64 && (!e.Fine? ==> err == e)
        invariant e.Fine? ==>
                    && err.Fine? && r == z[i..] && x == Bits(z, i)
                    && (forall k :: 0 <= k < i ==> z[k] < 128) && (i > 0 ==> Bits(z, i - 1) < LIMIT)
        decreases |z| - i
      {
        var b := U8();
        if !err.Fine? {
          if e.Fine? { NumberCut(z); }
          return 0;
        }
        if x >= LIMIT {
          NumberTooLarge(z, i);
          err := Malformed;
          return 0;
        }
        x := 128 * x + b % 128;
        i := i + 1;
        if b >= 128 {
          NumberIs(z, i);
          return;
        }
      }
    }

    /** count: the length of a list. */
    method Count() returns (n: nat)
      modifies this`r, this`err
      ensures Answers(ParseCount(old(r)), n, old(err))
    {
      n := SizeOf();
      if !err.Fine? {
        return 0;
      }
      if n > MAX_ITEMS {
        err := Malformed;
        return 0;
      }
    }

    method VInt() returns (v: nat)
      modifies this`r, this`err
      ensures Answers(ParseInt(old(r)), v, old(err))
    {
      v := SizeOf();
      if !err.Fine? {
        return 0;
      }
      if v > MAX_INT32 {
        err := Malformed;
        return 0;
      }
    }

    /** strN: the string, and whether it was the null one. */
    method StrN() returns (s: Bytes, absent: bool)
      modifies this`r, this`err
      ensures Answers(ParseText(old(r)), if absent then None else Some(s), old(err))
      ensures absent ==> s == []
    {
      var size := SizeOf();
      if !err.Fine? || size == 0 {
        return [], true;
      }
      var n := size - 1;
      if n == 0 {
        return [], false;
      }
      if n > MAX_ITEMS {
        err := Malformed;
        return [], false;
      }
      s := Read(n);
      absent := false;
      if !err.Fine? {
        s := [];
      }
    }

    method StrOf() returns (s: Bytes)
      modifies this`r, this`err
      ensures Answers(ParseString(old(r)), s, old(err))
    {
      var absent;
      s, absent := StrN();
    }

    method ConstantOf() returns (k: Constant)
      modifies this`r, this`err
      ensures Answers(ParseConstant(old(r)), k, old(err))
    {
      var tag := U8();
      if tag == 0x00 {
        k := CNil;
      } else if tag == 0x01 {
        k := CFalse;
      } else if tag == 0x11 {
        k := CTrue;
      } else if tag == 0x13 {
        var w := U64();
        k := CFloat(w);
      } else if tag == 0x03 {
        var w := U64();
        k := CInt(Signed(w));
      } else if tag == 0x04 || tag == 0x14 {
        var s := StrOf();
        k := CStr(s);
      } else {
        Failing();
        k := CNil;
      }
    }

    method UpvalueOf() returns (u: UpvalDesc)
      modifies this`r, this`err
      ensures Answers(ParseUpvalue(old(r)), u, old(err))
    {
      var inStack := U8();
      var index := U8();
      var kind := U8();
      u := UpvalDesc([], inStack != 0, index, kind);
    }

    method AbsLineOf() returns (a: AbsLine)
      modifies this`r, this`err
      ensures Answers(ParseAbsLine(old(r)), a, old(err))
    {
      var pc := VInt();
      var line := VInt();
      a := AbsLine(pc, line);
    }

    method LocVarOf() returns (v: LocVar)
      modifies this`r, this`err
      ensures Answers(ParseLocVar(old(r)), v, old(err))
    {
      var name := StrOf();
      var startPc := VInt();
      var endPc := VInt();
      v := LocVar(name, startPc, endPc);
    }

    method CodeOf() returns (xs: seq<Word>)
      modifies this`r, this`err
      ensures Answers(Listed(ParseWord, old(r)), xs, old(err))
    {
      var n := Count();
      ghost var z, e := r, err;
      xs := [];
      for i := 0 to n
        invariant Answers(Many(ParseWord, i, z), xs, e)
      {
        var x := U32();
        xs := xs + [x];
      }
    }

    method ConstantsOf() returns (xs: seq<Constant>)
      modifies this`r, this`err
      ensures Answers(Listed(ParseConstant, old(r)), xs, old(err))
    {
      var n := Count();
      ghost var z, e := r, err;
      xs := [];
      for i := 0 to n
        invariant Answers(Many(ParseConstant, i, z), xs, e)
      {
        var x := ConstantOf();
        xs := xs + [x];
      }
    }

    method UpvaluesOf() returns (xs: seq<UpvalDesc>)
      modifies this`r, this`err
      ensures Answers(Listed(ParseUpvalue, old(r)), xs, old(err))
    {
      var n := Count();
      ghost var z, e := r, err;
      xs := [];
      for i := 0 to n
        invariant Answers(Many(ParseUpvalue, i, z), xs, e)
      {
        var x := UpvalueOf();
        xs := xs + [x];
      }
    }

    method LineInfoOf() returns (xs: seq<Byte>)
      modifies this`r, this`err
      ensures Answers(Listed(ParseByte, old(r)), xs, old(err))
    {
      var n := Count();
      ghost var z, e := r, err;
      xs := [];
      for i := 0 to n
        invariant Answers(Many(ParseByte, i, z), xs, e)
      {
        var x := U8();
        xs := xs + [x];
      }
    }

    method AbsOf() returns (xs: seq<AbsLine>)
      modifies this`r, this`err
      ensures Answers(Listed(ParseAbsLine, old(r)), xs, old(err))
    {
      var n := Count();
      ghost var z, e := r, err;
      xs := [];
      for i := 0 to n
        invariant Answers(Many(ParseAbsLine, i, z), xs, e)
      {
        var x := AbsLineOf();
        xs := xs + [x];
      }
    }

    method LocVarsOf() returns (xs: seq<LocVar>)
      modifies this`r, this`err
      ensures Answers(Listed(ParseLocVar, old(r)), xs, old(err))
    {
      var n := Count();
      ghost var z, e := r, err;
      xs := [];
      for i := 0 to n
        invariant Answers(Many(ParseLocVar, i, z), xs, e)
      {
        var x := LocVarOf();
        xs := xs + [x];
      }
    }

    /** The upvalue names: none, or exactly as many as there are upvalues. */
    method NamesOf(uvs: seq<UpvalDesc>) returns (uvs': seq<UpvalDesc>)
      modifies this`r, this`err
      ensures Answers(ParseNames(uvs, old(r)), uvs', old(err))
    {
      uvs' := uvs;
      var nup := Count();
      if nup == 0 {
        return;
      }
      if nup != |uvs| {
        Failing();
        return;
      }
      ghost var names;
      uvs', names := EachName(uvs);
    }

    method EachName(uvs: seq<UpvalDesc>) returns (uvs': seq<UpvalDesc>, ghost names: seq<Bytes>)
      modifies this`r, this`err
      ensures |names| == |uvs| && uvs' == WithNames(uvs, names)
      ensures Answers(Many(ParseString, |uvs|, old(r)), names, old(err))
    {
      ghost var z, e := r, err;
      uvs', names := uvs, [];
      for i := 0 to |uvs|
        invariant |names| == i && Answers(Many(ParseString, i, z), names, e)
        invariant |uvs'| == |uvs|
        invariant forall k :: 0 <= k < |uvs| ==> uvs'[k] == if k < i then uvs[k].(name := names[k]) else uvs[k]
      {
        var name := StrOf();
        names := names + [name];
        uvs' := uvs'[i := uvs[i].(name := name)];
      }
    }

    /** The debug information: lines, local variables and upvalue names. */
    method DebugOf(lineDefined: int, uvs: seq<UpvalDesc>) returns (d: Debug)
      modifies this`r, this`err
      ensures Answers(ParseDebug(lineDefined, uvs, old(r)), d, old(err))
    {
      var info := LineInfoOf();
      var abs := AbsOf();
      var locVars := LocVarsOf();
      var uvs' := NamesOf(uvs);
      var lines := LinesOf(info, abs, lineDefined);
      d := Debug(lines, locVars, uvs');
    }

    method LinesOf(info: Bytes, abs: seq<AbsLine>, lineDefined: int) returns (lines: seq<int>)
      modifies this`r, this`err
      ensures Answers(ParseLines(info, abs, lineDefined, old(r)), lines, old(err))
    {
      lines := [];
      if !err.Fine? {
        return;
      }
      if |info| > 0 {
        var ok;
        lines, ok := DecompressLines(info, abs, lineDefined);
        if !ok {
          Failing();
          return;
        }
        DecompressedIs(lines, info, abs, lineDefined);
      }
    }

    /** validateProto. */
    method Validate(code: seq<Word>, nprotos: nat) returns (ok: bool)
      ensures ok <==> ValidCode(code, nprotos)
    {
      for i := 0 to |code|
        invariant forall k :: 0 <= k < i ==>
                  OpCode(code[k]) < OP_COUNT && (OpCode(code[k]) == OP_CLOSURE ==> ArgBx(code[k]) < nprotos)
      {
        if OpCode(code[i]) >= OP_COUNT {
          return false;
        }
        if OpCode(code[i]) == OP_CLOSURE && ArgBx(code[i]) >= nprotos {
          return false;
        }
      }
      return true;
    }

    /** Lines, parameters, varargs and stack size. */
    method HeadOf(source: Bytes) returns (q: Proto)
      modifies this`r, this`err
      ensures Answers(ParseHead(source, old(r)), q, old(err))
    {
      var lineDefined := VInt();
      var lastLine := VInt();
      var numParams := U8();
      var isVararg := U8();
      var maxStack := U8();
      q := Proto(source, lineDefined, lastLine, numParams, isVararg != 0, maxStack, [], [], [], [], [], []);
    }

    /** The fields before the nested prototypes; the source is as written, or inherited. */
    method FieldsOf(parentSource: Bytes) returns (q: Proto)
      modifies this`r, this`err
      ensures Answers(ParseFields(parentSource, old(r)), q, old(err))
    {
      var src, absent := StrN();
      if absent {
        src := parentSource;
      }
      q := HeadOf(src);
      var code := CodeOf();
      var constants := ConstantsOf();
      var upvalues := UpvaluesOf();
      q := q.(code := code, constants := constants, upvalues := upvalues);
    }

    /** How many more levels of nesting there may be. */
    function Levels(): nat
      reads this
    {
      if depth <= MAX_DEPTH then MAX_DEPTH - depth else 0
    }

    /** The depth is as it was, or one level too many was entered. */
    ghost predicate Left(d: nat)
      reads this
    {
      depth == d || (!err.Fine? && depth == d + 1)
    }

    /** function: what the grammar reads at this depth, or its error. */
    method Function(parentSource: Bytes) returns (q: Proto)
      requires depth <= MAX_DEPTH || !err.Fine?
      modifies this
      ensures Answers(Nested(parentSource, old(Levels()))(old(r)), q, old(err)) && Left(old(depth))
      ensures !old(err.Fine?) ==> depth == old(depth)
      decreases Levels(), 2
    {
      q := Nothing();
      if !err.Fine? {
        return;
      }
      NestedSteps(parentSource, Levels(), r, ParseFields(parentSource, r));
      depth := depth + 1;
      if depth > MAX_DEPTH {
        err := Malformed;
        return;
      }
      q := FieldsOf(parentSource);
      q := RestOf(q);
      depth := depth - 1;
    }

    /** The nested prototypes and the debug information; the whole is validated. */
    method RestOf(q0: Proto) returns (q: Proto)
      requires depth <= MAX_DEPTH || !err.Fine?
      modifies this
      ensures Answers(ParseRest(q0, Nested(q0.source, old(Levels())), old(r)), q, old(err)) && Left(old(depth))
      decreases Levels() + 1, 1
    {
      var protos := ProtosOf(q0.source);
      var d := DebugOf(q0.lineDefined, q0.upvalues);
      q := Whole(q0, protos, d);
      if !err.Fine? {
        return;
      }
      var ok := Validate(q.code, |q.protos|);
      if !ok {
        err := Malformed;
      }
    }

    method ProtosOf(source: Bytes) returns (ps: seq<Proto>)
      requires depth <= MAX_DEPTH || !err.Fine?
      modifies this
      ensures Answers(Listed(Nested(source, old(Levels())), old(r)), ps, old(err)) && Left(old(depth))
      decreases Levels() + 1, 0
    {
      var n := Count();
      ghost var z, e, rule := r, err, Nested(source, Levels());
      ps := [];
      for i := 0 to n
        invariant Answers(Many(rule, i, z), ps, e) && Left(old(depth))
      {
        var p := Function(source);
        ps := ps + [p];
      }
    }

    /** What undump reads after the header. */
    method MainOf() returns (q: Proto)
      requires depth == 0
      modifies this
      ensures Answers(ParseMain(Nested([], MAX_DEPTH), old(r)), q, old(err))
    {
      ghost var main := Nested([], MAX_DEPTH);
      q := Nothing();
      var nups := U8();
      if !err.Fine? {
        return;
      }
      q := Function([]);
      if !err.Fine? {
        return;
      }
      if nups != |q.upvalues| {
        err := Malformed;
      }
    }

    /** checkHeader, field by field. */
    method CheckHeader()
      modifies this`r, this`err
      ensures Answers(ParseHeader(old(r)), (), old(err))
    {
      var sig := Read(4);
      if sig != SIGNATURE {
        Failing();
        return;
      }
      var version := U8();
      if version != VERSION {
        Failing();
        return;
      }
      var format := U8();
      if format != FORMAT {
        Failing();
        return;
      }
      var data := Read(6);
      if data != DATA {
        Failing();
        return;
      }
      CheckSizes();
    }

    method CheckSizes()
      modifies this`r, this`err
      ensures Answers(ParseSizes(old(r)), (), old(err))
    {
      var inst := U8();
      if inst != 4 {
        Failing();
        return;
      }
      var integer := U8();
      if integer != 8 {
        Failing();
        return;
      }
      var num := U8();
      if num != 8 {
        Failing();
        return;
      }
      var ci := U64();
      if ci != CHECK_INT {
        Failing();
        return;
      }
      var cn := U64();
      if cn != CHECK_NUM {
        Failing();
      }
    }
  }

  function Nothing(): Proto {
    Proto([], 0, 0, 0, false, 0, [], [], [], [], [], [])
  }

  datatype Result = Ok(p: Proto) | Err(e: Error)

  /** undump: for any bytes, the prototype that they stand for, which is a valid one; or why they
      stand for none. */
  method Load(input: Bytes) returns (res: Result)
    ensures ParseChunk(input).Got? ==> res == Ok(ParseChunk(input).value)
    ensures ParseChunk(input).Refused? ==> res == Err(ParseChunk(input).why)
    ensures res.Ok? ==> Accepted(res.p, MAX_DEPTH) && |res.p.upvalues| <= 255
  {
    var u := new UndumpReader(input);
    u.CheckHeader();
    var q := u.MainOf();
    ChunkSteps(input, Nested([], MAX_DEPTH), ParseHeader(input));
    if !u.err.Fine? {
      return Err(u.err);
    }
    ChunkGiven(input);
    return Ok(q);
  }
}
