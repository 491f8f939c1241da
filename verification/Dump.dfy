/**
 The printer of binary chunks: a writer with a sticky error on top of a destination that may run
 out of room at any byte.
 */
module Dump {
  import opened ByteStrings
  import opened Words
  import Binary
  import opened Chunk

  /** The destination: what it took, whether it failed, and how much it can take. */
  datatype Sink = Sink(out: Bytes, err: bool, room: nat)

  /** Writing b: all of it, or as much as there is room for and then nothing ever after. */
  function Fed(s: Sink, b: Bytes): Sink
    requires |s.out| <= s.room
  {
    if s.err then s
    else if |s.out| + |b| <= s.room then s.(out := s.out + b)
    else s.(out := s.out + b[..s.room - |s.out|], err := true)
  }

  lemma FedJoin(s: Sink, a: Bytes, b: Bytes)
    requires |s.out| <= s.room
    ensures |Fed(s, a).out| <= s.room && Fed(s, a).room == s.room
    ensures Fed(Fed(s, a), b) == Fed(s, a + b)
  {
    if !s.err {
      if |s.out| + |a| <= s.room {
        var n := s.room - |s.out|;
        assert s.out + a + b == s.out + (a + b);
        if |s.out| + |a| + |b| > s.room {
          assert (a + b)[..n] == a + b[..n - |a|];
        }
      } else {
        var n := s.room - |s.out|;
        assert (a + b)[..n] == a[..n];
      }
    }
  }

  lemma FedNothing(s: Sink)
    requires |s.out| <= s.room
    ensures Fed(s, []) == s
  {
  }

  lemma FedFresh(room: nat, b: Bytes)
    ensures var s := Fed(Sink([], false, room), b);
            (s.err <==> |b| > room) && (!s.err ==> s.out == b)
  {
    assert [] + b == b;
  }

  function Pow128(n: nat): (r: nat)
    ensures r >= 1
  {
    if n == 0 then 1 else 128 * Pow128(n - 1)
  }

  lemma Pow128Ten()
    ensures Pow128(10) == 0x40_0000_0000_0000_0000
  {
    assert Pow128(2) == 0x4000 && Pow128(4) == 0x1000_0000 && Pow128(6) == 0x400_0000_0000;
    assert Pow128(8) == 0x100_0000_0000_0000;
  }

  /** compressLines. */
  method CompressLines(lines: seq<int>, lineDefined: int) returns (lineinfo: Bytes, abs: seq<AbsLine>)
    ensures lineinfo == Deltas(lines, 0, lineDefined, 0)
    ensures abs == Absolutes(lines, 0, lineDefined, 0)
  {
    lineinfo, abs := [], [];
    var previousline, iwthabs := lineDefined, 0;
    for pc := 0 to |lines|
      invariant lineinfo + Deltas(lines, pc, previousline, iwthabs) == Deltas(lines, 0, lineDefined, 0)
      invariant abs + Absolutes(lines, pc, previousline, iwthabs) == Absolutes(lines, 0, lineDefined, 0)
    {
      var line := lines[pc];
      var linedif, takeAbs := line - previousline, false;
      ghost var prev, iwth := previousline, iwthabs;
      if linedif >= LIM_LINE_DIFF || linedif <= -LIM_LINE_DIFF {
        takeAbs := true;
      } else {
        if iwthabs >= MAX_IWTH_ABS {
          takeAbs := true;
        }
        iwthabs := iwthabs + 1;
      }
      Unfolded(lines, pc, prev, iwth, lineinfo, abs);
      if takeAbs {
        abs := abs + [AbsLine(pc, line)];
        linedif := -0x80;
        iwthabs := 1;
      }
      lineinfo := lineinfo + [DeltaByte(linedif)];
      previousline := line;
    }
  }

  lemma Unfolded(lines: seq<int>, pc: nat, prev: int, iwthabs: int, info: Bytes, abs: seq<AbsLine>)
    requires pc < |lines|
    ensures TakesAbs(lines[pc] - prev, iwthabs) ==>
              && info + Deltas(lines, pc, prev, iwthabs) ==
                 info + [DeltaByte(-0x80)] + Deltas(lines, pc + 1, lines[pc], 1)
              && abs + Absolutes(lines, pc, prev, iwthabs) ==
                 abs + [AbsLine(pc, lines[pc])] + Absolutes(lines, pc + 1, lines[pc], 1)
    ensures !TakesAbs(lines[pc] - prev, iwthabs) ==>
              && info + Deltas(lines, pc, prev, iwthabs) ==
                 info + [DeltaByte(lines[pc] - prev)] + Deltas(lines, pc + 1, lines[pc], iwthabs + 1)
              && Absolutes(lines, pc, prev, iwthabs) == Absolutes(lines, pc + 1, lines[pc], iwthabs + 1)
  {
    if TakesAbs(lines[pc] - prev, iwthabs) {
      Append(info, DeltaByte(-0x80), Deltas(lines, pc + 1, lines[pc], 1));
      Append(abs, AbsLine(pc, lines[pc]), Absolutes(lines, pc + 1, lines[pc], 1));
    } else {
      Append(info, DeltaByte(lines[pc] - prev), Deltas(lines, pc + 1, lines[pc], iwthabs + 1));
    }
  }

  lemma Append<T>(a: seq<T>, x: T, rest: seq<T>)
    ensures a + [x] + rest == a + ([x] + rest)
  {
  }

  /** A counted list up to its i-th element. */
  function Upto(parts: seq<Bytes>, i: nat): Bytes
    requires i <= |parts|
  {
    if i == 0 then Size(|parts|) else Upto(parts, i - 1) + parts[i - 1]
  }

  lemma {:induction false} NextPart(s: Sink, parts: seq<Bytes>, i: nat)
    requires |s.out| <= s.room && i < |parts|
    ensures |Fed(s, Upto(parts, i)).out| <= s.room
    ensures Fed(Fed(s, Upto(parts, i)), parts[i]) == Fed(s, Upto(parts, i + 1))
  {
    FedJoin(s, Upto(parts, i), parts[i]);
  }

  lemma {:induction false} UptoFrom(parts: seq<Bytes>, i: nat)
    requires i <= |parts|
    ensures Upto(parts, i) + From(parts, i) == Counted(parts)
    decreases i
  {
    if i > 0 {
      UptoFrom(parts, i - 1);
      assert Upto(parts, i - 1) + (parts[i - 1] + From(parts, i)) == Upto(parts, i - 1) + parts[i - 1] + From(parts, i);
    }
  }

  lemma {:induction false} AllParts(parts: seq<Bytes>)
    ensures Upto(parts, |parts|) == Counted(parts)
  {
    UptoFrom(parts, |parts|);
  }

  lemma Shrinks(x: nat, n: nat)
    requires 0 < x < Pow128(n)
    ensures n > 0 && x / 128 < Pow128(n - 1)
  {
  }

  lemma MarkLast(x: nat, b: Bytes)
    requires b == Groups(x)
    ensures b[..|b| - 1] + [b[|b| - 1] + 128] == Size(x)
  {
  }

  lemma SplitGroup(x: nat, b: Bytes)
    requires x != 0
    ensures Groups(x) + b == (if x / 128 == 0 then [] else Groups(x / 128)) + ([x % 128] + b)
  {
  }

  /** One round of the loop in size. */
  lemma NextGroup(x: nat, b: Bytes, n: nat)
    requires 0 < x < Pow128(n)
    ensures n > 0 && x / 128 < Pow128(n - 1)
    ensures Groups(x) + b == (if x / 128 == 0 then [] else Groups(x / 128)) + ([x % 128] + b)
  {
    SplitGroup(x, b);
    Shrinks(x, n);
  }

  class DumpWriter {
    const room: nat
    var out: Bytes
    var err: bool

    constructor (room: nat)
      ensures Valid() && State() == Sink([], false, room)
    {
      this.room, out, err := room, [], false;
    }

    predicate Valid()
      reads this
    {
      |out| <= room
    }

    function State(): Sink
      reads this
    {
      Sink(out, err, room)
    }

    method Raw(b: Bytes)
      requires Valid()
      modifies this
      ensures Valid() && State() == Fed(old(State()), b)
    {
      if err {
        return;
      }
      if |out| + |b| <= room {
        out := out + b;
      } else {
        out := out + b[..room - |out|];
        err := true;
      }
    }

    /** size: the groups are laid down from the end of a buffer of ten bytes, which is long enough. */
    method SizeOf(x0: nat)
      requires Valid() && x0 < TWO64
      modifies this
      ensures Valid() && State() == Fed(old(State()), Size(x0))
    {
      if err {
        return;
      }
      var b: Bytes, n, x := [x0 % 128], 1, x0 / 128;
      Pow128Ten();
      while x != 0
        invariant 1 <= n == |b| <= 10 && 0 <= x < Pow128(10 - n) && State() == old(State())
        invariant Groups(x0) == (if x == 0 then [] else Groups(x)) + b
        decreases x
      {
        NextGroup(x, b, 10 - n);
        n := n + 1;
        b := [x % 128] + b;
        x := x / 128;
      }
      MarkLast(x0, b);
      Raw(b[..n - 1] + [b[n - 1] + 128]);
    }

    method VInt(v: int)
      requires Valid()
      modifies this
      ensures Valid() && State() == Fed(old(State()), Size(Clip(v)))
    {
      SizeOf(Unsigned(v));
    }

    method StrOf(s: Bytes)
      requires Valid() && |s| <= MAX_INT
      modifies this
      ensures Valid() && State() == Fed(old(State()), Str(s))
    {
      FedJoin(State(), Size(|s| + 1), s);
      SizeOf(|s| + 1);
      Raw(s);
    }

    method ConstantOf(k: Constant)
      requires Valid() && (k.CStr? ==> |k.s| <= MAX_INT)
      modifies this
      ensures Valid() && State() == Fed(old(State()), ConstantBytes(k))
    {
      FedJoin(State(), [ConstantTag(k)], ConstantBody(k));
      ghost var s1 := Fed(State(), [ConstantTag(k)]);
      FedNothing(s1);
      match k {
        case CNil => Raw([0x00]);
        case CFalse => Raw([0x01]);
        case CTrue => Raw([0x11]);
        case CInt(i) =>
          Raw([0x03]);
          Raw(Binary.Digits(Unsigned(i), 8));
        case CFloat(bits) =>
          Raw([0x13]);
          Raw(Binary.Digits(bits, 8));
        case CStr(s) =>
          Raw([if |s| <= MAX_SHORT then 0x04 else 0x14]);
          StrOf(s);
      }
    }

    /** The length of a list. */
    method Count(n: nat)
      requires Valid() && n < TWO64
      modifies this
      ensures Valid() && State() == Fed(old(State()), Size(n))
    {
      VInt(n);
    }

    method CodeOf(code: seq<Word>)
      requires Valid() && |code| <= MAX_INT
      modifies this
      ensures Valid() && State() == Fed(old(State()), Counted(CodeParts(code)))
    {
      ghost var s0, parts := State(), CodeParts(code);
      Count(|code|);
      for i := 0 to |code|
        invariant Valid() && State() == Fed(s0, Upto(parts, i))
      {
        NextPart(s0, parts, i);
        Raw(Binary.Digits(code[i], 4));
      }
      AllParts(parts);
    }

    method ConstantsOf(ks: seq<Constant>)
      requires Valid() && |ks| <= MAX_INT && forall i :: 0 <= i < |ks| && ks[i].CStr? ==> |ks[i].s| <= MAX_INT
      modifies this
      ensures Valid() && State() == Fed(old(State()), Counted(ConstantParts(ks)))
    {
      ghost var s0, parts := State(), ConstantParts(ks);
      Count(|ks|);
      for i := 0 to |ks|
        invariant Valid() && State() == Fed(s0, Upto(parts, i))
      {
        NextPart(s0, parts, i);
        ConstantOf(ks[i]);
      }
      AllParts(parts);
    }

    method UpvaluesOf(uvs: seq<UpvalDesc>)
      requires Valid() && |uvs| <= MAX_INT
      modifies this
      ensures Valid() && State() == Fed(old(State()), Counted(UpvalueParts(uvs)))
    {
      ghost var s0, parts := State(), UpvalueParts(uvs);
      Count(|uvs|);
      for i := 0 to |uvs|
        invariant Valid() && State() == Fed(s0, Upto(parts, i))
      {
        NextPart(s0, parts, i);
        FedJoin(State(), Flag(uvs[i].inStack), [uvs[i].index]);
        FedJoin(State(), Flag(uvs[i].inStack) + [uvs[i].index], [uvs[i].kind]);
        Raw(Flag(uvs[i].inStack));
        Raw([uvs[i].index]);
        Raw([uvs[i].kind]);
      }
      AllParts(parts);
    }

    method LineInfoOf(info: Bytes)
      requires Valid() && |info| <= MAX_INT
      modifies this
      ensures Valid() && State() == Fed(old(State()), Counted(BytesOf(info)))
    {
      ghost var s0, parts := State(), BytesOf(info);
      Count(|info|);
      for i := 0 to |info|
        invariant Valid() && State() == Fed(s0, Upto(parts, i))
      {
        NextPart(s0, parts, i);
        Raw([info[i]]);
      }
      AllParts(parts);
    }

    method AbsLineOf(a: AbsLine)
      requires Valid() && a.pc <= MAX_INT
      modifies this
      ensures Valid() && State() == Fed(old(State()), Size(a.pc) + Size(Clip(a.line)))
    {
      FedJoin(State(), Size(a.pc), Size(Clip(a.line)));
      VInt(a.pc);
      VInt(a.line);
    }

    method AbsOf(abs: seq<AbsLine>)
      requires Valid() && |abs| <= MAX_INT && forall i :: 0 <= i < |abs| ==> abs[i].pc <= MAX_INT
      modifies this
      ensures Valid() && State() == Fed(old(State()), Counted(AbsParts(abs)))
    {
      ghost var s0, parts := State(), AbsParts(abs);
      Count(|abs|);
      for i := 0 to |abs|
        invariant Valid() && State() == Fed(s0, Upto(parts, i))
      {
        NextPart(s0, parts, i);
        AbsLineOf(abs[i]);
      }
      AllParts(parts);
    }

    method LocVarOf(v: LocVar)
      requires Valid() && |v.name| <= MAX_INT
      modifies this
      ensures Valid() && State() == Fed(old(State()), Str(v.name) + Size(Clip(v.startPc)) + Size(Clip(v.endPc)))
    {
      FedJoin(State(), Str(v.name), Size(Clip(v.startPc)));
      FedJoin(State(), Str(v.name) + Size(Clip(v.startPc)), Size(Clip(v.endPc)));
      StrOf(v.name);
      VInt(v.startPc);
      VInt(v.endPc);
    }

    method LocVarsOf(vs: seq<LocVar>)
      requires Valid() && |vs| <= MAX_INT && forall i :: 0 <= i < |vs| ==> |vs[i].name| <= MAX_INT
      modifies this
      ensures Valid() && State() == Fed(old(State()), Counted(LocVarParts(vs)))
    {
      ghost var s0, parts := State(), LocVarParts(vs);
      Count(|vs|);
      for i := 0 to |vs|
        invariant Valid() && State() == Fed(s0, Upto(parts, i))
      {
        NextPart(s0, parts, i);
        LocVarOf(vs[i]);
      }
      AllParts(parts);
    }

    method NamesOf(uvs: seq<UpvalDesc>)
      requires Valid() && |uvs| <= MAX_INT && forall i :: 0 <= i < |uvs| ==> |uvs[i].name| <= MAX_INT
      modifies this
      ensures Valid() && State() == Fed(old(State()), Counted(NameParts(uvs)))
    {
      ghost var s0, parts := State(), NameParts(uvs);
      Count(|uvs|);
      for i := 0 to |uvs|
        invariant Valid() && State() == Fed(s0, Upto(parts, i))
      {
        NextPart(s0, parts, i);
        StrOf(uvs[i].name);
      }
      AllParts(parts);
    }

    method Debug(p: Proto, strip: bool)
      requires Valid() && Sized(p)
      modifies this
      ensures Valid() && State() == Fed(old(State()), DebugBytes(p, strip))
    {
      ghost var s0 := State();
      if strip {
        VInt(0);
        FedJoin(s0, Size(0), Size(0));
        VInt(0);
        FedJoin(s0, Size(0) + Size(0), Size(0));
        VInt(0);
        FedJoin(s0, Size(0) + Size(0) + Size(0), Size(0));
        VInt(0);
        return;
      }
      var lineinfo, abs := CompressLines(p.lineInfo, p.lineDefined);
      ghost var b1, b2 := Counted(BytesOf(lineinfo)), Counted(AbsParts(abs));
      ghost var b3, b4 := Counted(LocVarParts(p.locVars)), Counted(NameParts(p.upvalues));
      LineInfoOf(lineinfo);
      FedJoin(s0, b1, b2);
      AbsOf(abs);
      FedJoin(s0, b1 + b2, b3);
      LocVarsOf(p.locVars);
      FedJoin(s0, b1 + b2 + b3, b4);
      NamesOf(p.upvalues);
    }

    method HeadOf(p: Proto)
      requires Valid()
      modifies this
      ensures Valid() && State() == Fed(old(State()), HeadBytes(p))
    {
      ghost var s0 := State();
      ghost var b1, b2 := Size(Clip(p.lineDefined)), Size(Clip(p.lastLine));
      VInt(p.lineDefined);
      FedJoin(s0, b1, b2);
      VInt(p.lastLine);
      FedJoin(s0, b1 + b2, [p.numParams]);
      Raw([p.numParams]);
      FedJoin(s0, b1 + b2 + [p.numParams], Flag(p.isVararg));
      Raw(Flag(p.isVararg));
      FedJoin(s0, b1 + b2 + [p.numParams] + Flag(p.isVararg), [p.maxStack]);
      Raw([p.maxStack]);
    }

    method Function(p: Proto, strip: bool, parentSource: Bytes, ghost f: Spelling)
      requires Valid() && Sized(p) && Spells(f, strip)
      modifies this
      ensures Valid() && State() == Fed(old(State()), f(p, parentSource))
      decreases p, 1
    {
      ghost var s0 := State();
      ghost var b1, b2, b3 := SourceBytes(p, strip, parentSource), HeadBytes(p), Counted(CodeParts(p.code));
      ghost var b4, b5 := Counted(ConstantParts(p.constants)), Counted(UpvalueParts(p.upvalues));
      ghost var b6 := Size(|p.protos|) + ListFrom(f, p.protos, p.source, 0);
      if strip || p.source == parentSource {
        SizeOf(0);
      } else {
        StrOf(p.source);
      }
      FedJoin(s0, b1, b2);
      HeadOf(p);
      FedJoin(s0, b1 + b2, b3);
      CodeOf(p.code);
      FedJoin(s0, b1 + b2 + b3, b4);
      ConstantsOf(p.constants);
      FedJoin(s0, b1 + b2 + b3 + b4, b5);
      UpvaluesOf(p.upvalues);
      FedJoin(s0, b1 + b2 + b3 + b4 + b5, b6);
      ProtosOf(p, strip, f);
      FedJoin(s0, b1 + b2 + b3 + b4 + b5 + b6, DebugBytes(p, strip));
      Debug(p, strip);
      ProtoSpelled(f, p, strip, parentSource);
    }

    method ProtosOf(p: Proto, strip: bool, ghost f: Spelling)
      requires Valid() && Sized(p) && |p.protos| <= MAX_INT && Spells(f, strip)
      modifies this
      ensures Valid() && State() == Fed(old(State()), Size(|p.protos|) + ListFrom(f, p.protos, p.source, 0))
      decreases p, 0
    {
      ghost var s0, all, done := State(), Size(|p.protos|) + ListFrom(f, p.protos, p.source, 0), Size(|p.protos|);
      Count(|p.protos|);
      for i := 0 to |p.protos|
        invariant Valid() && State() == Fed(s0, done) && all == done + ListFrom(f, p.protos, p.source, i)
      {
        ghost var b := f(p.protos[i], p.source);
        FedJoin(s0, done, b);
        Function(p.protos[i], strip, p.source, f);
        assert done + (b + ListFrom(f, p.protos, p.source, i + 1)) == done + b + ListFrom(f, p.protos, p.source, i + 1);
        done := done + b;
      }
      assert done == all;
    }

    /** dumpProto. */
    method DumpProto(p: Proto, strip: bool)
      requires Valid() && Sized(p)
      modifies this
      ensures Valid() && State() == Fed(old(State()), ChunkBytes(p, strip))
    {
      ghost var s0 := State();
      HeaderOf();
      FedJoin(s0, Header(), [CountByte(|p.upvalues|)]);
      Raw([CountByte(|p.upvalues|)]);
      ghost var f := Spell(strip);
      assert Spelled(f, strip, p, []);
      FedJoin(s0, Header() + [CountByte(|p.upvalues|)], f(p, []));
      Function(p, strip, [], f);
    }

    method HeaderOf()
      requires Valid()
      modifies this
      ensures Valid() && State() == Fed(old(State()), Header())
    {
      ghost var s0, acc := State(), SIGNATURE;
      Raw(SIGNATURE);
      FedJoin(s0, acc, [VERSION]);
      acc := acc + [VERSION];
      Raw([VERSION]);
      FedJoin(s0, acc, [FORMAT]);
      acc := acc + [FORMAT];
      Raw([FORMAT]);
      FedJoin(s0, acc, DATA);
      acc := acc + DATA;
      Raw(DATA);
      FedJoin(s0, acc, [4]);
      acc := acc + [4];
      Raw([4]);
      FedJoin(s0, acc, [8]);
      acc := acc + [8];
      Raw([8]);
      FedJoin(s0, acc, [8]);
      acc := acc + [8];
      Raw([8]);
      FedJoin(s0, acc, Binary.Digits(CHECK_INT, 8));
      acc := acc + Binary.Digits(CHECK_INT, 8);
      Raw(Binary.Digits(CHECK_INT, 8));
      FedJoin(s0, acc, Binary.Digits(CHECK_NUM, 8));
      Raw(Binary.Digits(CHECK_NUM, 8));
    }
  }
}
