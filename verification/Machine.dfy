/**
 The target machine of the expression code generator: Lua values, the instructions the
 expression fragment emits, and the meaning the dispatch loop gives them.
 */
module Machine {
  import opened Options

  /** A Lua float, as the extended real it denotes. */
  datatype Float = Finite(r: real) | PosInf | NegInf | NaN

  datatype Value = Nil | False | True | Int(i: int) | Flt(f: Float) | Str(s: string) | Obj(id: nat)

  predicate Truthy(v: Value) {
    v != Nil && v != False
  }

  function Bool(b: bool): Value {
    if b then True else False
  }

  predicate IsNumber(v: Value) {
    v.Int? || v.Flt?
  }

  function AsFloat(v: Value): Float
    requires IsNumber(v)
  {
    match v
    case Int(i) => Finite(i as real)
    case Flt(f) => f
  }

  predicate FloatLess(x: Float, y: Float) {
    match (x, y)
    case (Finite(a), Finite(b)) => a < b
    case (NegInf, Finite(_)) => true
    case (NegInf, PosInf) => true
    case (Finite(_), PosInf) => true
    case (_, _) => false
  }

  predicate FloatEqual(x: Float, y: Float) {
    x != NaN && x == y
  }

  /** The integer a float denotes exactly, within the 64-bit range (fltToIntEq). */
  function ExactInt(f: Float): Option<int> {
    if f.Finite? && f.r == f.r.Floor as real && -0x8000_0000_0000_0000 <= f.r.Floor < 0x8000_0000_0000_0000
    then Some(f.r.Floor) else None
  }

  /** Any two floats are in exactly one order, the reals in their own, unless one is NaN, which is in
      no order with anything, itself included. */
  lemma FloatsInOrder(x: Float, y: Float)
    ensures FloatLess(x, y) || FloatLess(y, x) || FloatEqual(x, y) <==> x != NaN && y != NaN
    ensures !(FloatLess(x, y) && FloatLess(y, x)) && !(FloatLess(x, y) && FloatEqual(x, y))
    ensures FloatEqual(x, y) ==> x == y
    ensures x.Finite? && y.Finite? ==> (FloatLess(x, y) <==> x.r < y.r)
    ensures x.Finite? ==> FloatLess(NegInf, x) && FloatLess(x, PosInf)
    ensures FloatLess(NegInf, PosInf)
  {
  }

  lemma ExactIntIs(f: Float, i: int)
    ensures ExactInt(f) == Some(i) <==> f == Finite(i as real) && -0x8000_0000_0000_0000 <= i <= 0x7FFF_FFFF_FFFF_FFFF
  {
    if f == Finite(i as real) { assert f.r.Floor == i; }
  }

  /** The two primitive order comparisons. */
  datatype Order = Less | LessEqual

  /**
   What the embedding supplies: `__eq` on two objects, and every order comparison that is
   not between two numbers (strings, metamethods); None is a raised error.
   */
  datatype Host = Host(eq: (Value, Value) -> Option<bool>, order: (Order, Value, Value) -> Option<bool>)

  /** A comparison that the host makes. */
  datatype Call = EqCall(v: Value, w: Value) | OrderCall(op: Order, v: Value, w: Value)

  /** A result, or the comparison that raised an error. */
  datatype Answer<T> = Gives(value: T) | Throws(call: Call)

  function Ask(h: Host, call: Call): Answer<bool> {
    var a := if call.EqCall? then h.eq(call.v, call.w) else h.order(call.op, call.v, call.w);
    if a.Some? then Gives(a.value) else Throws(call)
  }

  function Negation(a: Answer<bool>): Answer<bool> {
    if a.Gives? then Gives(!a.value) else a
  }

  predicate RawEqual(v: Value, w: Value) {
    if IsNumber(v) && IsNumber(w) then FloatEqual(AsFloat(v), AsFloat(w)) else v == w
  }

  function Equal(h: Host, v: Value, w: Value): Answer<bool> {
    if !RawEqual(v, w) && v.Obj? && w.Obj? then Ask(h, EqCall(v, w)) else Gives(RawEqual(v, w))
  }

  function Compare(h: Host, op: Order, v: Value, w: Value): Answer<bool> {
    if IsNumber(v) && IsNumber(w) then
      var x, y := AsFloat(v), AsFloat(w);
      Gives(FloatLess(x, y) || (op == LessEqual && FloatEqual(x, y)))
    else
      Ask(h, OrderCall(op, v, w))
  }

  // ---------------------------------------------------------------------------------------------
  // Instructions

  const NO_REG := 255
  const NO_JUMP := -1

  /** The bias of a jump's offset. */
  const OFFSET_SJ := 16777215

  type Reg = x: int | 0 <= x < 256

  type Regs = r: seq<Value> | |r| == 256 witness seq(256, i => Nil)

  /** The condition of a test instruction. The immediate forms carry the decoded operand. */
  datatype Cond =
    | CTest(a: Reg)
    | CEq(a: Reg, b: Reg)
    | CEqK(a: Reg, kx: nat)
    | CEqI(a: Reg, im: int)
    | COrder(op: Order, a: Reg, b: Reg)
    | COrderI(op: Order, a: Reg, im: int, isFloat: bool)     // OP_LTI, OP_LEI
    | CFlipI(op: Order, a: Reg, im: int, isFloat: bool)      // OP_GTI, OP_GEI

  datatype Instr =
    | Move(a: Reg, b: Reg)
    | LoadI(a: Reg, i: int)
    | LoadF(a: Reg, i: int)
    | LoadK(a: Reg, kx: nat)
    | LoadKX(a: Reg)
    | ExtraArg(ax: nat)
    | LoadFalse(a: Reg)
    | LFalseSkip(a: Reg)
    | LoadTrue(a: Reg)
    | LoadNil(a: Reg, n: nat)
    | NotOp(a: Reg, b: Reg)
    | Jmp(sj: int)
    | Branch(cond: Cond, k: bool)          // OP_TEST and the comparisons
    | TestSet(a: Reg, b: Reg, k: bool)
    | OtherOp

  type Code = seq<Instr>

  predicate IsTest(i: Instr) {
    i.Branch? || i.TestSet?
  }

  function Immediate(im: int, isFloat: bool): Value {
    if isFloat then Flt(Finite(im as real)) else Int(im)
  }

  function Holds(h: Host, K: seq<Value>, cond: Cond, r: Regs): Answer<bool> {
    match cond
    case CTest(a) => Gives(Truthy(r[a]))
    case CEq(a, b) => Equal(h, r[a], r[b])
    case CEqK(a, kx) => Gives(kx < |K| && RawEqual(r[a], K[kx]))
    case CEqI(a, im) => Gives(IsNumber(r[a]) && FloatEqual(AsFloat(r[a]), Finite(im as real)))
    case COrder(op, a, b) => Compare(h, op, r[a], r[b])
    case COrderI(op, a, im, isf) => Compare(h, op, r[a], Immediate(im, isf))
    case CFlipI(op, a, im, isf) => Compare(h, op, Immediate(im, isf), r[a])
  }

  function Clear(r: Regs, a: nat, n: nat): (r': Regs)
    ensures forall i :: 0 <= i < 256 ==> r'[i] == if a <= i <= a + n then Nil else r[i]
  {
    seq(256, i requires 0 <= i < 256 => if a <= i <= a + n then Nil else r[i])
  }

  // ---------------------------------------------------------------------------------------------
  // One instruction

  datatype Outcome =
    | Next(pc: int, r: Regs)
    | Leave(j: int, r: Regs)    // about to take the pending jump at j
    | Fault(call: Call)         // a comparison raised
    | Wedge                     // outside the machine's contract

  /** A test at pc whose jump, when taken, is the instruction at pc + 1. */
  function Fork(c: Code, P: set<int>, pc: nat, taken: bool, r: Regs, r': Regs): Outcome {
    if !taken then Next(pc + 2, r)
    else if pc + 1 in P then Leave(pc + 1, r)
    else if pc + 1 < |c| && c[pc + 1].Jmp? then Next(pc + 2 + c[pc + 1].sj, r')
    else Wedge
  }

  /**
   The dispatch loop on the instruction at pc. P is the set of jumps whose target is not known
   yet: a test about to take one of them leaves instead. With P empty this is the machine itself.
   */
  function Step(h: Host, K: seq<Value>, c: Code, P: set<int>, pc: nat, r: Regs): Outcome
    requires pc < |c|
  {
    match c[pc]
    case Move(a, b) => Next(pc + 1, r[a := r[b]])
    case LoadI(a, i) => Next(pc + 1, r[a := Int(i)])
    case LoadF(a, i) => Next(pc + 1, r[a := Flt(Finite(i as real))])
    case LoadK(a, kx) => if kx < |K| then Next(pc + 1, r[a := K[kx]]) else Wedge
    case LoadKX(a) =>
      if pc + 1 < |c| && c[pc + 1].ExtraArg? && c[pc + 1].ax < |K|
      then Next(pc + 2, r[a := K[c[pc + 1].ax]]) else Wedge
    case ExtraArg(_) => Wedge
    case LoadFalse(a) => Next(pc + 1, r[a := False])
    case LFalseSkip(a) => Next(pc + 2, r[a := False])
    case LoadTrue(a) => Next(pc + 1, r[a := True])
    case LoadNil(a, n) => Next(pc + 1, Clear(r, a, n))
    case NotOp(a, b) => Next(pc + 1, r[a := Bool(!Truthy(r[b]))])
    case Jmp(sj) => if pc in P then Wedge else Next(pc + 1 + sj, r)
    case Branch(cond, k) =>
      if cond.CEqK? && cond.kx >= |K| then Wedge else
      (match Holds(h, K, cond, r)
       case Throws(call) => Fault(call)
       case Gives(t) => Fork(c, P, pc, t == k, r, r))
    case TestSet(a, b, k) => Fork(c, P, pc, Truthy(r[b]) == k, r, r[a := r[b]])
    case OtherOp => Wedge
  }

  // ---------------------------------------------------------------------------------------------
  // Forward execution

  datatype Exit =
    | AtEnd(r: Regs)
    | Via(j: int, r: Regs)
    | Raised(q: int, r: Regs, call: Call)   // by the comparison at q
    | Stuck

  /** Run from pc up to end. Expression code only jumps forward; a backward jump is Stuck. */
  function Exec(h: Host, K: seq<Value>, c: Code, P: set<int>, end: nat, pc: nat, r: Regs): Exit
    requires end <= |c|
    decreases end - pc
  {
    if pc == end then AtEnd(r)
    else if pc > end then Stuck
    else
      match Step(h, K, c, P, pc, r)
      case Next(pc', r') => if pc' > pc then Exec(h, K, c, P, end, pc', r') else Stuck
      case Leave(j, r') => Via(j, r')
      case Fault(call) => Raised(pc, r, call)
      case Wedge => Stuck
  }

  /** The register file with which the jump at j, once resolved, arrives at its target. */
  function Arrive(c: Code, j: int, r: Regs): Regs {
    if 1 <= j <= |c| && c[j - 1].TestSet? then r[c[j - 1].a := r[c[j - 1].b]] else r
  }

  function Target(c: Code, j: int): int {
    if 0 <= j < |c| && c[j].Jmp? then j + 1 + c[j].sj else -1
  }

  /** What becomes of a run that left through j once j is no longer pending. */
  function Resume(h: Host, K: seq<Value>, c: Code, Q: set<int>, end: nat, j: int, r: Regs): Exit
    requires end <= |c|
  {
    var t := Target(c, j);
    if t > j - 1 && t >= 0 then Exec(h, K, c, Q, end, t, Arrive(c, j, r)) else Stuck
  }

  lemma {:induction false} ExecJoin(h: Host, K: seq<Value>, c: Code, P: set<int>, Q: set<int>,
                                    mid: nat, end: nat, pc: nat, r: Regs)
    requires pc <= mid <= end <= |c| && Q <= P
    requires Exec(h, K, c, P, mid, pc, r) != Stuck
    ensures var e, e' := Exec(h, K, c, P, mid, pc, r), Exec(h, K, c, Q, end, pc, r);
            && (e.AtEnd? ==> e' == Exec(h, K, c, Q, end, mid, e.r))
            && (e.Via? ==> e' == if e.j in Q then e else Resume(h, K, c, Q, end, e.j, e.r))
            && (e.Raised? ==> e' == e)
    decreases mid - pc
  {
    if pc < mid {
      match Step(h, K, c, P, pc, r)
      case Next(pc', r') =>
        assert Step(h, K, c, Q, pc, r) == Step(h, K, c, P, pc, r);
        ExecJoin(h, K, c, P, Q, mid, end, pc', r');
      case Leave(j, r') =>
      case Fault(_) =>
      case Wedge =>
    }
  }

  // ---------------------------------------------------------------------------------------------
  // Code that behaves alike

  /** Both instructions test the truth of the same register with the same polarity. */
  predicate SameTest(i: Instr, i': Instr) {
    && (i.TestSet? || (i.Branch? && i.cond.CTest?))
    && (i'.TestSet? || (i'.Branch? && i'.cond.CTest?))
    && i.k == i'.k
    && (if i.TestSet? then i.b else i.cond.a) == (if i'.TestSet? then i'.b else i'.cond.a)
  }

  /** While the jumps in P are pending, neither their offsets nor the destination of a TESTSET
      that controls one of them can be observed. */
  predicate Alike(c: Code, c': Code, P: set<int>, i: nat)
    requires i < |c| && i < |c'|
  {
    || c[i] == c'[i]
    || (i in P && c[i].Jmp? && c'[i].Jmp?)
    || (i + 1 in P && SameTest(c[i], c'[i]))
  }

  /** The instruction at i is whole: a two-instruction idiom has its second half before end,
      and a jump that is not pending goes forward, at most to the label lt. */
  predicate Neat(c: Code, P: set<int>, end: nat, lt: int, i: nat)
    requires i < end <= |c|
  {
    && (IsTest(c[i]) ==> i + 1 < end && c[i + 1].Jmp?)
    && (c[i].LFalseSkip? ==> i + 1 < end && c[i + 1].LoadTrue?)
    && (c[i].LoadKX? ==> i + 1 < end && c[i + 1].ExtraArg?)
    && (c[i].Jmp? && i !in P ==> 0 <= c[i].sj && i + 1 + c[i].sj <= lt)
  }

  ghost predicate Shape(c: Code, P: set<int>, s: nat, end: nat, lt: int)
    requires end <= |c|
  {
    forall i :: s <= i < end ==> Neat(c, P, end, lt, i)
  }

  lemma StepAlike(h: Host, K: seq<Value>, c: Code, P: set<int>, K': seq<Value>, c': Code, P': set<int>,
                  s: nat, end: nat, lt: int, pc: nat, r: Regs)
    requires s <= pc < end <= |c| && end <= |c'| && K <= K'
    requires Shape(c, P, s, end, lt)
    requires forall i :: s <= i < end ==> Alike(c, c', P, i) && (i in P <==> i in P')
    requires Step(h, K, c, P, pc, r) != Wedge
    ensures Step(h, K', c', P', pc, r) == Step(h, K, c, P, pc, r)
  {
    assert Neat(c, P, end, lt, pc) && Alike(c, c', P, pc);
    if IsTest(c[pc]) || c[pc].LoadKX? {
      assert Alike(c, c', P, pc + 1);
      assert c[pc + 1].Jmp? || c[pc + 1].ExtraArg?;
    }
  }

  lemma {:induction false} ExecAlike(h: Host, K: seq<Value>, c: Code, P: set<int>, K': seq<Value>, c': Code,
                                     P': set<int>, s: nat, end: nat, lt: int, pc: nat, r: Regs)
    requires s <= pc <= end <= |c| && end <= |c'| && K <= K'
    requires Shape(c, P, s, end, lt)
    requires forall i :: s <= i < end ==> Alike(c, c', P, i) && (i in P <==> i in P')
    requires Exec(h, K, c, P, end, pc, r) != Stuck
    ensures Exec(h, K', c', P', end, pc, r) == Exec(h, K, c, P, end, pc, r)
    decreases end - pc
  {
    if pc < end {
      StepAlike(h, K, c, P, K', c', P', s, end, lt, pc, r);
      match Step(h, K, c, P, pc, r)
      case Next(pc', r') => ExecAlike(h, K, c, P, K', c', P', s, end, lt, pc', r');
      case Leave(_, _) =>
      case Fault(_) =>
      case Wedge =>
    }
  }

  /** Later code, later constants and later patches: what a run up to mid becomes. */
  lemma Continue(h: Host, K: seq<Value>, c: Code, P: set<int>, K': seq<Value>, c': Code, P': set<int>, Q: set<int>,
                 s: nat, mid: nat, end: nat, lt: int, r: Regs)
    requires s <= mid <= |c| && mid <= end <= |c'| && K <= K' && Q <= P'
    requires Shape(c, P, s, mid, lt)
    requires forall i :: s <= i < mid ==> Alike(c, c', P, i) && (i in P <==> i in P')
    requires Exec(h, K, c, P, mid, s, r) != Stuck
    ensures var e, e' := Exec(h, K, c, P, mid, s, r), Exec(h, K', c', Q, end, s, r);
            && (e.AtEnd? ==> e' == Exec(h, K', c', Q, end, mid, e.r))
            && (e.Via? ==> e' == if e.j in Q then e else Resume(h, K', c', Q, end, e.j, e.r))
            && (e.Raised? ==> e' == e)
  {
    ExecAlike(h, K, c, P, K', c', P', s, mid, lt, s, r);
    ExecJoin(h, K', c', P', Q, mid, end, s, r);
  }

  /** A run leaves only through a pending jump of its own segment, from the test before it. */
  lemma {:induction false} ViaInside(h: Host, K: seq<Value>, c: Code, P: set<int>, s: nat, end: nat, lt: int,
                                     pc: nat, r: Regs)
    requires s <= pc <= end <= |c|
    requires Shape(c, P, s, end, lt)
    requires Exec(h, K, c, P, end, pc, r).Via?
    ensures var j := Exec(h, K, c, P, end, pc, r).j;
            j in P && s < j < end && IsTest(c[j - 1]) && c[j].Jmp?
    decreases end - pc
  {
    if pc < end {
      assert Neat(c, P, end, lt, pc);
      match Step(h, K, c, P, pc, r)
      case Next(pc', r') => ViaInside(h, K, c, P, s, end, lt, pc', r');
      case Leave(_, _) =>
      case Fault(_) =>
      case Wedge =>
    }
  }

  /** A run raises an error only inside its segment. */
  lemma {:induction false} RaisedInside(h: Host, K: seq<Value>, c: Code, P: set<int>, end: nat, pc: nat, r: Regs)
    requires pc <= end <= |c| && Exec(h, K, c, P, end, pc, r).Raised?
    ensures pc <= Exec(h, K, c, P, end, pc, r).q < end
    decreases end - pc
  {
    match Step(h, K, c, P, pc, r)
    case Next(pc', r') => RaisedInside(h, K, c, P, end, pc', r');
    case Leave(_, _) =>
    case Fault(_) =>
    case Wedge =>
  }
}
