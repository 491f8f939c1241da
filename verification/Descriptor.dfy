/**
 Expression descriptors, jump lists threaded through offsets, and what it means for partly
 patched code to denote a source expression.
 */
module Descriptor {
  import opened Options
  import opened Machine

  // ---------------------------------------------------------------------------------------------
  // Source expressions

  datatype CmpOp = OpEq | OpNe | OpLt | OpLe | OpGt | OpGe

  datatype Expr =
    | Const(v: Value)
    | Local(reg: Reg)
    | NotE(e: Expr)
    | And(l: Expr, r: Expr)
    | Or(l: Expr, r: Expr)
    | Cmp(op: CmpOp, l: Expr, r: Expr)

  /** Constants are literals (never an object), locals are active registers. */
  predicate Closed(x: Expr, nvar: nat) {
    match x
    case Const(v) => !v.Obj?
    case Local(g) => g < nvar
    case NotE(e) => Closed(e, nvar)
    case And(l, r) => Closed(l, nvar) && Closed(r, nvar)
    case Or(l, r) => Closed(l, nvar) && Closed(r, nvar)
    case Cmp(_, l, r) => Closed(l, nvar) && Closed(r, nvar)
  }

  function EvalCmp(h: Host, op: CmpOp, v: Value, w: Value): Answer<bool> {
    match op
    case OpEq => Equal(h, v, w)
    case OpNe => Negation(Equal(h, v, w))
    case OpLt => Compare(h, Less, v, w)
    case OpLe => Compare(h, LessEqual, v, w)
    case OpGt => Compare(h, Less, w, v)
    case OpGe => Compare(h, LessEqual, w, v)
  }

  /** Sections 3.4.4 and 3.4.5 of the Lua 5.4 Reference Manual; a comparison of the host may throw. */
  function Eval(h: Host, x: Expr, r: Regs): Answer<Value> {
    match x
    case Const(v) => Gives(v)
    case Local(g) => Gives(r[g])
    case NotE(e) =>
      (match Eval(h, e, r)
       case Throws(call) => Throws(call)
       case Gives(v) => Gives(Bool(!Truthy(v))))
    case And(a, b) =>
      (match Eval(h, a, r)
       case Throws(call) => Throws(call)
       case Gives(v) => if Truthy(v) then Eval(h, b, r) else Gives(v))
    case Or(a, b) =>
      (match Eval(h, a, r)
       case Throws(call) => Throws(call)
       case Gives(v) => if Truthy(v) then Gives(v) else Eval(h, b, r))
    case Cmp(op, a, b) =>
      (match (Eval(h, a, r), Eval(h, b, r))
       case (Throws(call), _) => Throws(call)
       case (Gives(_), Throws(call)) => Throws(call)
       case (Gives(v), Gives(w)) =>
         (match EvalCmp(h, op, v, w)
          case Throws(call) => Throws(call)
          case Gives(t) => Gives(Bool(t))))
  }

  // What the manual says, in terms of the values alone

  /** An operand is evaluated first: only nil and false are false; `and` and `or` give the operand that
      decides, `not` gives true or false. */
  lemma LogicByManual(h: Host, a: Expr, b: Expr, r: Regs)
    requires Eval(h, a, r).Gives?
    ensures var v := Eval(h, a, r).value; var isFalse := v == Nil || v == False;
            && Eval(h, NotE(a), r) == Gives(if isFalse then True else False)
            && Eval(h, And(a, b), r) == (if isFalse then Gives(v) else Eval(h, b, r))
            && Eval(h, Or(a, b), r) == (if isFalse then Eval(h, b, r) else Gives(v))
  {
  }

  /** Integers compare as integers do, and with finite floats as reals do. */
  lemma IntegersByManual(h: Host, i: int, w: Value)
    requires w.Int? || (w.Flt? && w.f.Finite?)
    ensures var x, y := i as real, if w.Int? then w.i as real else w.f.r;
            && EvalCmp(h, OpEq, Int(i), w) == Gives(x == y) && EvalCmp(h, OpNe, Int(i), w) == Gives(x != y)
            && EvalCmp(h, OpLt, Int(i), w) == Gives(x < y) && EvalCmp(h, OpLe, Int(i), w) == Gives(x <= y)
            && EvalCmp(h, OpGt, Int(i), w) == Gives(x > y) && EvalCmp(h, OpGe, Int(i), w) == Gives(x >= y)
  {
  }

  /** Between two numbers the comparisons go with each other, and NaN differs from every number and is
      in no order with any. */
  lemma NumbersByManual(h: Host, v: Value, w: Value)
    requires IsNumber(v) && IsNumber(w)
    ensures EvalCmp(h, OpNe, v, w) == Negation(EvalCmp(h, OpEq, v, w))
    ensures EvalCmp(h, OpGt, v, w) == EvalCmp(h, OpLt, w, v) && EvalCmp(h, OpGe, v, w) == EvalCmp(h, OpLe, w, v)
    ensures EvalCmp(h, OpLe, v, w) ==
            Gives(EvalCmp(h, OpLt, v, w) == Gives(true) || EvalCmp(h, OpEq, v, w) == Gives(true))
    ensures (v == Flt(NaN) || w == Flt(NaN)) ==>
              forall op :: EvalCmp(h, op, v, w) == Gives(op == OpNe)
    ensures !(v == Flt(NaN) || w == Flt(NaN)) ==>
              (EvalCmp(h, OpLe, v, w) == Gives(true) <==> EvalCmp(h, OpLt, w, v) == Gives(false))
  {
    FloatsInOrder(AsFloat(v), AsFloat(w));
  }

  /** Other values are equal exactly if they are the same one, unless both are objects; and all other
      orders are those of the host. */
  lemma OthersByManual(h: Host, op: CmpOp, v: Value, w: Value)
    requires !(IsNumber(v) && IsNumber(w))
    ensures !(v.Obj? && w.Obj?) || v == w ==>
              (op == OpEq ==> EvalCmp(h, op, v, w) == Gives(v == w))
              && (op == OpNe ==> EvalCmp(h, op, v, w) == Gives(v != w))
    ensures v.Obj? && w.Obj? && v != w ==>
              (op == OpEq ==> EvalCmp(h, op, v, w) == Ask(h, EqCall(v, w)))
              && (op == OpNe ==> EvalCmp(h, op, v, w) == Negation(Ask(h, EqCall(v, w))))
    ensures (op == OpLt ==> EvalCmp(h, op, v, w) == Ask(h, OrderCall(Less, v, w)))
            && (op == OpLe ==> EvalCmp(h, op, v, w) == Ask(h, OrderCall(LessEqual, v, w)))
            && (op == OpGt ==> EvalCmp(h, op, v, w) == Ask(h, OrderCall(Less, w, v)))
            && (op == OpGe ==> EvalCmp(h, op, v, w) == Ask(h, OrderCall(LessEqual, w, v)))
  {
  }

  // The calls of the host, in the order of evaluation

  function CallsOf(op: CmpOp, v: Value, w: Value): seq<Call> {
    match op
    case OpEq => if !RawEqual(v, w) && v.Obj? && w.Obj? then [EqCall(v, w)] else []
    case OpNe => if !RawEqual(v, w) && v.Obj? && w.Obj? then [EqCall(v, w)] else []
    case OpLt => if IsNumber(v) && IsNumber(w) then [] else [OrderCall(Less, v, w)]
    case OpLe => if IsNumber(v) && IsNumber(w) then [] else [OrderCall(LessEqual, v, w)]
    case OpGt => if IsNumber(v) && IsNumber(w) then [] else [OrderCall(Less, w, v)]
    case OpGe => if IsNumber(v) && IsNumber(w) then [] else [OrderCall(LessEqual, w, v)]
  }

  function Calls(h: Host, x: Expr, r: Regs): seq<Call> {
    match x
    case Const(_) => []
    case Local(_) => []
    case NotE(e) => Calls(h, e, r)
    case And(a, b) =>
      var v := Eval(h, a, r);
      Calls(h, a, r) + if v.Gives? && Truthy(v.value) then Calls(h, b, r) else []
    case Or(a, b) =>
      var v := Eval(h, a, r);
      Calls(h, a, r) + if v.Gives? && !Truthy(v.value) then Calls(h, b, r) else []
    case Cmp(op, a, b) =>
      var v, w := Eval(h, a, r), Eval(h, b, r);
      if v.Throws? then Calls(h, a, r)
      else Calls(h, a, r) + Calls(h, b, r) + if w.Gives? then CallsOf(op, v.value, w.value) else []
  }

  /** The first of the calls that is watched for. */
  function First(cs: seq<Call>, watched: Call -> bool): Option<Call> {
    if cs == [] then None else if watched(cs[0]) then Some(cs[0]) else First(cs[1..], watched)
  }

  lemma {:induction false} FirstOfBoth(cs: seq<Call>, ds: seq<Call>, watched: Call -> bool)
    ensures First(cs + ds, watched) == if First(cs, watched).Some? then First(cs, watched) else First(ds, watched)
    decreases |cs|
  {
    if cs == [] {
      assert cs + ds == ds;
    } else {
      assert (cs + ds)[1..] == cs[1..] + ds;
      FirstOfBoth(cs[1..], ds, watched);
    }
  }

  /** The host h, but raising an error in every call that is watched for. */
  function Watch(h: Host, watched: Call -> bool): Host {
    Host((v: Value, w: Value) => if watched(EqCall(v, w)) then None else h.eq(v, w),
         (op: Order, v: Value, w: Value) => if watched(OrderCall(op, v, w)) then None else h.order(op, v, w))
  }

  ghost predicate StopsAtFirst<T(!new)>(cs: seq<Call>, watched: Call -> bool, a: Answer<T>, a': Answer<T>) {
    a' == if First(cs, watched).Some? then Throws(First(cs, watched).value) else a
  }

  /** An expression stops at the first of its calls that is watched for, and otherwise nothing
      is different: Calls are the calls that are made, in their order. */
  lemma {:induction false} FirstCall(h: Host, x: Expr, r: Regs, watched: Call -> bool)
    ensures StopsAtFirst(Calls(h, x, r), watched, Eval(h, x, r), Eval(Watch(h, watched), x, r))
    decreases x
  {
    match x
    case Const(_) =>
    case Local(_) =>
    case NotE(e) => FirstCall(h, e, r, watched);
    case And(a, b) =>
      FirstCall(h, a, r, watched);
      FirstCall(h, b, r, watched);
      FirstOfBoth(Calls(h, a, r), Calls(h, b, r), watched);
      assert Calls(h, a, r) + [] == Calls(h, a, r);
    case Or(a, b) =>
      FirstCall(h, a, r, watched);
      FirstCall(h, b, r, watched);
      FirstOfBoth(Calls(h, a, r), Calls(h, b, r), watched);
      assert Calls(h, a, r) + [] == Calls(h, a, r);
    case Cmp(op, a, b) =>
      FirstCall(h, a, r, watched);
      FirstCall(h, b, r, watched);
      FirstOfBoth(Calls(h, a, r), Calls(h, b, r), watched);
      var v, w := Eval(h, a, r), Eval(h, b, r);
      if v.Gives? && w.Gives? {
        FirstOfBoth(Calls(h, a, r) + Calls(h, b, r), CallsOf(op, v.value, w.value), watched);
        FirstComparison(h, op, v.value, w.value, watched);
      } else {
        assert Calls(h, a, r) + Calls(h, b, r) + [] == Calls(h, a, r) + Calls(h, b, r);
      }
  }

  lemma FirstComparison(h: Host, op: CmpOp, v: Value, w: Value, watched: Call -> bool)
    ensures StopsAtFirst(CallsOf(op, v, w), watched, EvalCmp(h, op, v, w), EvalCmp(Watch(h, watched), op, v, w))
  {
  }

  // What the descriptor of an expression will be, read off the expression: the constant it
  // ends in, and whether it has exits when true or when false.

  function TailConst(x: Expr): Option<Value> {
    match x
    case Const(v) => Some(v)
    case Local(_) => None
    case NotE(e) =>
      (match TailConst(e)
       case None => None
       case Some(v) => Some(Bool(!Truthy(v))))
    case And(_, b) => TailConst(b)
    case Or(_, b) => TailConst(b)
    case Cmp(_, _, _) => None
  }

  function HasExits(x: Expr, whenTrue: bool): bool {
    match x
    case Const(_) => false
    case Local(_) => false
    case NotE(e) => HasExits(e, !whenTrue)
    case And(a, b) =>
      HasExits(b, whenTrue) || (!whenTrue && (HasExits(a, false)
                                              || !(TailConst(a).Some? && Truthy(TailConst(a).value))))
    case Or(a, b) =>
      HasExits(b, whenTrue) || (whenTrue && (HasExits(a, true) || !(TailConst(a).Some? && !Truthy(TailConst(a).value))))
    case Cmp(_, _, _) => false
  }

  /** An operand of eight bits, stored in excess 127. */
  predicate FitsC(i: int) {
    0 <= i + 127 <= 0xFF
  }

  predicate NoExit(x: Expr) {
    !HasExits(x, true) && !HasExits(x, false)
  }

  /** The expression is a small integer by the time the comparison is coded. */
  predicate SmallInt(x: Expr) {
    TailConst(x).Some? && TailConst(x).value.Int? && FitsC(TailConst(x).value.i) && NoExit(x)
  }

  /** The expression ends in an integral float literal that cannot be an immediate operand. */
  predicate FloatTail(x: Expr) {
    && TailConst(x).Some? && TailConst(x).value.Flt?
    && var j := ExactInt(TailConst(x).value.f);
       j.Some? && (!NoExit(x) || !FitsC(j.value))
  }

  /** An order comparison `i < b` or `i <= b` whose immediate operand i the code generator marks
      as a float, because it looked at b first. */
  predicate Sticky(op: CmpOp, a: Expr, b: Expr) {
    (op == OpLt || op == OpLe) && SmallInt(a) && FloatTail(b)
  }

  function Stuck1(sticky: bool, v: Value): Value {
    if sticky && v.Int? then Flt(Finite(v.i as real)) else v
  }

  /** What the generated code computes: Eval, except that a sticky comparison sees the float. */
  function Coded(h: Host, x: Expr, r: Regs): Answer<Value> {
    match x
    case Const(v) => Gives(v)
    case Local(g) => Gives(r[g])
    case NotE(e) =>
      (match Coded(h, e, r)
       case Throws(call) => Throws(call)
       case Gives(v) => Gives(Bool(!Truthy(v))))
    case And(a, b) =>
      (match Coded(h, a, r)
       case Throws(call) => Throws(call)
       case Gives(v) => if Truthy(v) then Coded(h, b, r) else Gives(v))
    case Or(a, b) =>
      (match Coded(h, a, r)
       case Throws(call) => Throws(call)
       case Gives(v) => if Truthy(v) then Gives(v) else Coded(h, b, r))
    case Cmp(op, a, b) =>
      (match (Coded(h, a, r), Coded(h, b, r))
       case (Throws(call), _) => Throws(call)
       case (Gives(_), Throws(call)) => Throws(call)
       case (Gives(v), Gives(w)) =>
         (match EvalCmp(h, op, Stuck1(Sticky(op, a, b), v), w)
          case Throws(call) => Throws(call)
          case Gives(t) => Gives(Bool(t))))
  }

  /** No comparison of a small integer with an expression that can leave before its final
      integral float literal. */
  predicate NoSticky(x: Expr) {
    match x
    case Const(_) => true
    case Local(_) => true
    case NotE(e) => NoSticky(e)
    case And(a, b) => NoSticky(a) && NoSticky(b)
    case Or(a, b) => NoSticky(a) && NoSticky(b)
    case Cmp(op, a, b) => !(Sticky(op, a, b) && !NoExit(b)) && NoSticky(a) && NoSticky(b)
  }

  /** A value other than the final constant needs an exit. */
  lemma {:induction false} ExitValue(h: Host, x: Expr, r: Regs)
    requires TailConst(x).Some? && Coded(h, x, r).Gives?
    ensures var w := Coded(h, x, r).value; w == TailConst(x).value || HasExits(x, Truthy(w))
    decreases x
  {
    match x
    case Const(_) =>
    case NotE(e) => ExitValue(h, e, r);
    case And(a, b) =>
      if TailConst(a).Some? { ExitValue(h, a, r); }
      if Truthy(Coded(h, a, r).value) { ExitValue(h, b, r); }
    case Or(a, b) =>
      if TailConst(a).Some? { ExitValue(h, a, r); }
      if !Truthy(Coded(h, a, r).value) { ExitValue(h, b, r); }
  }

  /** Evaluating x, no sticky comparison gets another right operand than a number. */
  predicate Unseen(h: Host, x: Expr, r: Regs) {
    match x
    case Const(_) => true
    case Local(_) => true
    case NotE(e) => Unseen(h, e, r)
    case And(a, b) =>
      var v := Eval(h, a, r);
      Unseen(h, a, r) && (v.Gives? && Truthy(v.value) ==> Unseen(h, b, r))
    case Or(a, b) =>
      var v := Eval(h, a, r);
      Unseen(h, a, r) && (v.Gives? && !Truthy(v.value) ==> Unseen(h, b, r))
    case Cmp(op, a, b) =>
      var w := Eval(h, b, r);
      && Unseen(h, a, r) && (Eval(h, a, r).Gives? ==> Unseen(h, b, r))
      && (Sticky(op, a, b) && w.Gives? ==> IsNumber(w.value))
  }

  /** Then the code computes the value of the manual. */
  lemma {:induction false} CodedIsEval(h: Host, x: Expr, r: Regs)
    requires Unseen(h, x, r)
    ensures Coded(h, x, r) == Eval(h, x, r)
    decreases x
  {
    match x
    case Const(_) =>
    case Local(_) =>
    case NotE(e) => CodedIsEval(h, e, r);
    case And(a, b) =>
      CodedIsEval(h, a, r);
      if Eval(h, a, r).Gives? && Truthy(Eval(h, a, r).value) { CodedIsEval(h, b, r); }
    case Or(a, b) =>
      CodedIsEval(h, a, r);
      if Eval(h, a, r).Gives? && !Truthy(Eval(h, a, r).value) { CodedIsEval(h, b, r); }
    case Cmp(op, a, b) =>
      CodedIsEval(h, a, r);
      if Eval(h, a, r).Gives? { CodedIsEval(h, b, r); }
  }

  /** Without sticky comparisons, that is so for all hosts and registers. */
  lemma {:induction false} NoStickyUnseen(h: Host, x: Expr, r: Regs)
    requires NoSticky(x)
    ensures Unseen(h, x, r)
    decreases x
  {
    match x
    case Const(_) =>
    case Local(_) =>
    case NotE(e) => NoStickyUnseen(h, e, r);
    case And(a, b) => NoStickyUnseen(h, a, r); NoStickyUnseen(h, b, r);
    case Or(a, b) => NoStickyUnseen(h, a, r); NoStickyUnseen(h, b, r);
    case Cmp(op, a, b) =>
      NoStickyUnseen(h, a, r);
      NoStickyUnseen(h, b, r);
      CodedIsEval(h, b, r);
      if Sticky(op, a, b) && Coded(h, b, r).Gives? { ExitValue(h, b, r); }
  }

  /** A host whose order metamethods tell an integer first operand from a float one. */
  function Picky(): Host {
    Host((v: Value, w: Value) => Some(false), (op: Order, v: Value, w: Value) => Some(v.Int?))
  }

  lemma {:induction false} PickyGives(x: Expr, r: Regs)
    ensures Eval(Picky(), x, r).Gives?
    decreases x
  {
    match x
    case Const(_) =>
    case Local(_) =>
    case NotE(e) => PickyGives(e, r);
    case And(a, b) => PickyGives(a, r); PickyGives(b, r);
    case Or(a, b) => PickyGives(a, r); PickyGives(b, r);
    case Cmp(_, a, b) => PickyGives(a, r); PickyGives(b, r);
  }

  /** With an integer or the float that is equal to it on the left, a comparison answers alike under
      every host exactly if the right operand is a number. */
  lemma FloatSeen(op: CmpOp, i: int, w: Value)
    requires op == OpLt || op == OpLe
    ensures IsNumber(w) ==> forall h: Host :: EvalCmp(h, op, Flt(Finite(i as real)), w) == EvalCmp(h, op, Int(i), w)
    ensures EvalCmp(Picky(), op, Flt(Finite(i as real)), w) == EvalCmp(Picky(), op, Int(i), w) <==> IsNumber(w)
  {
  }

  /** The left operand of a sticky comparison is its small integer. */
  lemma {:induction false} StickyLeft(h: Host, op: CmpOp, a: Expr, b: Expr, r: Regs)
    requires Sticky(op, a, b) && NoSticky(a) && Eval(h, a, r).Gives?
    ensures Coded(h, a, r) == Eval(h, a, r) == Gives(TailConst(a).value)
  {
    NoStickyUnseen(h, a, r);
    CodedIsEval(h, a, r);
    ExitValue(h, a, r);
  }

  /** What the code computes for a sticky comparison, the operands having none in them: it is the
      value of the manual under a host exactly if an operand throws or the float on the left gets the
      same answer; so under every host that gives the right operand a numeric value, and under the
      picky host exactly if that gives it one. */
  lemma {:induction false} StickyExact(h: Host, op: CmpOp, a: Expr, b: Expr, r: Regs)
    requires Sticky(op, a, b) && NoSticky(a) && NoSticky(b)
    ensures var x, u, v, w := Cmp(op, a, b), Eval(h, a, r), TailConst(a).value, Eval(h, b, r);
            && (Coded(h, x, r) == Eval(h, x, r) <==>
                  u.Throws? || w.Throws?
                  || EvalCmp(h, op, Flt(Finite(v.i as real)), w.value) == EvalCmp(h, op, v, w.value))
            && (w.Throws? || IsNumber(w.value) ==> Coded(h, x, r) == Eval(h, x, r))
    ensures var x, w := Cmp(op, a, b), Eval(Picky(), b, r);
            w.Gives? && (Coded(Picky(), x, r) == Eval(Picky(), x, r) <==> IsNumber(w.value))
  {
    StickyAt(h, op, a, b, r);
    StickyAt(Picky(), op, a, b, r);
    PickyGives(a, r);
    PickyGives(b, r);
    FloatSeen(op, TailConst(a).value.i, Eval(Picky(), b, r).value);
    if Eval(h, b, r).Gives? { FloatSeen(op, TailConst(a).value.i, Eval(h, b, r).value); }
  }

  lemma {:induction false} StickyAt(h: Host, op: CmpOp, a: Expr, b: Expr, r: Regs)
    requires Sticky(op, a, b) && NoSticky(a) && NoSticky(b)
    ensures var x, u, v, w := Cmp(op, a, b), Eval(h, a, r), TailConst(a).value, Eval(h, b, r);
            Coded(h, x, r) == Eval(h, x, r) <==>
              u.Throws? || w.Throws?
              || EvalCmp(h, op, Flt(Finite(v.i as real)), w.value) == EvalCmp(h, op, v, w.value)
  {
    NoStickyUnseen(h, a, r);
    CodedIsEval(h, a, r);
    NoStickyUnseen(h, b, r);
    CodedIsEval(h, b, r);
    if Eval(h, a, r).Gives? { StickyLeft(h, op, a, b, r); }
  }

  /** `i < (a or f)`, f integral, with a true value other than a number in a: the code and the
      language disagree. */
  lemma StickyDiffers(op: CmpOp, i: int, f: Float, g: Reg, r: Regs)
    requires (op == OpLt || op == OpLe) && FitsC(i) && ExactInt(f).Some?
    requires Truthy(r[g]) && !IsNumber(r[g])
    ensures var x := Cmp(op, Const(Int(i)), Or(Local(g), Const(Flt(f))));
            Eval(Picky(), x, r) == Gives(True) && Coded(Picky(), x, r) == Gives(False)
  {
    var h, a, b := Picky(), Const(Int(i)), Or(Local(g), Const(Flt(f)));
    assert TailConst(b) == Some(Flt(f)) && HasExits(b, true);
    StickyExact(h, op, a, b, r);
    assert Eval(h, Local(g), r) == Gives(r[g]) && Coded(h, Local(g), r) == Gives(r[g]);
    assert Eval(h, b, r) == Gives(r[g]) && Coded(h, b, r) == Gives(r[g]);
    assert Eval(h, a, r) == Gives(Int(i)) && Coded(h, a, r) == Gives(Int(i));
  }

  /** Every register below fr, except ex, is untouched. */
  ghost predicate Keep(r: Regs, r': Regs, fr: int, ex: int) {
    forall i :: 0 <= i < fr && i != ex && i < 256 ==> r'[i] == r[i]
  }

  lemma {:induction false} EvalKeep(h: Host, x: Expr, nvar: nat, r: Regs, r': Regs)
    requires Closed(x, nvar) && Keep(r, r', nvar, -1)
    ensures Coded(h, x, r') == Coded(h, x, r)
    decreases x
  {
    match x
    case Const(_) =>
    case Local(_) =>
    case NotE(e) => EvalKeep(h, e, nvar, r, r');
    case And(a, b) => EvalKeep(h, a, nvar, r, r'); EvalKeep(h, b, nvar, r, r');
    case Or(a, b) => EvalKeep(h, a, nvar, r, r'); EvalKeep(h, b, nvar, r, r');
    case Cmp(_, a, b) => EvalKeep(h, a, nvar, r, r'); EvalKeep(h, b, nvar, r, r');
  }

  // ---------------------------------------------------------------------------------------------
  // Jump lists

  /** The pc that the jump at p links to (getJump). */
  function GetJump(c: Code, p: nat): int
    requires p < |c| && c[p].Jmp?
  {
    if c[p].sj == NO_JUMP then NO_JUMP else p + 1 + c[p].sj
  }

  ghost predicate Distinct(ls: seq<int>) {
    forall i, j :: 0 <= i < j < |ls| ==> ls[i] != ls[j]
  }

  ghost function Members(ls: seq<int>): set<int> {
    set j | j in ls
  }

  /** The list that starts at head and follows the links has exactly the elements ls, in order,
      and ends in the sentinel. */
  ghost predicate IsList(c: Code, head: int, ls: seq<int>) {
    && Distinct(ls)
    && head == (if ls == [] then NO_JUMP else ls[0])
    && (forall j :: j in ls ==> 0 <= j < |c| && c[j].Jmp?)
    && (forall i :: 0 <= i < |ls| ==> LinksAt(c, ls, i))
  }

  ghost predicate LinksAt(c: Code, ls: seq<int>, i: nat)
    requires i < |ls|
  {
    && 0 <= ls[i] < |c| && c[ls[i]].Jmp?
    && GetJump(c, ls[i]) == if i + 1 < |ls| then ls[i + 1] else NO_JUMP
  }

  lemma ListStable(c: Code, c': Code, head: int, ls: seq<int>)
    requires IsList(c, head, ls)
    requires forall j :: j in ls ==> j < |c'| && c'[j] == c[j]
    ensures IsList(c', head, ls)
  {
    forall i | 0 <= i < |ls| ensures LinksAt(c', ls, i) {
      assert ls[i] in ls && LinksAt(c, ls, i);
    }
  }

  // ---------------------------------------------------------------------------------------------
  // Descriptors

  datatype Kind =
    | VNil | VTrue | VFalse
    | VK(kx: nat)
    | VKFlt(f: Float)
    | VKInt(i: int)
    | VKStr(s: string)
    | VNonReloc(reg: Reg)
    | VLocal(ridx: Reg)
    | VJmp(pc: nat)
    | VReloc(pc: nat)

  /** k says where the value is; t and f head the lists of exits when true and when false. */
  datatype ExpDesc = ExpDesc(k: Kind, t: int, f: int)

  predicate HasJumps(d: ExpDesc) {
    d.t != d.f
  }

  predicate IsConstKind(k: Kind) {
    k.VNil? || k.VTrue? || k.VFalse? || k.VK? || k.VKFlt? || k.VKInt? || k.VKStr?
  }

  function KindValue(K: seq<Value>, c: Code, k: Kind, r: Regs): Value {
    match k
    case VNil => Nil
    case VTrue => True
    case VFalse => False
    case VK(kx) => if kx < |K| then K[kx] else Nil
    case VKFlt(f) => Flt(f)
    case VKInt(i) => Int(i)
    case VKStr(s) => Str(s)
    case VNonReloc(g) => r[g]
    case VLocal(g) => r[g]
    case VJmp(_) => False
    case VReloc(p) => if p < |c| && c[p].NotOp? then Bool(!Truthy(r[c[p].b])) else Nil
  }

  /** Where the code generated for an expression began: its first pc, and the last label and
      the first free register at that moment. */
  datatype Seg = Seg(s: nat, lt: int, fr: nat)

  /**
   The entry state of a segment. A LOADNIL just before the segment may have been widened by
   the code generator on the segment's behalf, so it is known to have run.
   */
  ghost predicate Pre(c: Code, g: Seg, r: Regs) {
    0 < g.s <= |c| && g.lt < g.s && c[g.s - 1].LoadNil? ==>
      forall i :: 0 <= i < 256 && Clears(c[g.s - 1], i) ==> r[i] == Nil
  }

  predicate Clears(i: Instr, q: int) {
    i.LoadNil? && i.a <= q <= i.a + i.n
  }

  /** LOADNIL i' clears what i clears and nothing more among the registers to keep. */
  ghost predicate Wider(i: Instr, i': Instr, fr: int, ex: int) {
    && i.LoadNil? && i'.LoadNil?
    && i'.a <= i.a && i.a + i.n <= i'.a + i'.n
    && (forall q :: Clears(i', q) && q < fr && q != ex ==> Clears(i, q))
  }

  /** Code before the segment is untouched, up to widening the LOADNIL at its edge. */
  ghost predicate Before(c: Code, c': Code, g: Seg, ex: int) {
    && g.s <= |c| && g.s <= |c'|
    && forall i {:trigger c[i]} {:trigger c'[i]} :: 0 <= i < g.s ==>
         c'[i] == c[i] || (i == g.s - 1 && g.lt < g.s && Wider(c[i], c'[i], g.fr, ex))
  }

  /** The register outside the segment that loading k into reg may clear ahead of time, by widening
      the LOADNIL at the edge of a segment that has no code yet; -1 if there is none. */
  function Edge(k: Kind, n: nat, g: Seg, reg: Reg): int {
    if k.VNil? && n == g.s then reg else -1
  }

  /** Where the value described by d is available. */
  function Stop(c: Code, d: ExpDesc): nat {
    if d.k.VReloc? && d.k.pc <= |c| then d.k.pc else |c|
  }

  /** Leaving through j, the expression is true or false as wanted, and its value is either the
      tested register (TESTSET) or the boolean. */
  predicate JumpValue(c: Code, j: int, want: bool, v: Value, r: Regs) {
    && 1 <= j <= |c|
    && Truthy(v) == want
    && v == (if c[j - 1].TestSet? then r[c[j - 1].b] else Bool(want))
  }

  /** What is known when the code falls through: where the value is, or only whether it is true. */
  datatype Fall = Holding(k: Kind) | Known(sense: bool)

  predicate Falls(K: seq<Value>, c: Code, fall: Fall, v: Value, r: Regs) {
    match fall
    case Holding(k) => v == KindValue(K, c, k, r)
    case Known(sense) => Truthy(v) == sense
  }

  /** The run that began in registers r and ended as e agrees with the value of x in r. */
  ghost predicate Agrees(h: Host, K: seq<Value>, c: Code, g: Seg, T: set<int>, fall: Fall, x: Expr, ex: int, r: Regs,
                         e: Exit) {
    (match e
     case AtEnd(r') => Keep(r, r', g.fr, ex) && Coded(h, x, r).Gives? && Falls(K, c, fall, Coded(h, x, r).value, r')
     case Via(j, r') =>
       Keep(r, r', g.fr, ex) && Coded(h, x, r).Gives? && JumpValue(c, j, j in T, Coded(h, x, r).value, r')
     case Raised(_, r', call) => Keep(r, r', g.fr, -1) && Coded(h, x, r) == Throws(call)
     case Stuck => false) == true
  }

  /** One run of the code from g up to end, with the exits T (true) and F (false) pending. */
  ghost predicate Means(h: Host, K: seq<Value>, c: Code, end: nat, g: Seg, T: set<int>, F: set<int>, fall: Fall,
                        x: Expr, ex: int, r: Regs)
    requires g.s <= end <= |c|
  {
    Agrees(h, K, c, g, T, fall, x, ex, r, Exec(h, K, c, T + F, end, g.s, r))
  }

  ghost predicate Exits(c: Code, end: nat, s: nat, S: set<int>)
    requires end <= |c|
  {
    forall j :: j in S ==> s < j < end && c[j].Jmp? && IsTest(c[j - 1])
  }

  ghost predicate Frame(c: Code, end: nat, lt: int, g: Seg, T: set<int>, F: set<int>) {
    && g.s <= end <= |c| && g.lt <= lt <= end
    && T !! F && Exits(c, end, g.s, T + F)
    && Shape(c, T + F, g.s, end, lt)
  }

  /** Means, from every entry state. */
  ghost predicate Sem(h: Host, K: seq<Value>, c: Code, end: nat, lt: int, g: Seg, T: set<int>, F: set<int>, fall: Fall,
                      x: Expr, ex: int)
  {
    && Frame(c, end, lt, g, T, F)
    && forall r: Regs :: Pre(c, g, r) ==> Means(h, K, c, end, g, T, F, fall, x, ex, r)
  }

  /** The true exits of a descriptor: its list, and the jump of a comparison. */
  ghost function TrueExits(d: ExpDesc, tl: seq<int>): set<int> {
    Members(tl) + (if d.k.VJmp? then {d.k.pc} else {})
  }

  ghost predicate KindOk(K: seq<Value>, c: Code, lt: int, g: Seg, d: ExpDesc, tl: seq<int>, fl: seq<int>) {
    match d.k
    case VJmp(p) =>
      && p == |c| - 1 && g.s < p && lt < p && c[p] == Jmp(NO_JUMP) && c[p - 1].Branch?
      && p !in tl && p !in fl
    case VReloc(p) => p == |c| - 1 && g.s <= p && c[p].NotOp?
    case VK(kx) => kx < |K|
    case _ => true
  }

  /** d, coded from g on, denotes x. (Comparing with true keeps the verifier from taking the
      conjunction apart wherever it is only passed on.) */
  ghost predicate Den(h: Host, K: seq<Value>, c: Code, lt: int, g: Seg, d: ExpDesc, tl: seq<int>, fl: seq<int>,
                      x: Expr, ex: int)
  {
    (&& IsList(c, d.t, tl) && IsList(c, d.f, fl)
     && KindOk(K, c, lt, g, d, tl, fl)
     && Sem(h, K, c, Stop(c, d), lt, g, TrueExits(d, tl), Members(fl), Holding(d.k), x, ex)) == true
  }

  /** The code from g on falls through when x is as `sense` says and otherwise leaves through ls. */
  ghost predicate Go(h: Host, K: seq<Value>, c: Code, lt: int, g: Seg, head: int, ls: seq<int>, x: Expr, sense: bool) {
    (&& IsList(c, head, ls)
     && (if sense then Sem(h, K, c, |c|, lt, g, {}, Members(ls), Known(true), x, -1)
         else Sem(h, K, c, |c|, lt, g, Members(ls), {}, Known(false), x, -1))) == true
  }

  // ---------------------------------------------------------------------------------------------
  // Widening the LOADNIL at the edge of a finished prefix

  lemma PreBack(c: Code, c': Code, g: Seg, ex: int, r: Regs)
    requires Before(c, c', g, ex) && Pre(c', g, r)
    ensures Pre(c, g, r)
  {
    if 0 < g.s { assert c[g.s - 1] == c[g.s - 1]; }
  }

  lemma BeforeTrans(c: Code, c': Code, c'': Code, g: Seg, ex: int)
    requires Before(c, c', g, ex) && Before(c', c'', g, ex)
    ensures Before(c, c'', g, ex)
  {
    forall i | 0 <= i < g.s
      ensures c''[i] == c[i] || (i == g.s - 1 && g.lt < g.s && Wider(c[i], c''[i], g.fr, ex))
    {
      assert c'[i] == c[i] || Wider(c[i], c'[i], g.fr, ex);
    }
  }

  /** How the prefix [s, |c|) runs inside later code c' that may have widened its last LOADNIL. */
  lemma {:induction false} Prefix(h: Host, K: seq<Value>, c: Code, P: set<int>, K': seq<Value>, c': Code, P': set<int>,
                                  g': Seg, ex: int, s: nat, pc: nat, r: Regs)
    requires s <= pc < |c| && g'.s == |c| && K <= K'
    requires Before(c, c', g', ex)
    requires Shape(c, P, s, |c|, g'.lt)
    requires forall i :: s <= i < |c| ==> (i in P <==> i in P')
    requires Exec(h, K, c, P, |c|, pc, r) != Stuck
    ensures var e, e' := Exec(h, K, c, P, |c|, pc, r), Exec(h, K', c', P', |c|, pc, r);
            && (e.AtEnd? ==> e'.AtEnd? && Keep(e.r, e'.r, g'.fr, ex) && Pre(c', g', e'.r))
            && (e.Via? || e.Raised? ==> e' == e)
    decreases |c| - pc
  {
    assert forall i :: s <= i < |c| - 1 ==> c'[i] == c[i];
    var last := |c| - 1;
    if pc == last && c'[last] != c[last] {
      assert Wider(c[last], c'[last], g'.fr, ex);
      var r1, r2 := Clear(r, c[last].a, c[last].n), Clear(r, c'[last].a, c'[last].n);
      forall i | 0 <= i < g'.fr && i < 256 && i != ex ensures r2[i] == r1[i] {
        assert Clears(c'[last], i) ==> Clears(c[last], i);
      }
    } else {
      var st := Step(h, K, c, P, pc, r);
      assert Neat(c, P, |c|, g'.lt, pc);
      if pc + 1 < |c| { assert Neat(c, P, |c|, g'.lt, pc + 1); }
      assert Step(h, K', c', P', pc, r) == st by {
        if IsTest(c[pc]) || c[pc].LoadKX? {
          assert c[pc + 1].Jmp? || c[pc + 1].ExtraArg?;
        }
      }
      if st.Next? {
        if st.pc < |c| {
          Prefix(h, K, c, P, K', c', P', g', ex, s, st.pc, st.r);
        } else {
          assert st.pc == |c|;
          assert pc + 1 < |c| && IsTest(c[pc]) ==> c[pc + 1].Jmp?;
        }
      }
    }
  }

  // ---------------------------------------------------------------------------------------------
  // Patching, instruction by instruction

  /** What patchtestreg makes of a TESTSET. */
  function Retarget(i: Instr, reg: int): Instr
    requires i.TestSet? && 0 <= reg < 256
  {
    if reg != NO_REG && reg != i.b then TestSet(reg, i.b, i.k) else Branch(CTest(i.b), i.k)
  }

  /** The code after every jump in S was patched: value-producing ones to vt, the rest to dt. */
  ghost predicate Patched(c: Code, c': Code, S: set<int>, vt: int, reg: int, dt: int)
    requires 0 <= reg < 256
  {
    && |c'| == |c|
    && forall i {:trigger c'[i]} {:trigger c[i]} :: 0 <= i < |c| ==>
         c'[i] ==
         if i in S then Jmp((if i > 0 && c[i - 1].TestSet? then vt else dt) - (i + 1))
         else if i + 1 in S && c[i].TestSet? then Retarget(c[i], reg)
         else c[i]
  }

  /** The code after removevalues. */
  ghost predicate Unvalued(c: Code, c': Code, S: set<int>) {
    && |c'| == |c|
    && forall i {:trigger c'[i]} {:trigger c[i]} :: 0 <= i < |c| ==>
         c'[i] == if i + 1 in S && c[i].TestSet? then Retarget(c[i], NO_REG) else c[i]
  }

  /** Only link fields of the jumps in S differ. */
  ghost predicate Relinked(c: Code, c': Code, S: set<int>) {
    && |c'| == |c|
    && forall i {:trigger c'[i]} {:trigger c[i]} :: 0 <= i < |c| ==>
         c'[i] == c[i] || (i in S && c[i].Jmp? && c'[i].Jmp?)
  }
}
