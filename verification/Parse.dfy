/**
 The parser as it drives the code generator: subexpr calls infix, the second operand and posfix
 while it climbs the priorities, and no tree is ever built.
 */
module Parse {
  import opened Options
  import opened Results
  import opened Machine
  import opened Descriptor
  import opened Compose
  import opened CodeGen
  import S = Subexpr

  // ---------------------------------------------------------------------------------------------
  // The fragment

  function CompareOf(op: S.BinOp): Option<CmpOp> {
    match op
    case Eq => Some(OpEq)
    case Ne => Some(OpNe)
    case Lt => Some(OpLt)
    case Le => Some(OpLe)
    case Gt => Some(OpGt)
    case Ge => Some(OpGe)
    case _ => None
  }

  predicate Covered(op: S.BinOp) {
    op.And? || op.Or? || CompareOf(op).Some?
  }

  /** The constants and locals that operand tokens stand for. */
  type Names = seq<Expr>

  predicate NamesOk(names: Names, nvar: nat) {
    forall i :: 0 <= i < |names| ==> (names[i].Const? || names[i].Local?) && Closed(names[i], nvar)
  }

  /** Tokens of operators that the generator has here, and of operands with a meaning. */
  predicate InFragment(ts: seq<S.Token>, names: Names) {
    forall i :: 0 <= i < |ts| ==>
      match ts[i]
      case Operand(n) => n < |names|
      case Binary(op) => Covered(op)
      case MinusSign => false
      case Tilde => false
      case Hash => false
      case _ => true
  }

  function Binary(op: S.BinOp, a: Expr, b: Expr): Expr
    requires Covered(op)
  {
    if op.And? then And(a, b) else if op.Or? then Or(a, b) else Cmp(CompareOf(op).value, a, b)
  }

  /** The meaning of a tree. */
  function Meant(e: S.Expr, names: Names): Option<Expr> {
    match e
    case Leaf(n) => if n < |names| then Some(names[n]) else None
    case Paren(a) => Meant(a, names)
    case Unary(uop, a) => (var x := Meant(a, names); if uop.Not? && x.Some? then Some(NotE(x.value)) else None)
    case Bin(op, a, b) =>
      var x, y := Meant(a, names), Meant(b, names);
      if Covered(op) && x.Some? && y.Some? then Some(Binary(op, x.value, y.value)) else None
  }

  lemma OperatorsCovered(op: S.BinOp, a: Expr, b: Expr, names: Names)
    ensures Covered(op) <==> op in {S.BinOp.And, S.BinOp.Or, S.Eq, S.Ne, S.Lt, S.Le, S.Gt, S.Ge}
    ensures Binary(S.BinOp.And, a, b) == And(a, b) && Binary(S.BinOp.Or, a, b) == Or(a, b)
    ensures Covered(op) ==> InFragment([S.LParen, S.RParen, S.NotWord, S.Token.Binary(op)], names)
  {
  }

  /** Names stand for literals and for active locals. */
  lemma NamesAre(v: Value, g: Reg, nvar: nat)
    ensures NamesOk([Const(v), Local(g)], nvar) <==> !v.Obj? && g < nvar
  {
    var names := [Const(v), Local(g)];
    assert names[0] == Const(v) && names[1] == Local(g);
  }

  /** The order of two integers that a comparison token asks for. */
  predicate InOrder(op: S.BinOp, i: int, j: int) {
    || (i < j && (op == S.Lt || op == S.Le || op == S.Ne))
    || (i == j && (op == S.Eq || op == S.Le || op == S.Ge))
    || (i > j && (op == S.Gt || op == S.Ge || op == S.Ne))
  }

  /** What the comparison tokens mean between two integers. */
  lemma OperatorsMeant(h: Host, op: S.BinOp, i: int, j: int, r: Regs)
    requires Covered(op) && op != S.BinOp.And && op != S.BinOp.Or
    ensures Eval(h, Binary(op, Const(Int(i)), Const(Int(j))), r) == Gives(Bool(InOrder(op, i, j)))
  {
    IntegersByManual(h, i, Int(j));
  }

  /** Every tree of such tokens has a meaning. */
  lemma {:induction false} FragmentMeant(ts: seq<S.Token>, pos: nat, names: Names, e: S.Expr)
    requires InFragment(ts, names) && S.At(ts, pos, e)
    ensures Meant(e, names).Some?
    decreases e
  {
    match e
    case Leaf(_) =>
    case Paren(a) => FragmentMeant(ts, pos + 1, names, a);
    case Unary(_, a) => FragmentMeant(ts, pos + 1, names, a);
    case Bin(_, a, b) =>
      FragmentMeant(ts, pos, names, a);
      FragmentMeant(ts, pos + S.Size(a) + 1, names, b);
  }

  // ---------------------------------------------------------------------------------------------
  // The driver

  /** The generator has the meaning of e, coded from g on, and kept the constants K0 and the code c0
      before. (Comparing with true keeps the verifier from taking the conjunction apart.) */
  ghost predicate Codes(fs: FuncState, K0: seq<Value>, c0: Code, g: Seg, d: ExpDesc, tl: seq<int>, fl: seq<int>,
                        names: Names, e: S.Expr)
    reads fs
  {
    (var x := Meant(e, names);
     && x.Some? && Closed(x.value, fs.nactvar) && fs.Has(g, d, tl, fl, x.value) && !d.k.VK?
     && Predicted(fs.K, d, tl, fl, x.value)
     && K0 <= fs.K && Before(c0, fs.code, g, -1)) == true
  }

  /** The operand or the prefix operator at the parser's position. */
  method Simple(fs: FuncState, p: S.Parser, names: Names)
    returns (st: Status, ghost e: S.Expr, d: ExpDesc, ghost tl: seq<int>, ghost fl: seq<int>)
    requires fs.Valid() && p.pos <= |p.ts| && InFragment(p.ts, names) && NamesOk(names, fs.nactvar)
    modifies fs, p
    ensures st.Failed? ==> fs.AtLimit() || S.Primary(p.ts, old(p.pos), p.max, old(p.depth)).Failed?
    ensures st.Ok? ==> S.Primary(p.ts, old(p.pos), p.max, old(p.depth)) == S.Parsed(e, p.pos) && p.depth == old(p.depth)
    ensures st.Ok? ==> Codes(fs, old(fs.K), old(fs.code), old(Seg(|fs.code|, fs.lasttarget, fs.freereg)), d, tl, fl,
                             names, e)
    decreases |p.ts| - p.pos, 1
  {
    ghost var g := Seg(|fs.code|, fs.lasttarget, fs.freereg);
    e, d, tl, fl := S.Leaf(0), ExpDesc(VNil, NO_JUMP, NO_JUMP), [], [];
    if p.pos == |p.ts| {
      return Failed("unexpected symbol"), e, d, tl, fl;
    }
    match p.ts[p.pos] {
      case NotWord =>
        e, d, tl, fl :- Negation(fs, p, names);
      case Operand(n) =>
        d := fs.Operand(names[n]);
        e := S.Leaf(n);
        p.pos := p.pos + 1;
      case LParen =>
        e, d, tl, fl :- Parenthesis(fs, p, names);
      case _ =>
        return Failed("unexpected symbol"), e, d, tl, fl;
    }
    st := Ok;
  }

  /** `not` and its operand. */
  method Negation(fs: FuncState, p: S.Parser, names: Names)
    returns (st: Status, ghost e: S.Expr, d: ExpDesc, ghost tl: seq<int>, ghost fl: seq<int>)
    requires fs.Valid() && p.pos < |p.ts| && p.ts[p.pos] == S.NotWord && InFragment(p.ts, names)
             && NamesOk(names, fs.nactvar)
    modifies fs, p
    ensures st.Failed? ==> fs.AtLimit() || S.Primary(p.ts, old(p.pos), p.max, old(p.depth)).Failed?
    ensures st.Ok? ==> S.Primary(p.ts, old(p.pos), p.max, old(p.depth)) == S.Parsed(e, p.pos) && p.depth == old(p.depth)
    ensures st.Ok? ==> Codes(fs, old(fs.K), old(fs.code), old(Seg(|fs.code|, fs.lasttarget, fs.freereg)), d, tl, fl,
                             names, e)
    decreases |p.ts| - p.pos, 0
  {
    ghost var g := Seg(|fs.code|, fs.lasttarget, fs.freereg);
    e, d, tl, fl := S.Leaf(0), ExpDesc(VNil, NO_JUMP, NO_JUMP), [], [];
    p.pos := p.pos + 1;
    var op;
    e, d, tl, fl, op :- SubExpr(fs, p, names, S.UNARY_PRIORITY);
    ghost var c := fs.code;
    d :- fs.PrefixNot(d, g, tl, fl, Meant(e, names).value);
    BeforeTrans(old(fs.code), c, fs.code, g, -1);
    e, tl, fl := S.Unary(S.Not, e), fl, tl;
    st := Ok;
  }

  /** An expression in parentheses. */
  method Parenthesis(fs: FuncState, p: S.Parser, names: Names)
    returns (st: Status, ghost e: S.Expr, d: ExpDesc, ghost tl: seq<int>, ghost fl: seq<int>)
    requires fs.Valid() && p.pos < |p.ts| && p.ts[p.pos] == S.LParen && InFragment(p.ts, names)
             && NamesOk(names, fs.nactvar)
    modifies fs, p
    ensures st.Failed? ==> fs.AtLimit() || S.Primary(p.ts, old(p.pos), p.max, old(p.depth)).Failed?
    ensures st.Ok? ==> S.Primary(p.ts, old(p.pos), p.max, old(p.depth)) == S.Parsed(e, p.pos) && p.depth == old(p.depth)
    ensures st.Ok? ==> Codes(fs, old(fs.K), old(fs.code), old(Seg(|fs.code|, fs.lasttarget, fs.freereg)), d, tl, fl,
                             names, e)
    decreases |p.ts| - p.pos, 0
  {
    ghost var g := Seg(|fs.code|, fs.lasttarget, fs.freereg);
    e, d, tl, fl := S.Leaf(0), ExpDesc(VNil, NO_JUMP, NO_JUMP), [], [];
    p.pos := p.pos + 1;
    var op;
    e, d, tl, fl, op :- SubExpr(fs, p, names, 0);
    if !(p.pos < |p.ts| && p.ts[p.pos] == S.RParen) {
      return Failed("')' expected"), e, d, tl, fl;
    }
    p.pos := p.pos + 1;
    d := fs.DischargeVars(d, g, tl, fl, Meant(e, names).value);
    e := S.Paren(e);
    st := Ok;
  }

  /** subexpr */
  method SubExpr(fs: FuncState, p: S.Parser, names: Names, limit: nat)
    returns (st: Status, ghost e: S.Expr, d: ExpDesc, ghost tl: seq<int>, ghost fl: seq<int>, op: Option<S.BinOp>)
    requires fs.Valid() && p.pos <= |p.ts| && InFragment(p.ts, names) && NamesOk(names, fs.nactvar)
    modifies fs, p
    ensures st.Failed? ==> fs.AtLimit() || S.Climb(p.ts, old(p.pos), limit, p.max, old(p.depth)).Failed?
    ensures st.Ok? ==>
            S.Climb(p.ts, old(p.pos), limit, p.max, old(p.depth)) == S.Parsed(e, p.pos)
            && p.depth == old(p.depth) && op == p.Next()
    ensures st.Ok? ==> Codes(fs, old(fs.K), old(fs.code), old(Seg(|fs.code|, fs.lasttarget, fs.freereg)), d, tl, fl,
                             names, e)
    decreases |p.ts| - p.pos, 3
  {
    ghost var g := Seg(|fs.code|, fs.lasttarget, fs.freereg);
    ghost var K0, c0 := fs.K, fs.code;
    e, d, tl, fl, op := S.Leaf(0), ExpDesc(VNil, NO_JUMP, NO_JUMP), [], [], None;
    p.depth := p.depth + 1;
    if p.depth > p.max {
      return Failed("too many C levels in function"), e, d, tl, fl, op;
    }
    e, d, tl, fl :- Simple(fs, p, names);
    op := p.Next();
    while op.Some? && S.Left(op.value) > limit
      invariant old(p.pos) < p.pos <= |p.ts| && p.depth == old(p.depth) + 1 && op == p.Next()
      invariant S.Extend(p.ts, p.pos, limit, p.max, p.depth, e) == S.Climb(p.ts, old(p.pos), limit, p.max, old(p.depth))
      invariant Codes(fs, K0, c0, g, d, tl, fl, names, e)
      decreases |p.ts| - p.pos
    {
      e, d, tl, fl, op :- Operator(fs, p, names, op.value, K0, c0, g, e, d, tl, fl, limit);
    }
    p.depth := p.depth - 1;
    st := Ok;
  }

  /** One binary operator: infix, the second operand, posfix. */
  method Operator(fs: FuncState, p: S.Parser, names: Names, op: S.BinOp, ghost K0: seq<Value>, ghost c0: Code,
                  ghost g: Seg, ghost e1: S.Expr, d1: ExpDesc, ghost tl1: seq<int>, ghost fl1: seq<int>,
                  ghost limit: nat)
    returns (st: Status, ghost e: S.Expr, d: ExpDesc, ghost tl: seq<int>, ghost fl: seq<int>, nextop: Option<S.BinOp>)
    requires p.Next() == Some(op) && InFragment(p.ts, names) && NamesOk(names, fs.nactvar)
    requires Codes(fs, K0, c0, g, d1, tl1, fl1, names, e1) && S.Left(op) > limit
    modifies fs, p
    ensures var r := S.Extend(p.ts, old(p.pos), limit, p.max, old(p.depth), e1);
            && (st.Failed? ==> fs.AtLimit() || r.Failed?)
            && (st.Ok? ==> old(p.pos) < p.pos <= |p.ts| && p.depth == old(p.depth) && nextop == p.Next()
                           && r == S.Extend(p.ts, p.pos, limit, p.max, p.depth, e))
    ensures st.Ok? ==> Codes(fs, K0, c0, g, d, tl, fl, names, e)
    decreases |p.ts| - p.pos, 2
  {
    p.pos := p.pos + 1;
    if op.And? || op.Or? {
      e, d, tl, fl, nextop :- Circuit(fs, p, names, op, K0, c0, g, e1, d1, tl1, fl1);
    } else {
      e, d, tl, fl, nextop :- Comparison(fs, p, names, op, CompareOf(op).value, K0, c0, g, e1, d1, tl1, fl1);
    }
    st := Ok;
  }

  /** The first operand of `and` or `or`, after infix: g2 is where the second one begins. */
  ghost predicate FirstOfCircuit(h: Host, nvar: nat, K0: seq<Value>, c0: Code, K1: seq<Value>, c1: Code, g: Seg,
                                 g2: Seg, l: int, ls: seq<int>, xa: Expr, sense: bool)
  {
    (&& Go(h, K1, c1, g2.lt, g, l, ls, xa, sense) && (ls != [] <==> LeavesEarly(sense, xa))
     && g2.s == |c1| && nvar <= g.fr == g2.fr && K0 <= K1 && Before(c0, c1, g, -1)) == true
  }

  method OpenCircuit(fs: FuncState, names: Names, sense: bool, ghost K0: seq<Value>, ghost c0: Code, ghost g: Seg,
                     ghost e1: S.Expr, d1: ExpDesc, ghost tl1: seq<int>, ghost fl1: seq<int>)
    returns (st: Status, l: int, ghost ls: seq<int>)
    requires Codes(fs, K0, c0, g, d1, tl1, fl1, names, e1)
    modifies fs
    ensures st.Failed? ==> fs.AtLimit()
    ensures st.Ok? ==> fs.Valid()
    ensures st.Ok? ==> FirstOfCircuit(fs.host, fs.nactvar, K0, c0, fs.K, fs.code, g,
                                      Seg(|fs.code|, fs.lasttarget, fs.freereg), l, ls,
                                      Meant(e1, names).value, sense)
  {
    ghost var c := fs.code;
    l, ls := NO_JUMP, [];
    l, ls :- fs.InfixCircuit(sense, d1, g, tl1, fl1, Meant(e1, names).value);
    BeforeTrans(c0, c, fs.code, g, -1);
    st := Ok;
  }

  method CloseCircuit(fs: FuncState, names: Names, op: S.BinOp, l: int, ghost ls: seq<int>, ghost K0: seq<Value>,
                      ghost c0: Code, ghost K1: seq<Value>, ghost c1: Code, ghost g: Seg, ghost g2: Seg,
                      ghost e1: S.Expr, ghost e2: S.Expr, d2: ExpDesc, ghost tl2: seq<int>, ghost fl2: seq<int>)
    returns (st: Status, d: ExpDesc, ghost tl: seq<int>, ghost fl: seq<int>)
    requires (op.And? || op.Or?) && Meant(e1, names).Some? && Closed(Meant(e1, names).value, fs.nactvar)
    requires FirstOfCircuit(fs.host, fs.nactvar, K0, c0, K1, c1, g, g2, l, ls, Meant(e1, names).value, op.And?)
    requires Codes(fs, K1, c1, g2, d2, tl2, fl2, names, e2)
    modifies fs
    ensures st.Failed? ==> fs.AtLimit()
    ensures st.Ok? ==> Codes(fs, K0, c0, g, d, tl, fl, names, S.Bin(op, e1, e2))
  {
    d, tl, fl := d2, tl2, fl2;
    ghost var xa, xb := Meant(e1, names).value, Meant(e2, names).value;
    d, tl, fl :- fs.PosfixCircuit(op.And?, l, d2, g, K1, c1, g2.lt, ls, xa, g2, tl2, fl2, xb);
    BeforeTrans(c0, c1, fs.code, g, -1);
    assert Meant(S.Bin(op, e1, e2), names) == Some(Joined(op.And?, xa, xb));
    st := Ok;
  }

  /** `and` and `or`. */
  method Circuit(fs: FuncState, p: S.Parser, names: Names, op: S.BinOp, ghost K0: seq<Value>, ghost c0: Code,
                 ghost g: Seg, ghost e1: S.Expr, d1: ExpDesc, ghost tl1: seq<int>, ghost fl1: seq<int>)
    returns (st: Status, ghost e: S.Expr, d: ExpDesc, ghost tl: seq<int>, ghost fl: seq<int>, nextop: Option<S.BinOp>)
    requires (op.And? || op.Or?) && p.pos <= |p.ts| && InFragment(p.ts, names) && NamesOk(names, fs.nactvar)
    requires Codes(fs, K0, c0, g, d1, tl1, fl1, names, e1)
    modifies fs, p
    ensures st.Failed? ==> fs.AtLimit() || S.Climb(p.ts, old(p.pos), S.Right(op), p.max, old(p.depth)).Failed?
    ensures st.Ok? ==> Second(S.Climb(p.ts, old(p.pos), S.Right(op), p.max, old(p.depth)), op, e1, e, p.pos)
    ensures st.Ok? ==> p.depth == old(p.depth) && nextop == p.Next() && Codes(fs, K0, c0, g, d, tl, fl, names, e)
    decreases |p.ts| - p.pos, 4
  {
    e, d, tl, fl, nextop := e1, d1, tl1, fl1, None;
    var l;
    ghost var ls, e2;
    l, ls :- OpenCircuit(fs, names, op.And?, K0, c0, g, e1, d1, tl1, fl1);
    ghost var c1, K1, g2 := fs.code, fs.K, Seg(|fs.code|, fs.lasttarget, fs.freereg);
    e2, d, tl, fl, nextop :- SubExpr(fs, p, names, S.Right(op));
    d, tl, fl :- CloseCircuit(fs, names, op, l, ls, K0, c0, K1, c1, g, g2, e1, e2, d, tl, fl);
    e := S.Bin(op, e1, e2);
    st := Ok;
  }

  /** The second operand was parsed, and joined with the first. */
  ghost predicate Second(r: S.Result, op: S.BinOp, e1: S.Expr, e: S.Expr, pos: nat) {
    r.Parsed? && r.pos == pos && e == S.Bin(op, e1, r.e)
  }

  /** The first operand of a comparison, after infix. */
  ghost predicate FirstOfCompare(h: Host, nvar: nat, K0: seq<Value>, c0: Code, K1: seq<Value>, c1: Code, g: Seg,
                                 g2: Seg, d: ExpDesc, xa: Expr, op: CmpOp)
  {
    (&& Sem(h, K1, c1, |c1|, g2.lt, g, {}, {}, Holding(d.k), xa, -1) && FirstForm(K1, d, g.fr, g2.fr, nvar)
     && (op != OpEq && op != OpNe ==> OrderForm(d, xa))
     && g2.s == |c1| && nvar <= g.fr && K0 <= K1 && Before(c0, c1, g, -1)) == true
  }

  method OpenCompare(fs: FuncState, names: Names, op: CmpOp, ghost K0: seq<Value>, ghost c0: Code, ghost g: Seg,
                     ghost e1: S.Expr, d1: ExpDesc, ghost tl1: seq<int>, ghost fl1: seq<int>)
    returns (st: Status, d: ExpDesc)
    requires Codes(fs, K0, c0, g, d1, tl1, fl1, names, e1)
    modifies fs
    ensures st.Failed? ==> fs.AtLimit()
    ensures st.Ok? ==> fs.Valid()
    ensures st.Ok? ==> FirstOfCompare(fs.host, fs.nactvar, K0, c0, fs.K, fs.code, g,
                                      Seg(|fs.code|, fs.lasttarget, fs.freereg), d,
                                      Meant(e1, names).value, op)
  {
    ghost var c, xa := fs.code, Meant(e1, names).value;
    ConstClosed(fs.K, d1, tl1, fl1, xa, fs.nactvar);
    d :- fs.InfixCompare(op, d1, g, tl1, fl1, xa);
    BeforeTrans(c0, c, fs.code, g, -1);
    st := Ok;
  }

  method CloseCompare(fs: FuncState, names: Names, op: S.BinOp, cmp: CmpOp, dA: ExpDesc, ghost K0: seq<Value>,
                      ghost c0: Code, ghost K1: seq<Value>, ghost c1: Code, ghost g: Seg, ghost g2: Seg,
                      ghost e1: S.Expr, ghost e2: S.Expr, d2: ExpDesc, ghost tl2: seq<int>, ghost fl2: seq<int>)
    returns (st: Status, d: ExpDesc)
    requires CompareOf(op) == Some(cmp) && Meant(e1, names).Some? && Closed(Meant(e1, names).value, fs.nactvar)
    requires FirstOfCompare(fs.host, fs.nactvar, K0, c0, K1, c1, g, g2, dA, Meant(e1, names).value, cmp)
    requires Codes(fs, K1, c1, g2, d2, tl2, fl2, names, e2)
    modifies fs
    ensures st.Failed? ==> fs.AtLimit()
    ensures st.Ok? ==> Codes(fs, K0, c0, g, d, [], [], names, S.Bin(op, e1, e2))
  {
    ghost var xa, xb := Meant(e1, names).value, Meant(e2, names).value;
    assert fs.Operands(g, K1, c1, g2.lt, dA, xa, g2, d2, tl2, fl2, xb);
    d :- fs.PosfixCompare(cmp, dA, d2, g, K1, c1, g2.lt, xa, g2, tl2, fl2, xb);
    BeforeTrans(c0, c1, fs.code, g, -1);
    CompareMeant(fs.K, names, d, op, cmp, e1, e2);
    st := Ok;
  }

  lemma {:induction false} CompareMeant(K: seq<Value>, names: Names, d: ExpDesc, op: S.BinOp, cmp: CmpOp,
                                        e1: S.Expr, e2: S.Expr)
    requires CompareOf(op) == Some(cmp) && Meant(e1, names).Some? && Meant(e2, names).Some? && d.k.VJmp?
    ensures var x := Cmp(cmp, Meant(e1, names).value, Meant(e2, names).value);
            Meant(S.Bin(op, e1, e2), names) == Some(x) && Predicted(K, d, [], [], x)
  {
  }

  /** A comparison. */
  method Comparison(fs: FuncState, p: S.Parser, names: Names, op: S.BinOp, cmp: CmpOp, ghost K0: seq<Value>,
                    ghost c0: Code, ghost g: Seg, ghost e1: S.Expr, d1: ExpDesc, ghost tl1: seq<int>,
                    ghost fl1: seq<int>)
    returns (st: Status, ghost e: S.Expr, d: ExpDesc, ghost tl: seq<int>, ghost fl: seq<int>, nextop: Option<S.BinOp>)
    requires CompareOf(op) == Some(cmp) && p.pos <= |p.ts| && InFragment(p.ts, names) && NamesOk(names, fs.nactvar)
    requires Codes(fs, K0, c0, g, d1, tl1, fl1, names, e1)
    modifies fs, p
    ensures st.Failed? ==> fs.AtLimit() || S.Climb(p.ts, old(p.pos), S.Right(op), p.max, old(p.depth)).Failed?
    ensures st.Ok? ==> Second(S.Climb(p.ts, old(p.pos), S.Right(op), p.max, old(p.depth)), op, e1, e, p.pos)
    ensures st.Ok? ==> p.depth == old(p.depth) && nextop == p.Next() && Codes(fs, K0, c0, g, d, tl, fl, names, e)
    decreases |p.ts| - p.pos, 4
  {
    e, d, tl, fl, nextop := e1, d1, tl1, fl1, None;
    ghost var e2;
    var dA :- OpenCompare(fs, names, cmp, K0, c0, g, e1, d1, tl1, fl1);
    ghost var c1, K1, g2 := fs.code, fs.K, Seg(|fs.code|, fs.lasttarget, fs.freereg);
    e2, d, tl, fl, nextop :- SubExpr(fs, p, names, S.Right(op));
    d :- CloseCompare(fs, names, op, cmp, dA, K0, c0, K1, c1, g, g2, e1, e2, d, tl, fl);
    e, tl, fl := S.Bin(op, e1, e2), [], [];
    st := Ok;
  }
}
