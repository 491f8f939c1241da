/**
 Whole functions: a block of assignments to locals is parsed and compiled in one pass, closed with
 a return, and finished; the machine then runs it as the language says.
 */
module Compiler {
  import opened Options
  import opened Results
  import opened Machine
  import opened Descriptor
  import opened Semantics
  import opened CodeGen
  import opened Parse
  import Finish
  import S = Subexpr

  // ---------------------------------------------------------------------------------------------
  // Blocks

  /** `reg = x`, for an active local in register reg. */
  datatype Stmt = Assign(reg: Reg, x: Expr)

  type Block = seq<Stmt>

  /** The value of x: by the manual, or as the code computes it. */
  function ValueOf(h: Host, x: Expr, r: Regs, manual: bool): Answer<Value> {
    if manual then Eval(h, x, r) else Coded(h, x, r)
  }

  /** The registers after the block, or the statement that raises an error, with the registers
      before it and the comparison that raised it. */
  datatype BlockResult = Done(r: Regs) | ErrorIn(i: nat, r: Regs, call: Call)

  function RunBlock(h: Host, ss: Block, r: Regs, manual: bool): (w: BlockResult)
    ensures w.ErrorIn? ==> w.i < |ss|
  {
    if ss == [] then Done(r)
    else
      var w := RunBlock(h, ss[..|ss| - 1], r, manual);
      if w.ErrorIn? then w
      else
        var v := ValueOf(h, ss[|ss| - 1].x, w.r, manual);
        if v.Throws? then ErrorIn(|ss| - 1, w.r, v.call) else Done(w.r[ss[|ss| - 1].reg := v.value])
  }

  /** Running the block, no sticky comparison gets another right operand than a number. */
  predicate UnseenBlock(h: Host, ss: Block, r: Regs) {
    ss == [] ||
    var bs := ss[..|ss| - 1];
    var w := RunBlock(h, bs, r, true);
    UnseenBlock(h, bs, r) && (w.Done? ==> Unseen(h, ss[|bs|].x, w.r))
  }

  /** Without sticky comparisons, that is so for all hosts and registers. */
  lemma {:induction false} NoStickyBlock(h: Host, ss: Block, r: Regs)
    requires forall i :: 0 <= i < |ss| ==> NoSticky(ss[i].x)
    ensures UnseenBlock(h, ss, r)
    decreases |ss|
  {
    if ss != [] {
      var bs := ss[..|ss| - 1];
      NoStickyBlock(h, bs, r);
      var w := RunBlock(h, bs, r, true);
      if w.Done? { NoStickyUnseen(h, ss[|bs|].x, w.r); }
    }
  }

  lemma {:induction false} CodedBlock(h: Host, ss: Block, r: Regs)
    requires UnseenBlock(h, ss, r)
    ensures RunBlock(h, ss, r, false) == RunBlock(h, ss, r, true)
    decreases |ss|
  {
    if ss != [] {
      CodedBlock(h, ss[..|ss| - 1], r);
      var r' := RunBlock(h, ss[..|ss| - 1], r, true);
      if r'.Done? { CodedIsEval(h, ss[|ss| - 1].x, r'.r); }
    }
  }

  /** The calls of the host that the block makes, each with its statement. */
  function BlockCalls(h: Host, ss: Block, r: Regs): seq<(nat, Call)> {
    if ss == [] then []
    else
      var bs := ss[..|ss| - 1];
      var w := RunBlock(h, bs, r, true);
      if w.ErrorIn? then BlockCalls(h, bs, r)
      else BlockCalls(h, bs, r) + In(|bs|, Calls(h, ss[|bs|].x, w.r))
  }

  function In(i: nat, cs: seq<Call>): (r: seq<(nat, Call)>)
    ensures |r| == |cs| && forall k :: 0 <= k < |cs| ==> r[k] == (i, cs[k])
  {
    seq(|cs|, k requires 0 <= k < |cs| => (i, cs[k]))
  }

  /** The first of the calls that is watched for. */
  function FirstIn(cs: seq<(nat, Call)>, watched: Call -> bool): Option<(nat, Call)> {
    if cs == [] then None else if watched(cs[0].1) then Some(cs[0]) else FirstIn(cs[1..], watched)
  }

  lemma {:induction false} FirstInBoth(cs: seq<(nat, Call)>, ds: seq<(nat, Call)>, watched: Call -> bool)
    ensures FirstIn(cs + ds, watched) ==
            if FirstIn(cs, watched).Some? then FirstIn(cs, watched) else FirstIn(ds, watched)
    decreases |cs|
  {
    if cs == [] {
      assert cs + ds == ds;
    } else {
      assert (cs + ds)[1..] == cs[1..] + ds;
      FirstInBoth(cs[1..], ds, watched);
    }
  }

  lemma {:induction false} FirstInOne(i: nat, cs: seq<Call>, watched: Call -> bool)
    ensures FirstIn(In(i, cs), watched) ==
            if First(cs, watched).Some? then Some((i, First(cs, watched).value)) else None
    decreases |cs|
  {
    if cs != [] {
      assert In(i, cs)[1..] == In(i, cs[1..]);
      FirstInOne(i, cs[1..], watched);
    }
  }

  /** A block under a watching host stops at the first call that is watched for, in its statement,
      and otherwise nothing is different. */
  lemma {:induction false} WatchedBlock(h: Host, ss: Block, r: Regs, watched: Call -> bool)
    ensures var c, w := FirstIn(BlockCalls(h, ss, r), watched), RunBlock(Watch(h, watched), ss, r, true);
            if c.Some? then w.ErrorIn? && (w.i, w.call) == c.value else w == RunBlock(h, ss, r, true)
    decreases |ss|
  {
    if ss != [] {
      var bs := ss[..|ss| - 1];
      WatchedBlock(h, bs, r, watched);
      var w := RunBlock(h, bs, r, true);
      if w.Done? {
        var cs := Calls(h, ss[|bs|].x, w.r);
        FirstInBoth(BlockCalls(h, bs, r), In(|bs|, cs), watched);
        FirstInOne(|bs|, cs, watched);
        FirstCall(h, ss[|bs|].x, w.r, watched);
      }
    }
  }

  // ---------------------------------------------------------------------------------------------
  // One more statement

  /** Where the code of each statement begins, and where that of the last one ends. */
  ghost predicate Marked(marks: seq<nat>, ss: Block, n: int) {
    |marks| == |ss| + 1 && marks[0] == 0 && marks[|ss|] == n && forall i :: 0 <= i < |ss| ==> marks[i] <= marks[i + 1]
  }

  /** pc q is in the code of statement i. */
  predicate InStmt(marks: seq<nat>, i: nat, q: int) {
    i + 1 < |marks| && marks[i] <= q < marks[i + 1]
  }

  ghost predicate Ends(h: Host, nvar: nat, ss: Block, marks: seq<nat>, r: Regs, e: Exit) {
    var w := RunBlock(h, ss, r, false);
    (match e
     case AtEnd(r') => w.Done? && Keep(w.r, r', nvar, -1)
     case Via(_, _) => false
     case Raised(q, r', call) => w.ErrorIn? && w.call == call && Keep(w.r, r', nvar, -1) && InStmt(marks, w.i, q)
     case Stuck => false) == true
  }

  /** The code runs the block. */
  ghost predicate Does(h: Host, K: seq<Value>, c: Code, lt: int, nvar: nat, ss: Block, marks: seq<nat>) {
    && 0 <= lt <= |c| && Marked(marks, ss, |c|)
    && Shape(c, {}, 0, |c|, lt)
    && forall r: Regs :: Ends(h, nvar, ss, marks, r, Exec(h, K, c, {}, |c|, 0, r))
  }

  /** Clearing the register that the next statement assigns is allowed only ahead of nil. */
  ghost predicate Early(h: Host, c: Code, g: Seg, x: Expr, reg: Reg, ex: int) {
    ex == -1 || (ex == reg && forall r: Regs :: Pre(c, g, r) ==> Coded(h, x, r) == Gives(Nil))
  }

  lemma StmtAdded(h: Host, K: seq<Value>, c: Code, lt: int, nvar: nat, ss: Block, marks: seq<nat>, K': seq<Value>,
                  c': Code, lt': int, g: Seg, x: Expr, reg: Reg, ex: int, c1: Code)
    requires Does(h, K, c, lt, nvar, ss, marks) && g == Seg(|c|, lt, nvar) && nvar <= 256
    requires K <= K' && Before(c, c1, g, -1) && Before(c1, c', g, ex) && Early(h, c1, g, x, reg, ex)
    requires Sem(h, K', c', |c'|, lt', g, {}, {}, Holding(VNonReloc(reg)), x, reg) && Closed(x, nvar)
    ensures Does(h, K', c', lt', nvar, ss + [Assign(reg, x)], marks + [|c'|])
  {
    NoExits();
    BeforeInto(c, c1, c', g, ex);
    ShapeAdded(c, lt, c', lt', g, ex);
    forall r: Regs ensures Ends(h, nvar, ss + [Assign(reg, x)], marks + [|c'|], r, Exec(h, K', c', {}, |c'|, 0, r)) {
      var e, r1, r1' := EnterStmt(h, K, c, lt, nvar, ss, marks, K', c', g, ex, r);
      var bs := ss + [Assign(reg, x)];
      assert bs[..|bs| - 1] == ss;
      if e.AtEnd? {
        assert Means(h, K', c', |c'|, g, {}, {}, Holding(VNonReloc(reg)), x, reg, r1');
        var _, _, r2 := EnterStmt(h, K, c, lt, nvar, ss, marks, K', c1, g, -1, r);
        SameValue(h, c1, c', nvar, g, x, reg, ex, r1, r1', r2);
        NoVia(h, K', c', |c|, lt', r1');
        EndsAdded(h, nvar, ss, bs, marks, x, reg, K', c', g, r, r1, r1');
      }
    }
  }

  lemma NoVia(h: Host, K: seq<Value>, c: Code, s: nat, lt: int, r: Regs)
    requires s <= |c| && Shape(c, {}, s, |c|, lt)
    ensures !Exec(h, K, c, {}, |c|, s, r).Via?
  {
    if Exec(h, K, c, {}, |c|, s, r).Via? { ViaInside(h, K, c, {}, s, |c|, lt, s, r); }
  }

  lemma ShapeAdded(c: Code, lt: int, c': Code, lt': int, g: Seg, ex: int)
    requires 0 <= lt <= |c| && Shape(c, {}, 0, |c|, lt) && g.s == |c| && g.lt == lt <= lt' <= |c'|
    requires Before(c, c', g, ex) && Shape(c', {}, |c|, |c'|, lt')
    ensures Shape(c', {}, 0, |c'|, lt')
  {
    forall i | 0 <= i < |c'| ensures Neat(c', {}, |c'|, lt', i) {
      if i < |c| {
        assert Neat(c, {}, |c|, lt, i);
        assert c'[i] == c[i] || Wider(c[i], c'[i], g.fr, ex);
        if i + 1 < |c| { assert c'[i + 1] == c[i + 1] || Wider(c[i + 1], c'[i + 1], g.fr, ex); }
      }
    }
  }

  /** The run up to the new statement: r1 as the old code leaves it, r1' as the new code does. */
  lemma EnterStmt(h: Host, K: seq<Value>, c: Code, lt: int, nvar: nat, ss: Block, marks: seq<nat>, K': seq<Value>,
                  c': Code, g: Seg, ex: int, r: Regs)
    returns (e: Exit, r1: Regs, r1': Regs)
    requires Does(h, K, c, lt, nvar, ss, marks) && g == Seg(|c|, lt, nvar) && K <= K' && Before(c, c', g, ex)
    ensures Ends(h, nvar, ss, marks, r, e)
    ensures e.AtEnd? ==> e.r == r1 && Keep(r1, r1', nvar, ex) && Pre(c, g, r1) && Pre(c', g, r1')
                         && Exec(h, K', c', {}, |c'|, 0, r) == Exec(h, K', c', {}, |c'|, |c|, r1')
    ensures e.Raised? ==> Exec(h, K', c', {}, |c'|, 0, r) == e
  {
    e := Exec(h, K, c, {}, |c|, 0, r);
    assert Ends(h, nvar, ss, marks, r, e);
    r1, r1' := r, r;
    if 0 < |c| {
      assert Before(c, c, g, -1);
      Prefix(h, K, c, {}, K, c, {}, g, -1, 0, 0, r);
      Prefix(h, K, c, {}, K', c', {}, g, ex, 0, 0, r);
      if e.AtEnd? {
        r1, r1' := e.r, Exec(h, K', c', {}, |c|, 0, r).r;
      }
      ExecJoin(h, K', c', {}, {}, |c|, |c'|, 0, r);
    }
  }

  lemma SameValue(h: Host, c1: Code, c': Code, nvar: nat, g: Seg, x: Expr, reg: Reg, ex: int, r1: Regs, r1': Regs,
                  r2: Regs)
    requires Early(h, c1, g, x, reg, ex) && Before(c1, c', g, ex) && Closed(x, nvar)
    requires Keep(r1, r1', nvar, ex) && Pre(c', g, r1') && Keep(r1, r2, nvar, -1) && Pre(c1, g, r2)
    ensures Coded(h, x, r1') == Coded(h, x, r1) && (ex == -1 || (ex == reg && Coded(h, x, r1').Gives?))
  {
    if ex == -1 {
      EvalKeep(h, x, nvar, r1, r1');
    } else {
      PreBack(c1, c', g, ex, r1');
      EvalKeep(h, x, nvar, r1, r2);
    }
  }

  lemma BeforeInto(c: Code, c1: Code, c2: Code, g: Seg, ex: int)
    requires Before(c, c1, g, -1) && Before(c1, c2, g, ex)
    ensures Before(c, c2, g, ex)
  {
    forall i | 0 <= i < g.s ensures c1[i] == c[i] || (i == g.s - 1 && g.lt < g.s && Wider(c[i], c1[i], g.fr, ex)) {
      assert c1[i] == c[i] || Wider(c[i], c1[i], g.fr, -1);
    }
    BeforeTrans(c, c1, c2, g, ex);
  }

  /** A descriptor without code that says nil. */
  lemma NilEarly(h: Host, K: seq<Value>, c: Code, lt: int, g: Seg, d: ExpDesc, tl: seq<int>, fl: seq<int>, x: Expr,
                 reg: Reg)
    requires Den(h, K, c, lt, g, d, tl, fl, x, -1)
    ensures Early(h, c, g, x, reg, Edge(d.k, |c|, g, reg))
  {
    if d.k.VNil? && |c| == g.s {
      forall r: Regs | Pre(c, g, r) ensures Coded(h, x, r) == Gives(Nil) {
        assert Means(h, K, c, |c|, g, TrueExits(d, tl), Members(fl), Holding(d.k), x, -1, r);
      }
    }
  }

  /** A value at rest in reg. */
  lemma AtRestSem(h: Host, K: seq<Value>, c: Code, lt: int, g: Seg, d: ExpDesc, x: Expr, reg: Reg)
    requires Den(h, K, c, lt, g, d, [], [], x, reg) && d.k == VNonReloc(reg)
    ensures Sem(h, K, c, |c|, lt, g, {}, {}, Holding(VNonReloc(reg)), x, reg)
  {
    assert Members([]) == {} && TrueExits(d, []) == {};
  }

  lemma EndsAdded(h: Host, nvar: nat, ss: Block, bs: Block, marks: seq<nat>, x: Expr, reg: Reg, K: seq<Value>,
                  c: Code, g: Seg, r: Regs, r1: Regs, r1': Regs)
    requires bs == ss + [Assign(reg, x)] && bs[..|bs| - 1] == ss && g.fr == nvar <= 256 && Closed(x, nvar)
    requires g.s <= |c| && Marked(marks, ss, g.s)
    requires var w := RunBlock(h, ss, r, false); w.Done? && Keep(w.r, r1, nvar, -1)
    requires Keep(r1, r1', nvar, reg) && Coded(h, x, r1') == Coded(h, x, r1)
    requires Keep(r1, r1', nvar, -1) || Coded(h, x, r1').Gives?
    requires var e := Exec(h, K, c, {}, |c|, g.s, r1');
             Agrees(h, K, c, g, {}, Holding(VNonReloc(reg)), x, reg, r1', e) && !e.Via?
    ensures Ends(h, nvar, bs, marks + [|c|], r, Exec(h, K, c, {}, |c|, g.s, r1'))
  {
    var w := RunBlock(h, ss, r, false).r;
    var e := Exec(h, K, c, {}, |c|, g.s, r1');
    EvalKeep(h, x, nvar, w, r1);
    if e.AtEnd? {
      assert RunBlock(h, bs, r, false) == Done(w[reg := Coded(h, x, w).value]);
    } else if e.Raised? {
      RaisedInside(h, K, c, {}, |c|, g.s, r1');
      assert InStmt(marks + [|c|], |ss|, e.q);
    }
  }

  // ---------------------------------------------------------------------------------------------
  // The compiler

  /** An assignment as it is written: the tokens of its expression. */
  datatype Source = Source(reg: Reg, ts: seq<S.Token>)

  predicate SourceOk(s: Source, names: Names, nvar: nat) {
    s.reg < nvar && InFragment(s.ts, names)
  }

  /** The tree that the parser sees in all of the tokens. */
  function TreeOf(ts: seq<S.Token>, max: nat): Option<S.Expr> {
    match S.Climb(ts, 0, 0, max, 0)
    case Parsed(e, p) => if p == |ts| then Some(e) else None
    case Failed => None
  }

  /** That is the one tree that the priorities allow, and the one in which every operand belongs to
      the operator that the manual says. */
  lemma TreeExact(ts: seq<S.Token>, max: nat, e: S.Expr)
    ensures TreeOf(ts, max) == Some(e) <==> S.Proper(ts, 0, 0, e) && S.Size(e) == |ts| && S.Depth(e) <= max
    ensures TreeOf(ts, max) == Some(e) <==> S.Tokens(e) == ts && S.ByManual(e) && S.Depth(e) <= max
  {
    S.ParseExact(ts, 0, 0, max, 0, e);
    S.ClimbSound(ts, 0, 0, max, 0);
    S.ParsedByManual(ts, max, e);
    S.TokensSize(e);
  }

  predicate Means1(src: Source, names: Names, max: nat, s: Stmt) {
    && s.reg == src.reg && TreeOf(src.ts, max).Some?
    && Meant(TreeOf(src.ts, max).value, names) == Some(s.x)
  }

  /** The statements that the sources mean. */
  ghost predicate MeansAll(src: seq<Source>, names: Names, max: nat, ss: Block) {
    |ss| == |src| && forall i :: 0 <= i < |src| ==> Means1(src[i], names, max, ss[i])
  }

  /** luaK_storevar on a local: the expression is coded and its value ends up in reg. */
  method StoreLocal(fs: FuncState, src: Source, names: Names, max: nat, ghost ss: Block, ghost marks: seq<nat>)
    returns (st: Status, ghost s: Stmt)
    requires fs.Valid() && fs.freereg == fs.nactvar && SourceOk(src, names, fs.nactvar) && NamesOk(names, fs.nactvar)
    requires Does(fs.host, fs.K, fs.code, fs.lasttarget, fs.nactvar, ss, marks)
    modifies fs
    ensures st.Failed? ==> fs.AtLimit() || TreeOf(src.ts, max).None?
    ensures st.Ok? ==> fs.Valid() && fs.freereg == fs.nactvar && Means1(src, names, max, s) && Closed(s.x, fs.nactvar)
    ensures st.Ok? ==> Does(fs.host, fs.K, fs.code, fs.lasttarget, fs.nactvar, ss + [s], marks + [|fs.code|])
  {
    s := Assign(src.reg, Const(Nil));
    ghost var g := Seg(|fs.code|, fs.lasttarget, fs.freereg);
    ghost var c, K := fs.code, fs.K;
    var d;
    ghost var x;
    d, x :- Expression(fs, src.ts, names, max);
    s := Assign(src.reg, x);
    :- StoreExp(fs, d, src.reg, x, K, c, g, ss, marks);
    st := Ok;
  }

  /** The expression of a statement, which goes to the end of its tokens; its value needs no jumps
      any more but those of d. */
  method Expression(fs: FuncState, ts: seq<S.Token>, names: Names, max: nat)
    returns (st: Status, d: ExpDesc, ghost x: Expr)
    requires fs.Valid() && InFragment(ts, names) && NamesOk(names, fs.nactvar)
    modifies fs
    ensures st.Failed? ==> fs.AtLimit() || TreeOf(ts, max).None?
    ensures st.Ok? ==> TreeOf(ts, max).Some? && Meant(TreeOf(ts, max).value, names) == Some(x)
    ensures st.Ok? ==> Ready(fs, old(fs.K), old(fs.code), old(Seg(|fs.code|, fs.lasttarget, fs.freereg)), d, x)
  {
    d, x := ExpDesc(VNil, NO_JUMP, NO_JUMP), Const(Nil);
    ghost var e, tl, fl;
    var p := new S.Parser(ts, max);
    var op;
    e, d, tl, fl, op :- SubExpr(fs, p, names, 0);
    if p.pos != |ts| {
      return Failed("syntax error"), d, x;
    }
    x := Meant(e, names).value;
    assert fs.Has(old(Seg(|fs.code|, fs.lasttarget, fs.freereg)), d, tl, fl, x);
    st := Ok;
  }

  /** d denotes x, coded from g on. */
  ghost predicate Ready(fs: FuncState, K0: seq<Value>, c0: Code, g: Seg, d: ExpDesc, x: Expr)
    reads fs
  {
    K0 <= fs.K && Before(c0, fs.code, g, -1) && Closed(x, fs.nactvar) && exists tl, fl :: fs.Has(g, d, tl, fl, x)
  }

  method StoreExp(fs: FuncState, d0: ExpDesc, reg: Reg, ghost x: Expr, ghost K: seq<Value>, ghost c: Code,
                  ghost g: Seg, ghost ss: Block, ghost marks: seq<nat>)
    returns (st: Status)
    requires g == Seg(|c|, g.lt, fs.nactvar) && reg < fs.nactvar && Ready(fs, K, c, g, d0, x)
    requires Does(fs.host, K, c, g.lt, fs.nactvar, ss, marks)
    modifies fs
    ensures st.Failed? ==> fs.AtLimit()
    ensures st.Ok? ==> fs.Valid() && fs.freereg == fs.nactvar
    ensures st.Ok? ==> Does(fs.host, fs.K, fs.code, fs.lasttarget, fs.nactvar, ss + [Assign(reg, x)],
                            marks + [|fs.code|])
  {
    ghost var tl, fl :| fs.Has(g, d0, tl, fl, x);
    fs.FreeExp(d0);
    ghost var c1, K1, lt1 := fs.code, fs.K, fs.lasttarget;
    var d :- fs.Exp2Reg(d0, reg, g, tl, fl, x);
    NilEarly(fs.host, K1, c1, lt1, g, d0, tl, fl, x, reg);
    AtRestSem(fs.host, fs.K, fs.code, fs.lasttarget, g, d, x, reg);
    StmtAdded(fs.host, K, c, g.lt, fs.nactvar, ss, marks, fs.K, fs.code, fs.lasttarget, g, x, reg,
              Edge(d0.k, |c1|, g, reg), c1);
    st := Ok;
  }

  // ---------------------------------------------------------------------------------------------
  // The machine

  /** The instructions of the fragment, as the finishing pass sees them. OtherOp is the return. */
  function Act(h: Host, K: seq<Value>, i: Instr, next: Option<Instr>, r: Regs): Finish.Flow<Regs> {
    match i
    case Move(a, b) => Finish.Go(0, r[a := r[b]])
    case LoadI(a, n) => Finish.Go(0, r[a := Int(n)])
    case LoadF(a, n) => Finish.Go(0, r[a := Flt(Finite(n as real))])
    case LoadK(a, kx) => if kx < |K| then Finish.Go(0, r[a := K[kx]]) else Finish.Halt
    case LoadKX(a) =>
      if next.Some? && next.value.ExtraArg? && next.value.ax < |K| then Finish.Go(1, r[a := K[next.value.ax]])
      else Finish.Halt
    case ExtraArg(_) => Finish.Halt
    case LoadFalse(a) => Finish.Go(0, r[a := False])
    case LFalseSkip(a) => Finish.Go(1, r[a := False])
    case LoadTrue(a) => Finish.Go(0, r[a := True])
    case LoadNil(a, n) => Finish.Go(0, Clear(r, a, n))
    case NotOp(a, b) => Finish.Go(0, r[a := Bool(!Truthy(r[b]))])
    case Jmp(sj) => Finish.Go(sj, r)
    case Branch(cond, k) =>
      if cond.CEqK? && cond.kx >= |K| then Finish.Halt else
      (match Holds(h, K, cond, r)
       case Throws(_) => Finish.Halt
       case Gives(t) => if t == k then Finish.Take(r) else Finish.Go(1, r))
    case TestSet(a, b, k) => if Truthy(r[b]) == k then Finish.Take(r[a := r[b]]) else Finish.Go(1, r)
    case OtherOp => Finish.Halt
  }

  function VM(h: Host, K: seq<Value>): Finish.Meaning<Regs> {
    (i, next, r) => Act(h, K, i, next, r)
  }

  lemma StepAct(h: Host, K: seq<Value>, c: Code, pc: nat, r: Regs)
    requires pc < |c| && !c[pc].Jmp?
    ensures var o := Step(h, K, c, {}, pc, r);
            var a := Finish.After(VM(h, K), c, pc, r);
            && (o.Next? ==> a == Some((o.pc, o.r)))
            && (o.Fault? ==> a.None? && c[pc].Branch? && Holds(h, K, c[pc].cond, r) == Throws(o.call))
            && !o.Leave?
  {
  }

  /** A run of the machine that ends by executing the instruction at q in registers r'. */
  ghost predicate RunsTo(h: Host, K: seq<Value>, c: Code, pc: int, r: Regs, q: int, r': Regs) {
    exists n: nat :: EndsIn(Finish.Observed(VM(h, K), c, pc, r, n), q, r')
  }

  predicate EndsIn(o: seq<(int, Regs)>, q: int, r': Regs) {
    o != [] && o[|o| - 1] == (q, r')
  }

  /** The run raises an error at q, in this call of the host. */
  ghost predicate Raises(h: Host, K: seq<Value>, c: Code, pc: int, r: Regs, q: int, r': Regs, call: Call) {
    RunsTo(h, K, c, pc, r, q, r') && 0 <= q < |c| && c[q].Branch? && Holds(h, K, c[q].cond, r') == Throws(call)
  }

  lemma RunsOn(h: Host, K: seq<Value>, c: Code, pc: nat, r: Regs, pc': nat, r1: Regs, q: int, r': Regs)
    requires pc < |c| && !c[pc].Jmp? && Finish.After(VM(h, K), c, pc, r) == Some((pc' as int, r1))
    requires RunsTo(h, K, c, pc', r1, q, r')
    ensures RunsTo(h, K, c, pc, r, q, r')
  {
    var n: nat :| EndsIn(Finish.Observed(VM(h, K), c, pc', r1, n), q, r');
    assert Finish.Hops(c, pc, 0) == pc;
    Finish.ResolveIs(c, pc, pc);
    assert EndsIn(Finish.Observed(VM(h, K), c, pc, r, n + 1), q, r');
  }

  lemma RunsHop(h: Host, K: seq<Value>, c: Code, pc: nat, r: Regs, q: int, r': Regs)
    requires RunsTo(h, K, c, Finish.Hop(c, pc), r, q, r')
    ensures RunsTo(h, K, c, pc, r, q, r')
  {
    var n: nat :| EndsIn(Finish.Observed(VM(h, K), c, Finish.Hop(c, pc), r, n), q, r');
    Finish.ResolveHop(c, pc);
    Finish.ObservedResolve(VM(h, K), c, pc, Finish.Hop(c, pc), r, n);
  }

  lemma RunsHere(h: Host, K: seq<Value>, c: Code, pc: nat, r: Regs)
    requires pc < |c| && !c[pc].Jmp?
    ensures RunsTo(h, K, c, pc, r, pc, r)
  {
    assert Finish.Hops(c, pc, 0) == pc;
    Finish.ResolveIs(c, pc, pc);
    assert EndsIn(Finish.Observed(VM(h, K), c, pc, r, 1), pc, r);
  }

  /** Forward execution is what the machine does. */
  lemma {:induction false} ExecRuns(h: Host, K: seq<Value>, c: Code, end: nat, pc: nat, r: Regs)
    requires pc <= end < |c| && !c[end].Jmp?
    ensures var e := Exec(h, K, c, {}, end, pc, r);
            && (e.AtEnd? ==> RunsTo(h, K, c, pc, r, end, e.r))
            && (e.Raised? ==> Raises(h, K, c, pc, r, e.q, e.r, e.call))
    decreases end - pc
  {
    var e := Exec(h, K, c, {}, end, pc, r);
    if pc == end {
      RunsHere(h, K, c, pc, r);
    } else if c[pc].Jmp? {
      var pc1 := Finish.Hop(c, pc);
      if pc < pc1 <= end {
        ExecRuns(h, K, c, end, pc1, r);
        if e.AtEnd? || e.Raised? { RunsHop(h, K, c, pc, r, if e.AtEnd? then end else e.q, e.r); }
      }
    } else {
      StepAct(h, K, c, pc, r);
      var o := Step(h, K, c, {}, pc, r);
      if o.Next? && pc < o.pc <= end {
        ExecRuns(h, K, c, end, o.pc, o.r);
        if e.AtEnd? || e.Raised? { RunsOn(h, K, c, pc, r, o.pc, o.r, if e.AtEnd? then end else e.q, e.r); }
      } else if o.Fault? {
        RunsHere(h, K, c, pc, r);
      }
    }
  }

  /** From every register state the machine reaches the return with the locals as the block leaves
      them, or raises the error that the block raises, in the same statement, with the locals as
      they are before that statement. */
  ghost predicate Delivers(h: Host, K: seq<Value>, c: Code, nvar: nat, ss: Block, marks: seq<nat>, r: Regs,
                           manual: bool) {
    var w := RunBlock(h, ss, r, manual);
    if w.Done? then Returns(h, K, c, nvar, r, w.r) else RaisesIn(h, K, c, nvar, marks, r, w.i, w.r, w.call)
  }

  ghost predicate Returns(h: Host, K: seq<Value>, c: Code, nvar: nat, r: Regs, w: Regs) {
    exists r': Regs :: RunsTo(h, K, c, 0, r, |c| - 1, r') && Keep(w, r', nvar, -1)
  }

  ghost predicate RaisesIn(h: Host, K: seq<Value>, c: Code, nvar: nat, marks: seq<nat>, r: Regs, i: nat, w: Regs,
                           call: Call) {
    exists q, r': Regs :: Raises(h, K, c, 0, r, q, r', call) && InStmt(marks, i, q) && Keep(w, r', nvar, -1)
  }

  lemma DoesDelivers(h: Host, K: seq<Value>, c: Code, lt: int, nvar: nat, ss: Block, marks: seq<nat>, c': Code, r: Regs)
    requires Does(h, K, c, lt, nvar, ss, marks) && c' == c + [OtherOp]
    ensures Delivers(h, K, c', nvar, ss, marks, r, false)
  {
    var e := Exec(h, K, c, {}, |c|, 0, r);
    assert Ends(h, nvar, ss, marks, r, e);
    ExecAlike(h, K, c, {}, K, c', {}, 0, |c|, lt, 0, r);
    ExecRuns(h, K, c', |c|, 0, r);
  }

  lemma Targeted(c: Code, lt: int, c': Code)
    requires 0 <= lt <= |c| && Shape(c, {}, 0, |c|, lt) && c' == c + [OtherOp]
    ensures Finish.WellTargeted(c')
  {
    forall i | 0 <= i < |c'| && c'[i].Jmp? ensures 0 <= Finish.Hop(c', i) < |c'| {
      assert Neat(c, {}, |c|, lt, i);
    }
  }

  lemma FinishedDelivers(h: Host, K: seq<Value>, c: Code, c': Code, nvar: nat, ss: Block, marks: seq<nat>, r: Regs)
    requires Delivers(h, K, c, nvar, ss, marks, r, false) && Finish.SameJumps(c, c')
    ensures Delivers(h, K, c', nvar, ss, marks, r, false)
    ensures UnseenBlock(h, ss, r) ==> Delivers(h, K, c', nvar, ss, marks, r, true)
  {
    if UnseenBlock(h, ss, r) { CodedBlock(h, ss, r); }
    var w := RunBlock(h, ss, r, false);
    if w.Done? {
      var r': Regs :| RunsTo(h, K, c, 0, r, |c| - 1, r') && Keep(w.r, r', nvar, -1);
      FinishedRuns(h, K, c, c', r, |c| - 1, r');
    } else {
      var q, r': Regs :| Raises(h, K, c, 0, r, q, r', w.call) && InStmt(marks, w.i, q) && Keep(w.r, r', nvar, -1);
      FinishedRuns(h, K, c, c', r, q, r');
      assert Raises(h, K, c', 0, r, q, r', w.call);
    }
  }

  lemma FinishedRuns(h: Host, K: seq<Value>, c: Code, c': Code, r: Regs, q: int, r': Regs)
    requires RunsTo(h, K, c, 0, r, q, r') && Finish.SameJumps(c, c')
    ensures RunsTo(h, K, c', 0, r, q, r')
  {
    var n: nat :| EndsIn(Finish.Observed(VM(h, K), c, 0, r, n), q, r');
    Finish.FinishPreserves(VM(h, K), c, c', 0, r, n);
  }

  /** A whole function: the block, the return, and the finishing pass. ss are the statements that
      the sources mean; the code of statement i is that from marks[i] to marks[i + 1]. */
  method CompileFunction(ghost h: Host, nvar: nat, names: Names, src: seq<Source>, max: nat)
    returns (st: Status, fs: FuncState, code: array<Instr>, ghost ss: Block, ghost marks: seq<nat>)
    requires nvar < MAX_REGISTERS && NamesOk(names, nvar)
    requires forall i :: 0 <= i < |src| ==> SourceOk(src[i], names, nvar)
    ensures fresh(fs) && fresh(code)
    ensures st.Failed? ==> fs.AtLimit() || exists i :: 0 <= i < |src| && TreeOf(src[i].ts, max).None?
    ensures st.Ok? ==> MeansAll(src, names, max, ss) && Marked(marks, ss, code.Length - 1)
    ensures st.Ok? ==> forall r: Regs :: Delivers(h, fs.K, code[..], nvar, ss, marks, r, false)
    ensures st.Ok? ==>
              forall r: Regs :: UnseenBlock(h, ss, r) ==> Delivers(h, fs.K, code[..], nvar, ss, marks, r, true)
  {
    code := new Instr[0];
    fs := new FuncState(h, nvar);
    ss, marks := [], [0];
    assert Does(h, fs.K, fs.code, 0, nvar, [], marks);
    for i := 0 to |src|
      invariant fresh(fs) && fs.Valid() && fs.freereg == fs.nactvar == nvar && fs.host == h
      invariant MeansAll(src[..i], names, max, ss)
      invariant Does(h, fs.K, fs.code, fs.lasttarget, nvar, ss, marks)
    {
      ghost var s;
      s :- StoreLocal(fs, src[i], names, max, ss, marks);
      ss, marks := ss + [s], marks + [|fs.code|];
    }
    assert src[..|src|] == src;
    ghost var c, lt := fs.code, fs.lasttarget;
    var _ := fs.Emit(OtherOp);
    Targeted(c, lt, fs.code);
    code := new Instr[|fs.code|](i requires 0 <= i < |fs.code| reads fs => fs.code[i]);
    assert code[..] == fs.code;
    ghost var K, c1 := fs.K, code[..];
    var ok := Finish.FinishJumps(code);
    if !ok {
      return Failed("control structure too long"), fs, code, ss, marks;
    }
    AllDeliver(h, K, c, lt, nvar, ss, marks, c1, code[..]);
    st := Ok;
  }

  lemma AllDeliver(h: Host, K: seq<Value>, c: Code, lt: int, nvar: nat, ss: Block, marks: seq<nat>, c1: Code, c2: Code)
    requires Does(h, K, c, lt, nvar, ss, marks) && c1 == c + [OtherOp] && Finish.SameJumps(c1, c2)
    ensures forall r: Regs :: Delivers(h, K, c2, nvar, ss, marks, r, false)
    ensures forall r: Regs :: UnseenBlock(h, ss, r) ==> Delivers(h, K, c2, nvar, ss, marks, r, true)
  {
    forall r: Regs
      ensures Delivers(h, K, c2, nvar, ss, marks, r, false)
      ensures UnseenBlock(h, ss, r) ==> Delivers(h, K, c2, nvar, ss, marks, r, true)
    {
      DoesDelivers(h, K, c, lt, nvar, ss, marks, c1, r);
      FinishedDelivers(h, K, c1, c2, nvar, ss, marks, r);
    }
  }
}
