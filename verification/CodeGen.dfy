/**
 The code generator itself: the function state whose fields the generator updates, with each
 operation proved against the meaning of the code it leaves behind.
 */
module CodeGen {
  import opened Options
  import opened Results
  import opened Machine
  import opened Descriptor
  import opened Semantics
  import opened Compose

  const MAX_REGISTERS := 255
  const MAX_INDEX_RK := 255
  const MAX_ARG_BX := 131071
  const OFFSET_SBX := 65535
  const MAX_ARG_AX := 33554431

  predicate FitsBx(i: int) {
    -OFFSET_SBX <= i <= MAX_ARG_BX - OFFSET_SBX
  }

  // ---------------------------------------------------------------------------------------------
  // Descriptors at rest

  /** The register discipline: a value that is not in a local's register is in the first
      register that was free when its code began. */
  predicate Owns(d: ExpDesc, nvar: nat, fr: nat, free: nat) {
    match d.k
    case VNonReloc(q) => (q < nvar && free == fr) || (q >= nvar && q == fr && free == fr + 1)
    case VLocal(q) => q < nvar && free == fr
    case _ => free == fr
  }

  /** The descriptor is the one that can be read off the expression. */
  ghost predicate Predicted(K: seq<Value>, d: ExpDesc, tl: seq<int>, fl: seq<int>, x: Expr) {
    && (if IsConstKind(d.k) then TailConst(x) == Some(ConstValue(K, d.k)) else TailConst(x) == None)
    && (tl != [] <==> HasExits(x, true)) && (fl != [] <==> HasExits(x, false))
  }

  // ---------------------------------------------------------------------------------------------
  // Small facts about lists and loads

  lemma NoJumpsNoLists(c: Code, d: ExpDesc, tl: seq<int>, fl: seq<int>)
    requires IsList(c, d.t, tl) && IsList(c, d.f, fl) && Members(tl) !! Members(fl)
    ensures HasJumps(d) <==> tl != [] || fl != []
  {
    if tl != [] && fl != [] {
      assert tl[0] in Members(tl) && fl[0] in Members(fl);
    }
    if tl != [] { assert tl[0] in tl; }
    if fl != [] { assert fl[0] in fl; }
  }

  /** The instructions that load a constant or a register, one of them for each kind. */
  ghost predicate LoadSeq(K: seq<Value>, k: Kind, reg: Reg, ins: seq<Instr>) {
    || (ins == [] && k == VNonReloc(reg))
    || (k.VNonReloc? && ins == [Move(reg, k.reg)])
    || (k.VNil? && ins == [LoadNil(reg, 0)])
    || (k.VTrue? && ins == [LoadTrue(reg)])
    || (k.VFalse? && ins == [LoadFalse(reg)])
    || (k.VKInt? && ins == [LoadI(reg, k.i)])
    || (k.VKFlt? && |ins| == 1 && ins[0].LoadF? && ins[0].a == reg && k.f == Finite(ins[0].i as real))
    || (IsConstKind(k) && |ins| == 1 && ins[0].LoadK? && ins[0].a == reg && ins[0].kx < |K|
        && K[ins[0].kx] == ConstValue(K, k))
    || (IsConstKind(k) && |ins| == 2 && ins[0] == LoadKX(reg) && ins[1].ExtraArg? && ins[1].ax < |K|
        && K[ins[1].ax] == ConstValue(K, k))
  }

  lemma LoadLands(h: Host, K: seq<Value>, c: Code, k: Kind, K': seq<Value>, ins: seq<Instr>, P: set<int>, reg: Reg,
                  lt: int)
    requires LoadSeq(K', k, reg, ins) && K <= K' && (k.VK? ==> k.kx < |K|)
    requires forall j :: j in P ==> j < |c|
    ensures Lands(h, K, c, k, K', c + ins, P, |c|, reg)
    ensures Shape(c + ins, P, |c|, |c + ins|, lt)
  {
    var c' := c + ins;
    forall r: Regs ensures Exec(h, K', c', P, |c'|, |c|, r) == AtEnd(r[reg := KindValue(K, c, k, r)]) {
      if ins == [] {
        assert r[reg := r[reg]] == r;
      } else {
        assert c'[|c|] == ins[0];
        if |ins| == 2 { assert c'[|c| + 1] == ins[1]; }
        if ins[0].LoadNil? { assert Clear(r, reg, 0) == r[reg := Nil]; }
        assert Step(h, K', c', P, |c|, r) == Next(|c'|, r[reg := KindValue(K, c, k, r)]);
      }
    }
    forall i | |c| <= i < |c'| ensures Neat(c', P, |c'|, lt, i) {
      assert c'[i] == ins[i - |c|];
    }
  }

  lemma BeforeDrop(c: Code, c': Code, g: Seg, ex: int)
    requires Before(c, c', g, ex) && (ex >= g.fr || ex == -1)
    ensures Before(c, c', g, -1)
  {
    forall i | 0 <= i < g.s ensures c'[i] == c[i] || (i == g.s - 1 && g.lt < g.s && Wider(c[i], c'[i], g.fr, -1)) {
      assert c'[i] == c[i] || Wider(c[i], c'[i], g.fr, ex);
    }
  }

  lemma BeforeOn(c: Code, c1: Code, c2: Code, g: Seg, ex: int)
    requires Before(c, c1, g, ex) && Before(c1, c2, g, -1)
    ensures Before(c, c2, g, ex)
  {
    forall i | 0 <= i < g.s ensures c2[i] == c1[i] || (i == g.s - 1 && g.lt < g.s && Wider(c1[i], c2[i], g.fr, ex)) {
      assert c2[i] == c1[i] || Wider(c1[i], c2[i], g.fr, -1);
    }
    BeforeTrans(c, c1, c2, g, ex);
  }

  /** More constants change nothing. */
  lemma Grown(h: Host, K: seq<Value>, c: Code, lt: int, g: Seg, d: ExpDesc, tl: seq<int>, fl: seq<int>, x: Expr,
              ex: int, K': seq<Value>)
    requires Den(h, K, c, lt, g, d, tl, fl, x, ex) && K <= K'
    ensures Den(h, K', c, lt, g, d, tl, fl, x, ex)
  {
    var T, F, end := TrueExits(d, tl), Members(fl), Stop(c, d);
    forall r: Regs | Pre(c, g, r) ensures Means(h, K', c, end, g, T, F, Holding(d.k), x, ex, r) {
      assert Means(h, K, c, end, g, T, F, Holding(d.k), x, ex, r);
      var e := Follow(h, K, c, end, lt, g, T, F, Holding(d.k), x, ex, K', c, T + F, end, r);
      if e.AtEnd? { assert KindValue(K', c, d.k, e.r) == KindValue(K, c, d.k, e.r); }
    }
  }

  /** dischargevars: a local is simply its register. */
  function Discharged(d: ExpDesc): ExpDesc {
    if d.k.VLocal? then d.(k := VNonReloc(d.k.ridx)) else d
  }

  lemma DischargedDen(h: Host, K: seq<Value>, c: Code, lt: int, g: Seg, d: ExpDesc, tl: seq<int>, fl: seq<int>,
                      x: Expr, ex: int)
    requires Den(h, K, c, lt, g, d, tl, fl, x, ex)
    ensures Den(h, K, c, lt, g, Discharged(d), tl, fl, x, ex)
  {
    if d.k.VLocal? {
      var T, F := TrueExits(d, tl), Members(fl);
      assert TrueExits(Discharged(d), tl) == T;
      forall r: Regs | Pre(c, g, r) ensures Means(h, K, c, |c|, g, T, F, Holding(Discharged(d).k), x, ex, r) {
        assert Means(h, K, c, |c|, g, T, F, Holding(d.k), x, ex, r);
      }
    }
  }

  /** Landing, at the level of descriptors. */
  lemma Loaded(h: Host, K: seq<Value>, c: Code, lt: int, g: Seg, d: ExpDesc, tl: seq<int>, fl: seq<int>, x: Expr,
               K': seq<Value>, ins: seq<Instr>, reg: Reg)
    requires Den(h, K, c, lt, g, d, tl, fl, x, -1) && !d.k.VJmp? && !d.k.VReloc? && !d.k.VLocal?
    requires K <= K' && LoadSeq(K', d.k, reg, ins)
    ensures Den(h, K', c + ins, lt, g, d.(k := VNonReloc(reg)), tl, fl, x, reg)
    ensures Before(c, c + ins, g, -1)
  {
    var d', c' := d.(k := VNonReloc(reg)), c + ins;
    var T, F := TrueExits(d, tl), Members(fl);
    assert TrueExits(d', tl) == T;
    assert c'[..|c|] == c[..|c|];
    LoadLands(h, K, c, d.k, K', ins, T + F, reg, lt);
    Landed(h, K, c, |c|, lt, g, T, F, d.k, x, K', c', reg);
    ListStable(c, c', d.t, tl);
    ListStable(c, c', d.f, fl);
  }

  /** A relocatable result is given its register. */
  lemma Placed(h: Host, K: seq<Value>, c: Code, lt: int, g: Seg, d: ExpDesc, tl: seq<int>, fl: seq<int>, x: Expr,
               reg: Reg)
    requires Den(h, K, c, lt, g, d, tl, fl, x, -1) && d.k.VReloc?
    ensures var c' := c[d.k.pc := NotOp(reg, c[d.k.pc].b)];
            Den(h, K, c', lt, g, d.(k := VNonReloc(reg)), tl, fl, x, reg) && Before(c, c', g, -1)
  {
    var p := d.k.pc;
    var c', d' := c[p := NotOp(reg, c[p].b)], d.(k := VNonReloc(reg));
    var T, F := TrueExits(d, tl), Members(fl);
    assert TrueExits(d', tl) == T;
    assert c'[..p] == c[..p];
    forall r: Regs ensures Exec(h, K, c', T + F, |c'|, p, r) == AtEnd(r[reg := KindValue(K, c, d.k, r)]) {
      ExecOne(h, K, c', T + F, p, r, r[reg := Bool(!Truthy(r[c[p].b]))]);
    }
    assert Neat(c', T + F, |c'|, lt, p);
    Landed(h, K, c, p, lt, g, T, F, d.k, x, K, c', reg);
    ListStable(c, c', d.t, tl);
    ListStable(c, c', d.f, fl);
  }

  /** nil merged into the LOADNIL before it. */
  lemma Widened(h: Host, K: seq<Value>, c: Code, lt: int, g: Seg, d: ExpDesc, tl: seq<int>, fl: seq<int>, x: Expr,
                c': Code, reg: Reg)
    requires Den(h, K, c, lt, g, d, tl, fl, x, -1) && d.k.VNil? && g.fr <= 256
    requires 0 < |c| && lt < |c| == |c'| && c'[..|c| - 1] == c[..|c| - 1]
    requires c[|c| - 1].LoadNil? && c'[|c| - 1].LoadNil?
    requires forall q {:trigger Clears(c'[|c| - 1], q)} ::
               Clears(c'[|c| - 1], q) <==> Clears(c[|c| - 1], q) || Clears(LoadNil(reg, 0), q)
    ensures Den(h, K, c', lt, g, d.(k := VNonReloc(reg)), tl, fl, x, reg) && Before(c, c', g, Edge(VNil, |c|, g, reg))
  {
    var d', last := d.(k := VNonReloc(reg)), |c| - 1;
    var T, F := TrueExits(d, tl), Members(fl);
    assert TrueExits(d', tl) == T;
    assert forall i :: 0 <= i < last ==> c'[i] == c'[..last][i] == c[..last][i] == c[i];
    assert Clears(c'[last], c[last].a) && Clears(c'[last], c[last].a + c[last].n);
    assert Clears(c'[last], reg);
    assert WidensTo(c, c', lt, reg);
    Merged(h, K, c, lt, g, T, F, x, c', reg);
    ListStable(c, c', d.t, tl);
    ListStable(c, c', d.f, fl);
  }

  function BoolSeq(reg: Reg, jump: bool, need: bool): seq<Instr> {
    if !need then [] else if jump then [LFalseSkip(reg), LoadTrue(reg)] else [Jmp(2), LFalseSkip(reg), LoadTrue(reg)]
  }

  function PosFalse(need: bool, end: int): int {
    if need then end - 2 else NO_JUMP
  }

  function PosTrue(need: bool, end: int): int {
    if need then end - 1 else NO_JUMP
  }

  /** exp2reg's two passes of patching, put together. */
  lemma FinalCode(c: Code, s: nat, T: set<int>, F: set<int>, reg: Reg, jump: bool, need: bool, cm: Code, c1: Code,
                  c2: Code)
    requires forall j :: j in T + F ==> s < j < |c| && c[j].Jmp? && IsTest(c[j - 1])
    requires T !! F
    requires cm == c + BoolSeq(reg, jump, need)
    requires Patched(cm, c1, F, |cm|, reg, PosFalse(need, |cm|)) && Patched(c1, c2, T, |cm|, reg, PosTrue(need, |cm|))
    requires need <==> exists j :: j in T + F && !c[j - 1].TestSet?
    requires jump ==> need
    ensures Final(c, c2, T, F, reg, jump, need)
  {
    var pf := |c| + (if jump then 0 else 1);
    assert need ==> PosFalse(need, |cm|) == pf && PosTrue(need, |cm|) == pf + 1;
    FinalFront(c, s, T, F, reg, need, cm, c1, c2, pf);
    forall i | |c| <= i < |cm| ensures c2[i] == cm[i] {
      assert c1[i] == c1[i];
    }
    if need { FinalLoads(c, reg, jump, cm, c2); }
  }

  lemma FinalLoads(c: Code, reg: Reg, jump: bool, cm: Code, c2: Code)
    requires cm == c + BoolSeq(reg, jump, true) && |c2| == |cm| && forall i :: |c| <= i < |cm| ==> c2[i] == cm[i]
    ensures var pf := |c| + (if jump then 0 else 1);
            |c2| == pf + 2 && c2[pf] == LFalseSkip(reg) && c2[pf + 1] == LoadTrue(reg) && (!jump ==> c2[|c|] == Jmp(2))
  {
  }

  lemma FinalFront(c: Code, s: nat, T: set<int>, F: set<int>, reg: Reg, need: bool, cm: Code, c1: Code, c2: Code,
                   pf: int)
    requires forall j :: j in T + F ==> s < j < |c| && c[j].Jmp? && IsTest(c[j - 1])
    requires T !! F && c <= cm
    requires Patched(cm, c1, F, |cm|, reg, PosFalse(need, |cm|)) && Patched(c1, c2, T, |cm|, reg, PosTrue(need, |cm|))
    requires need ==> PosFalse(need, |cm|) == pf && PosTrue(need, |cm|) == pf + 1
    requires !need ==> forall j :: j in T + F ==> c[j - 1].TestSet?
    ensures FinalHead(c, c2, T, F, reg, |cm|, pf)
  {
    forall i | 0 <= i < |c|
      ensures c2[i] ==
              if i in T + F then
                Jmp((if i > 0 && c[i - 1].TestSet? then |cm| else if i in T then pf + 1 else pf) - (i + 1))
              else if i + 1 in T + F && c[i].TestSet? then Retarget(c[i], reg)
              else c[i]
    {
      FinalAt(c, cm, T, F, reg, PosFalse(need, |cm|), PosTrue(need, |cm|), c1, c2, i);
    }
  }

  lemma FinalAt(c: Code, cm: Code, T: set<int>, F: set<int>, reg: Reg, pf: int, pt: int, c1: Code, c2: Code, i: nat)
    requires c <= cm && i < |c| && T !! F
    requires forall j :: j in T + F ==> 0 < j < |c| && c[j].Jmp? && IsTest(c[j - 1])
    requires Patched(cm, c1, F, |cm|, reg, pf) && Patched(c1, c2, T, |cm|, reg, pt)
    ensures c2[i] ==
            if i in T + F then Jmp((if c[i - 1].TestSet? then |cm| else if i in T then pt else pf) - (i + 1))
            else if i + 1 in T + F && c[i].TestSet? then Retarget(c[i], reg)
            else c[i]
  {
    assert cm[i] == c[i] && c1[i] == c1[i];
    if i in T + F {
      assert cm[i - 1] == c[i - 1] && c1[i - 1] == c1[i - 1];
      assert i - 1 !in T + F;
    }
  }

  function ConstKind(v: Value): Kind
    requires !v.Obj?
  {
    match v
    case Nil => VNil
    case False => VFalse
    case True => VTrue
    case Int(i) => VKInt(i)
    case Flt(f) => VKFlt(f)
    case Str(t) => VKStr(t)
  }

  lemma ConstClosed(K: seq<Value>, d: ExpDesc, tl: seq<int>, fl: seq<int>, x: Expr, nvar: nat)
    requires Predicted(K, d, tl, fl, x) && Closed(x, nvar)
    ensures IsConstKind(d.k) ==> !ConstValue(K, d.k).Obj?
  {
    if IsConstKind(d.k) { TailClosed(x, nvar); }
  }

  lemma {:induction false} TailClosed(x: Expr, nvar: nat)
    requires Closed(x, nvar) && TailConst(x).Some?
    ensures !TailConst(x).value.Obj?
    decreases x
  {
    match x
    case Const(_) =>
    case NotE(e) => TailClosed(e, nvar);
    case And(_, b) => TailClosed(b, nvar);
    case Or(_, b) => TailClosed(b, nvar);
  }

  /** A first operand without exits. */
  lemma FirstSettled(h: Host, K: seq<Value>, c: Code, lt: int, g: Seg, d: ExpDesc, tl: seq<int>, fl: seq<int>, x: Expr)
    requires Den(h, K, c, lt, g, d, tl, fl, x, -1) && tl == [] && fl == [] && (d.k.VNonReloc? || IsConstKind(d.k))
    ensures Sem(h, K, c, |c|, lt, g, {}, {}, Holding(d.k), x, -1) && d.t == NO_JUMP && d.f == NO_JUMP
  {
    assert Members([]) == {} && TrueExits(d, []) == {};
  }

  lemma FirstRekinded(h: Host, K: seq<Value>, c: Code, lt: int, g: Seg, k: Kind, k': Kind, x: Expr)
    requires Sem(h, K, c, |c|, lt, g, {}, {}, Holding(k), x, -1) && IsConstKind(k) && !k.VK?
    requires k'.VK? && k'.kx < |K| && K[k'.kx] == ConstValue(K, k)
    ensures Sem(h, K, c, |c|, lt, g, {}, {}, Holding(k'), x, -1)
  {
    forall r: Regs | Pre(c, g, r) ensures Means(h, K, c, |c|, g, {}, {}, Holding(k'), x, -1, r) {
      assert Means(h, K, c, |c|, g, {}, {}, Holding(k), x, -1, r);
      var e := Exec(h, K, c, {} + {}, |c|, g.s, r);
      if e.AtEnd? { SameKind(K, c, k, K, k', e.r); }
    }
  }

  /** The first operand's list is still a list, apart from the second's. */
  lemma FirstListKept(h: Host, K1: seq<Value>, c1: Code, lt1: int, g: Seg, head1: int, ls: seq<int>, xa: Expr,
                      sense: bool, K: seq<Value>, c2: Code, lt2: int, g2: Seg, d2: ExpDesc, tl: seq<int>,
                      fl: seq<int>, xb: Expr)
    requires Go(h, K1, c1, lt1, g, head1, ls, xa, sense) && After(K1, c1, lt1, g, K, c2, g2)
    requires Den(h, K, c2, lt2, g2, d2, tl, fl, xb, -1)
    ensures IsList(c2, head1, ls) && Members(tl) !! Members(ls) && Members(fl) !! Members(ls)
    ensures forall j :: j in ls ==> j < g2.s
    ensures forall j :: j in TrueExits(d2, tl) + Members(fl) ==> j > g2.s
  {
    forall j | j in ls ensures j < |c1| && c2[j] == c1[j] {
      assert j in Members(ls);
    }
    ListStable(c1, c2, head1, ls);
    forall j | j in TrueExits(d2, tl) + Members(fl) ensures j > g2.s { }
    forall j | j in tl ensures j > g2.s { assert j in TrueExits(d2, tl) + Members(fl); }
    forall j | j in fl ensures j > g2.s { assert j in TrueExits(d2, tl) + Members(fl); }
  }

  lemma CircuitDen(h: Host, nvar: nat, K1: seq<Value>, c1: Code, lt1: int, g: Seg, head1: int, ls: seq<int>,
                   xa: Expr, sense: bool, K: seq<Value>, c2: Code, lt2: int, g2: Seg, d2: ExpDesc, tl: seq<int>,
                   fl: seq<int>, xb: Expr, c3: Code, d: ExpDesc)
    requires Go(h, K1, c1, lt1, g, head1, ls, xa, sense) && After(K1, c1, lt1, g, K, c2, g2)
    requires nvar <= g.fr && Closed(xb, nvar)
    requires Den(h, K, c2, lt2, g2, d2, tl, fl, xb, -1)
    requires d.k == d2.k
    requires if sense then d.t == d2.t && IsList(c3, d.f, fl + ls) && Relinked(c2, c3, Members(fl))
             else d.f == d2.f && IsList(c3, d.t, tl + ls) && Relinked(c2, c3, Members(tl))
    ensures Den(h, K, c3, lt2, g, d, if sense then tl else tl + ls, if sense then fl + ls else fl,
                Joined(sense, xa, xb), -1)
    ensures Before(c1, c3, g, -1)
  {
    var T2, F2, end := TrueExits(d2, tl), Members(fl), Stop(c2, d2);
    var tl', fl' := if sense then tl else tl + ls, if sense then fl + ls else fl;
    var T, F := TrueExits(d, tl'), Members(fl');
    FirstListKept(h, K1, c1, lt1, g, head1, ls, xa, sense, K, c2, lt2, g2, d2, tl, fl, xb);
    Circuit(h, nvar, K1, c1, lt1, g, Members(ls), xa, sense, K, c2, end, lt2, g2, T2, F2, d2.k, xb);
    CircuitLists(sense, d2, d, tl, fl, ls);
    RelinkSem(h, K, c2, end, lt2, g, T, F, Holding(d2.k), Joined(sense, xa, xb), -1, c3);
    BeforeTrans(c1, c2, c3, g, -1);
    OtherList(c2, c3, if sense then d.t else d.f, if sense then tl else fl, if sense then Members(fl) else Members(tl));
    CircuitKind(K, c2, lt2, g, g2, d2, tl, fl, ls, sense, c3, d);
  }

  lemma CircuitPredicted(K: seq<Value>, d2: ExpDesc, d: ExpDesc, tl: seq<int>, fl: seq<int>, ls: seq<int>,
                         sense: bool, xa: Expr, xb: Expr)
    requires Predicted(K, d2, tl, fl, xb) && (ls != [] <==> LeavesEarly(sense, xa)) && d.k == d2.k
    ensures Predicted(K, d, if sense then tl else tl + ls, if sense then fl + ls else fl, Joined(sense, xa, xb))
  {
  }

  lemma CircuitLists(sense: bool, d2: ExpDesc, d: ExpDesc, tl: seq<int>, fl: seq<int>, ls: seq<int>)
    requires d.k == d2.k
    ensures sense ==> TrueExits(d, tl) == TrueExits(d2, tl) && Members(fl + ls) == Members(fl) + Members(ls)
    ensures !sense ==> TrueExits(d, tl + ls) == TrueExits(d2, tl) + Members(ls)
  {
    assert forall j :: j in tl + ls <==> j in tl || j in ls;
    assert forall j :: j in fl + ls <==> j in fl || j in ls;
  }

  lemma OtherList(c: Code, c': Code, head: int, ls: seq<int>, S: set<int>)
    requires IsList(c, head, ls) && Relinked(c, c', S) && Members(ls) !! S
    ensures IsList(c', head, ls)
  {
    forall j | j in ls ensures j < |c'| && c'[j] == c[j] { assert j in Members(ls); }
    ListStable(c, c', head, ls);
  }

  lemma CircuitKind(K: seq<Value>, c2: Code, lt2: int, g: Seg, g2: Seg, d2: ExpDesc, tl: seq<int>, fl: seq<int>,
                    ls: seq<int>, sense: bool, c3: Code, d: ExpDesc)
    requires KindOk(K, c2, lt2, g2, d2, tl, fl) && d.k == d2.k && g.s <= g2.s
    requires Relinked(c2, c3, if sense then Members(fl) else Members(tl))
    requires forall j :: j in ls ==> j < g2.s
    ensures KindOk(K, c3, lt2, g, d, if sense then tl else tl + ls, if sense then fl + ls else fl)
    ensures Stop(c3, d) == Stop(c2, d2)
  {
    if d.k.VJmp? || d.k.VReloc? { assert c3[d.k.pc] == c2[d.k.pc]; }
    if d.k.VJmp? { assert c3[d.k.pc - 1] == c2[d.k.pc - 1]; }
  }

  /** The first operand has an exit that skips the second. */
  predicate LeavesEarly(sense: bool, a: Expr) {
    HasExits(a, !sense) || !(TailConst(a).Some? && Truthy(TailConst(a).value) == sense)
  }

  /** The test that codeeq chooses, for the form its operands are in. */
  ghost predicate EqCond(K: seq<Value>, k1: Kind, ka: Kind, k2: Kind, cond: Cond) {
    || (k1.VNonReloc? && k2.VNonReloc? && cond == CEq(k1.reg, k2.reg))
    || (k1.VNonReloc? && k2.VNonReloc? && cond == CEq(k2.reg, k1.reg) && IsConstKind(ka) && !ConstValue(K, ka).Obj?)
    || (k1.VNonReloc? && IsConstKind(k2) && !ConstValue(K, k2).Obj? && ConstTest(K, k1.reg, k2, cond))
    || (k2.VNonReloc? && IsConstKind(k1) && !ConstValue(K, k1).Obj? && ConstTest(K, k2.reg, k1, cond))
  }

  predicate ConstTest(K: seq<Value>, q: Reg, k: Kind, cond: Cond) {
    || (k.VK? && k.kx < |K| && cond == CEqK(q, k.kx))
    || (cond.CEqI? && cond.a == q && (k == VKInt(cond.im) || k == VKFlt(Finite(cond.im as real))))
  }

  lemma EqTells(h: Host, K: seq<Value>, c: Code, eq: bool, k1: Kind, ka: Kind, k2: Kind, cond: Cond, xa: Expr, xb: Expr)
    requires EqCond(K, k1, ka, k2, cond)
    ensures var op := if eq then OpEq else OpNe;
            Tells(h, K, c, k1, ka, k2, op, Sticky(op, xa, xb), cond, eq)
  {
    var op := if eq then OpEq else OpNe;
    forall r: Regs ensures TellsAt(h, K, c, k1, ka, k2, op, Sticky(op, xa, xb), cond, eq, r) {
      EqTellsAt(h, K, c, eq, k1, ka, k2, cond, Sticky(op, xa, xb), r);
    }
  }

  lemma EqTellsAt(h: Host, K: seq<Value>, c: Code, eq: bool, k1: Kind, ka: Kind, k2: Kind, cond: Cond, sticky: bool,
                  r: Regs)
    requires EqCond(K, k1, ka, k2, cond) && !sticky
    ensures TellsAt(h, K, c, k1, ka, k2, if eq then OpEq else OpNe, sticky, cond, eq, r)
  {
    if KindValue(K, c, k1, r) == KindValue(K, c, ka, r) {
      EqHolds(h, K, c, k1, ka, k2, cond, r);
      EqSigned(h, eq, KindValue(K, c, k1, r), KindValue(K, c, k2, r));
    }
  }

  lemma EqSigned(h: Host, eq: bool, v: Value, w: Value)
    ensures Signed(EvalCmp(h, if eq then OpEq else OpNe, v, w), eq) == Equal(h, v, w)
  {
  }

  lemma EqHolds(h: Host, K: seq<Value>, c: Code, k1: Kind, ka: Kind, k2: Kind, cond: Cond, r: Regs)
    requires EqCond(K, k1, ka, k2, cond) && KindValue(K, c, k1, r) == KindValue(K, c, ka, r)
    ensures Holds(h, K, cond, r) == Equal(h, KindValue(K, c, k1, r), KindValue(K, c, k2, r))
  {
    if cond.CEq? {
      assert Holds(h, K, cond, r) == Equal(h, KindValue(K, c, k1, r), KindValue(K, c, k2, r));
    } else if k1.VNonReloc? && IsConstKind(k2) && ConstTest(K, k1.reg, k2, cond) {
      assert Holds(h, K, cond, r) == Gives(RawEqual(r[k1.reg], KindValue(K, c, k2, r)));
    }
  }

  lemma TwosGrown(h: Host, K: seq<Value>, c: Code, lt: int, g: Seg, k1: Kind, k2: Kind, xa: Expr, xb: Expr,
                  K': seq<Value>)
    requires Twos(h, K, c, lt, g, k1, k2, xa, xb) && K <= K'
    ensures Twos(h, K', c, lt, g, k1, k2, xa, xb)
  {
    forall r: Regs | Pre(c, g, r) ensures Two(h, K', c, g, k1, k2, xa, xb, r) {
      assert Two(h, K, c, g, k1, k2, xa, xb, r);
      var e := Exec(h, K, c, {}, |c|, g.s, r);
      GrownRun(h, K, c, lt, g, K', r, e);
      GrownBoth(h, K, c, g, k1, k2, xa, xb, K', r, e);
    }
  }

  lemma Indexed(h: Host, K: seq<Value>, c: Code, lt: int, g: Seg, k1: Kind, k2: Kind, xa: Expr, xb: Expr,
                K': seq<Value>, k': Kind)
    requires Twos(h, K, c, lt, g, k1, k2, xa, xb) && K <= K' && IsConstKind(k1)
    requires k' == k1 || (k'.VK? && k'.kx < |K'| && K'[k'.kx] == ConstValue(K, k1))
    ensures Twos(h, K', c, lt, g, k1, k2, xa, xb) && Twos(h, K', c, lt, g, k', k2, xa, xb)
    ensures ConstValue(K', k1) == ConstValue(K, k1)
  {
    TwosGrown(h, K, c, lt, g, k1, k2, xa, xb, K');
    Rekinded(h, K', c, lt, g, k1, k2, xa, xb, k', k2);
  }

  lemma GrownBoth(h: Host, K: seq<Value>, c: Code, g: Seg, k1: Kind, k2: Kind, xa: Expr, xb: Expr, K': seq<Value>,
                  r: Regs, e: Exit)
    requires Both(h, K, c, g, k1, k2, xa, xb, r, e) && K <= K' && (k1.VK? ==> k1.kx < |K|) && (k2.VK? ==> k2.kx < |K|)
    ensures Both(h, K', c, g, k1, k2, xa, xb, r, e)
  {
    if e.AtEnd? {
      SameKind(K, c, k1, K', k1, e.r);
      SameKind(K, c, k2, K', k2, e.r);
    }
  }

  /** The same kind in a longer constant table, or the same constant as a table entry. */
  lemma SameKind(K: seq<Value>, c: Code, k: Kind, K': seq<Value>, k': Kind, r: Regs)
    requires K <= K' && (k.VK? ==> k.kx < |K|)
    requires k' == k || (IsConstKind(k) && k'.VK? && k'.kx < |K'| && K'[k'.kx] == ConstValue(K, k))
    ensures KindValue(K', c, k', r) == KindValue(K, c, k, r)
  {
  }

  lemma GrownRun(h: Host, K: seq<Value>, c: Code, lt: int, g: Seg, K': seq<Value>, r: Regs, e: Exit)
    requires g.s <= |c| && K <= K' && Shape(c, {}, g.s, |c|, lt) && e == Exec(h, K, c, {}, |c|, g.s, r) && e != Stuck
    ensures Exec(h, K', c, {}, |c|, g.s, r) == e
  {
    ExecAlike(h, K, c, {}, K', c, {}, g.s, |c|, lt, g.s, r);
  }

  /** A constant may be described in another way. */
  lemma Rekinded(h: Host, K: seq<Value>, c: Code, lt: int, g: Seg, k1: Kind, k2: Kind, xa: Expr, xb: Expr, k1': Kind,
                 k2': Kind)
    requires Twos(h, K, c, lt, g, k1, k2, xa, xb)
    requires k1' == k1 || (IsConstKind(k1) && k1'.VK? && k1'.kx < |K| && K[k1'.kx] == ConstValue(K, k1))
    requires k2' == k2 || (IsConstKind(k2) && k2'.VK? && k2'.kx < |K| && K[k2'.kx] == ConstValue(K, k2))
    ensures Twos(h, K, c, lt, g, k1', k2', xa, xb)
  {
    forall r: Regs | Pre(c, g, r) ensures Two(h, K, c, g, k1', k2', xa, xb, r) {
      assert Two(h, K, c, g, k1, k2, xa, xb, r);
      var e := Exec(h, K, c, {}, |c|, g.s, r);
      if e.AtEnd? {
        SameKind(K, c, k1, K, k1', e.r);
        SameKind(K, c, k2, K, k2', e.r);
      }
    }
  }

  datatype SCNumber = SCNumber(im: int, isFloat: bool, ok: bool)

  /** isSCnumber: a number that fits an immediate operand; the float flag is set even when it does not. */
  function IsSCNumber(d: ExpDesc): SCNumber {
    match d.k
    case VKInt(i) => if !HasJumps(d) && FitsC(i) then SCNumber(i, false, true) else SCNumber(0, false, false)
    case VKFlt(f) =>
      var i := ExactInt(f);
      if i.None? then SCNumber(0, false, false)
      else if !HasJumps(d) && FitsC(i.value) then SCNumber(i.value, true, true)
      else SCNumber(0, true, false)
    case _ => SCNumber(0, false, false)
  }

  function CmpOf(op: Order, swapped: bool): CmpOp {
    match op
    case Less => if swapped then OpGt else OpLt
    case LessEqual => if swapped then OpGe else OpLe
  }

  /** What infix leaves of the first operand of an order comparison. */
  predicate OrderForm(d: ExpDesc, x: Expr) {
    if d.k.VNonReloc? then !SmallInt(x)
    else IsSCNumber(d).ok && TailConst(x) == Some(ConstValue([], d.k)) && NoExit(x)
  }

  /** The test that codeorder chooses, for the form its operands are in. */
  ghost predicate OrderCond(op: Order, swapped: bool, dA: ExpDesc, dB: ExpDesc, k1: Kind, k2: Kind, cond: Cond) {
    var e1, e2 := if swapped then dB else dA, if swapped then dA else dB;
    var f1, f2 := if swapped then k2 else k1, if swapped then k1 else k2;
    var s1, s2 := IsSCNumber(e1), IsSCNumber(e2);
    if s2.ok then f1.VNonReloc? && f2 == e2.k && cond == COrderI(op, f1.reg, s2.im, s2.isFloat)
    else if s1.ok then f2.VNonReloc? && f1 == e1.k && cond == CFlipI(op, f2.reg, s1.im, s2.isFloat || s1.isFloat)
    else f1.VNonReloc? && f2.VNonReloc? && cond == COrder(op, f1.reg, f2.reg)
  }

  lemma OrderTells(h: Host, K: seq<Value>, c: Code, op: Order, swapped: bool, dA: ExpDesc, dB: ExpDesc, K0: seq<Value>,
                   tl: seq<int>, fl: seq<int>, xa: Expr, xb: Expr, k1: Kind, k2: Kind, cond: Cond)
    requires OrderForm(dA, xa) && Predicted(K0, dB, tl, fl, xb) && (HasJumps(dB) <==> tl != [] || fl != []) && !dB.k.VK?
    requires OrderCond(op, swapped, dA, dB, k1, k2, cond)
    ensures Tells(h, K, c, k1, k1, k2, CmpOf(op, swapped), Sticky(CmpOf(op, swapped), xa, xb), cond, true)
  {
    var sticky := Sticky(CmpOf(op, swapped), xa, xb);
    StickyFlag(op, swapped, dA, dB, K0, tl, fl, xa, xb);
    forall r: Regs ensures TellsAt(h, K, c, k1, k1, k2, CmpOf(op, swapped), sticky, cond, true, r) {
    }
  }

  /** The float flag of the immediate operand is the sticky one. */
  lemma StickyFlag(op: Order, swapped: bool, dA: ExpDesc, dB: ExpDesc, K: seq<Value>, tl: seq<int>, fl: seq<int>,
                   xa: Expr, xb: Expr)
    requires OrderForm(dA, xa) && Predicted(K, dB, tl, fl, xb) && (HasJumps(dB) <==> tl != [] || fl != []) && !dB.k.VK?
    ensures swapped || IsSCNumber(dB).ok || dA.k.VNonReloc? ==> !Sticky(CmpOf(op, swapped), xa, xb)
    ensures !swapped && dA.k.VKInt? && !IsSCNumber(dB).ok ==>
              (Sticky(CmpOf(op, swapped), xa, xb) <==> IsSCNumber(dB).isFloat)
  {
  }

  lemma ComparedDen(h: Host, K: seq<Value>, c: Code, lt: int, g: Seg, k1: Kind, ka: Kind, k2: Kind, xa: Expr,
                    xb: Expr, op: CmpOp, cond: Cond, k: bool, c': Code)
    requires Twos(h, K, c, lt, g, k1, k2, xa, xb) && Twos(h, K, c, lt, g, ka, k2, xa, xb)
    requires Tells(h, K, c, k1, ka, k2, op, Sticky(op, xa, xb), cond, k)
    requires c' == c + [Branch(cond, k), Jmp(NO_JUMP)]
    ensures Den(h, K, c', lt, g, ExpDesc(VJmp(|c| + 1), NO_JUMP, NO_JUMP), [], [], Cmp(op, xa, xb), -1)
    ensures Before(c, c', g, -1)
  {
    var d := ExpDesc(VJmp(|c| + 1), NO_JUMP, NO_JUMP);
    Compared(h, K, c, lt, g, k1, ka, k2, xa, xb, op, cond, k, c');
    assert Members([]) == {} && TrueExits(d, []) == {|c| + 1};
    assert c'[|c|] == Branch(cond, k) && c'[|c| + 1] == Jmp(NO_JUMP);
  }

  /** The first operand of a comparison after infix. */
  predicate FirstForm(K: seq<Value>, d: ExpDesc, fr: nat, fr2: nat, nvar: nat) {
    && d.t == NO_JUMP && d.f == NO_JUMP
    && if d.k.VNonReloc? then (d.k.reg < nvar && fr2 == fr) || (nvar <= d.k.reg == fr && fr2 == fr + 1)
       else IsConstKind(d.k) && fr2 == fr && (d.k.VK? ==> d.k.kx < |K| && !K[d.k.kx].Obj?)
  }

  function RegOf(k: Kind): int {
    if k.VNonReloc? then k.reg else -1
  }

  /** The temporaries of two operands are the registers from fr on. */
  predicate TwoOwned(k1: Kind, k2: Kind, fr: nat, free: nat, nvar: nat) {
    var r1, r2 := RegOf(k1), RegOf(k2);
    if r1 < nvar && r2 < nvar then free == fr
    else if r1 < nvar then r2 == fr && free == fr + 1
    else if r2 < nvar then r1 == fr && free == fr + 1
    else ((r1 == fr && r2 == fr + 1) || (r1 == fr + 1 && r2 == fr)) && free == fr + 2
  }

  lemma OwnedAlike(k: Kind, k': Kind, k2: Kind, fr: nat, free: nat, nvar: nat)
    requires TwoOwned(k, k2, fr, free, nvar) && RegOf(k) == RegOf(k')
    ensures TwoOwned(k', k2, fr, free, nvar)
  {
  }

  /** The second operand, without exits, joins the first. */
  lemma SecondSettled(h: Host, nvar: nat, K1: seq<Value>, c1: Code, lt1: int, g: Seg, k1: Kind, xa: Expr,
                      K: seq<Value>, c: Code, lt: int, g2: Seg, d: ExpDesc, xb: Expr)
    requires Sem(h, K1, c1, |c1|, lt1, g, {}, {}, Holding(k1), xa, -1)
    requires After(K1, c1, lt1, g, K, c, g2) && nvar <= g.fr && Closed(xb, nvar)
    requires Steady(k1, g2.fr) && (k1.VK? ==> k1.kx < |K1|)
    requires Den(h, K, c, lt, g2, d, [], [], xb, -1) && (d.k.VNonReloc? || IsConstKind(d.k))
    ensures Twos(h, K, c, lt, g, k1, d.k, xa, xb)
    ensures Before(c1, c, g, -1)
  {
    assert Members([]) == {} && TrueExits(d, []) == {};
    Paired(h, nvar, K1, c1, lt1, g, k1, xa, K, c, lt, g2, d.k, xb);
  }

  /** The second operand is a constant, now in the constant table. */
  lemma SecondConst(h: Host, nvar: nat, K1: seq<Value>, c1: Code, lt1: int, g: Seg, k1: Kind, xa: Expr,
                    K: seq<Value>, c: Code, lt: int, g2: Seg, d: ExpDesc, xb: Expr, k2: Kind)
    requires Sem(h, K1, c1, |c1|, lt1, g, {}, {}, Holding(k1), xa, -1)
    requires After(K1, c1, lt1, g, K, c, g2) && nvar <= g.fr && Closed(xb, nvar)
    requires Steady(k1, g2.fr) && (k1.VK? ==> k1.kx < |K1|)
    requires Den(h, K, c, lt, g2, d, [], [], xb, -1) && IsConstKind(d.k)
    requires k2 == d.k || (k2.VK? && k2.kx < |K| && K[k2.kx] == ConstValue(K, d.k))
    ensures Twos(h, K, c, lt, g, k1, k2, xa, xb) && Before(c1, c, g, -1)
  {
    SecondSettled(h, nvar, K1, c1, lt1, g, k1, xa, K, c, lt, g2, d, xb);
    Rekinded(h, K, c, lt, g, k1, d.k, xa, xb, k1, k2);
  }

  /** A late load of the first operand, which stays the constant it was. */
  lemma LateLoaded(h: Host, K: seq<Value>, c: Code, lt: int, g: Seg, k1: Kind, k2: Kind, xa: Expr, xb: Expr,
                   K': seq<Value>, c': Code, lt': int, g': Seg, d: ExpDesc)
    requires Twos(h, K, c, lt, g, k1, k2, xa, xb) && g'.s == |c| && g'.lt == lt && g.fr <= g'.fr
    requires K <= K' && Before(c, c', g', -1)
    requires IsConstKind(k1) && Steady(k2, g'.fr)
    requires Den(h, K', c', lt', g', d, [], [], Const(ConstValue(K, k1)), -1) && d.k.VNonReloc?
    ensures Twos(h, K', c', lt', g, d.k, k2, xa, xb) && Twos(h, K', c', lt', g, k1, k2, xa, xb)
    ensures Before(c, c', g, -1)
  {
    assert Members([]) == {} && TrueExits(d, []) == {};
    PairLoaded(h, K, c, lt, g, k1, k2, xa, xb, K', c', lt', g', ConstValue(K, k1), d.k.reg, d.k, k2);
    PairLoaded(h, K, c, lt, g, k1, k2, xa, xb, K', c', lt', g', ConstValue(K, k1), d.k.reg, k1, k2);
  }

  /** NOT is emitted after the operand's code, which still means what it did. */
  lemma NotCoded(h: Host, K: seq<Value>, c: Code, lt: int, g: Seg, d: ExpDesc, tl: seq<int>, fl: seq<int>, x: Expr,
                 c': Code)
    requires Den(h, K, c, lt, g, d, tl, fl, x, -1) && d.k.VNonReloc? && c' == c + [NotOp(0, d.k.reg)]
    ensures IsList(c', d.t, tl) && IsList(c', d.f, fl)
    ensures Sem(h, K, c', |c|, lt, g, Members(tl), Members(fl), Holding(d.k), x, -1)
    ensures Before(c, c', g, -1)
  {
    var T, F := Members(tl), Members(fl);
    assert TrueExits(d, tl) == T;
    ListGrow(c, c', d.t, tl);
    ListGrow(c, c', d.f, fl);
    assert forall i :: 0 <= i < |c| ==> c'[i] == c[i];
    ShapeAlike(c, T + F, c', T + F, g.s, |c|, lt, lt);
    forall r: Regs | Pre(c', g, r) ensures Means(h, K, c', |c|, g, T, F, Holding(d.k), x, -1, r) {
      PreBack(c, c', g, -1, r);
      assert Means(h, K, c, |c|, g, T, F, Holding(d.k), x, -1, r);
      var e := Follow(h, K, c, |c|, lt, g, T, F, Holding(d.k), x, -1, K, c', T + F, |c|, r);
      NotAgrees(h, K, c, g, T, T + F, d.k, x, c', r, e);
    }
  }

  lemma NotAgrees(h: Host, K: seq<Value>, c: Code, g: Seg, T: set<int>, S: set<int>, k: Kind, x: Expr, c': Code,
                  r: Regs, e: Exit)
    requires Agrees(h, K, c, g, T, Holding(k), x, -1, r, e) && (e.Via? ==> Own(c, |c|, g, S, e.j))
    requires k.VNonReloc? && c <= c'
    ensures Agrees(h, K, c', g, T, Holding(k), x, -1, r, e)
  {
  }

  lemma ListUnvalued(c: Code, c': Code, head: int, ls: seq<int>, S: set<int>)
    requires IsList(c, head, ls) && Unvalued(c, c', S)
    ensures IsList(c', head, ls)
  {
    forall j | j in ls ensures j < |c'| && c'[j] == c[j] { }
    ListStable(c, c', head, ls);
  }

  /** The descriptor that codenot builds, before its lists trade places. */
  ghost predicate NotReady(K: seq<Value>, c: Code, g: Seg, T: set<int>, F: set<int>, k: Kind, d: ExpDesc,
                           tl: seq<int>, fl: seq<int>) {
    match d.k
    case VTrue => (k.VNil? || k.VFalse?) && T == Members(tl) && F == Members(fl)
    case VFalse => IsConstKind(k) && !k.VNil? && !k.VFalse? && !k.VK? && T == Members(tl) && F == Members(fl)
    case VJmp(p) =>
      && k.VTrue? && T == Members(tl) && F == Members(fl) + {p as int} && p !in tl && p !in fl
      && p == |c| - 1 && g.s < p && c[p] == Jmp(NO_JUMP) && c[p - 1].Branch?
    case VReloc(p) =>
      k.VNonReloc? && T == Members(tl) && F == Members(fl) && p == |c| - 1 && g.s <= p && c[p] == NotOp(0, k.reg)
    case _ => false
  }

  lemma NotDone(h: Host, K: seq<Value>, c1: Code, lt: int, g: Seg, T: set<int>, F: set<int>, k: Kind, d: ExpDesc,
                tl: seq<int>, fl: seq<int>, x: Expr, c2: Code, c3: Code)
    requires Sem(h, K, c1, Stop(c1, d), lt, g, T, F, Holding(k), x, -1)
    requires NotReady(K, c1, g, T, F, k, d, tl, fl) && (d.k.VJmp? ==> lt < d.k.pc)
    requires IsList(c1, d.t, tl) && IsList(c1, d.f, fl)
    requires Unvalued(c1, c2, Members(tl)) && Unvalued(c2, c3, Members(fl))
    ensures Den(h, K, c3, lt, g, ExpDesc(d.k, d.f, d.t), fl, tl, NotE(x), -1)
    ensures Before(c1, c3, g, -1)
  {
    var S, d' := Members(tl) + Members(fl), ExpDesc(d.k, d.f, d.t);
    UnvaluedBoth(c1, c2, c3, Members(tl), Members(fl));
    ListUnvalued(c1, c3, d.t, tl, S);
    ListUnvalued(c1, c3, d.f, fl, S);
    assert forall r: Regs :: KindValue(K, c3, d.k, r) == Bool(!Truthy(KindValue(K, c1, k, r))) by {
      if d.k.VReloc? { assert c3[d.k.pc] == c1[d.k.pc]; }
    }
    if d.k.VJmp? { assert c3[d.k.pc] == c1[d.k.pc] && c3[d.k.pc - 1] == c1[d.k.pc - 1]; }
    Inverted(h, K, c1, Stop(c1, d), lt, g, T, F, k, x, c3, d.k, S);
    assert TrueExits(d', fl) == F;
  }

  lemma UnvaluedBoth(c1: Code, c2: Code, c3: Code, S1: set<int>, S2: set<int>)
    requires Unvalued(c1, c2, S1) && Unvalued(c2, c3, S2)
    ensures Unvalued(c1, c3, S1 + S2)
  {
    forall i | 0 <= i < |c1|
      ensures c3[i] == if i + 1 in S1 + S2 && c1[i].TestSet? then Retarget(c1[i], NO_REG) else c1[i]
    {
      assert c2[i] == c2[i];
    }
  }

  lemma AtRest(h: Host, K: seq<Value>, c: Code, lt: int, g: Seg, tl: seq<int>, fl: seq<int>, reg: Reg, x: Expr)
    requires tl == [] && fl == []
    requires || Sem(h, K, c, |c|, lt, g, {}, {}, Holding(VNonReloc(reg)), x, reg)
             || Sem(h, K, c, |c|, lt, g, Members(tl), Members(fl), Holding(VNonReloc(reg)), x, reg)
    ensures Den(h, K, c, lt, g, ExpDesc(VNonReloc(reg), NO_JUMP, NO_JUMP), [], [], x, reg)
  {
    assert Members([]) == {} && TrueExits(ExpDesc(VNonReloc(reg), NO_JUMP, NO_JUMP), []) == {};
  }

  lemma DropDen(h: Host, K: seq<Value>, c: Code, lt: int, g: Seg, d: ExpDesc, tl: seq<int>, fl: seq<int>, x: Expr,
                ex: int)
    requires Den(h, K, c, lt, g, d, tl, fl, x, ex) && ex >= g.fr
    ensures Den(h, K, c, lt, g, d, tl, fl, x, -1)
  {
    DropException(h, K, c, Stop(c, d), lt, g, TrueExits(d, tl), Members(fl), Holding(d.k), x, ex);
  }

  lemma Dropped(h: Host, K: seq<Value>, c: Code, lt: int, g: Seg, d: ExpDesc, x: Expr, reg: Reg, c0: Code, ex: int)
    requires Den(h, K, c, lt, g, d, [], [], x, reg) && reg >= g.fr && Before(c0, c, g, ex) && (ex == reg || ex == -1)
    ensures Den(h, K, c, lt, g, d, [], [], x, -1) && Before(c0, c, g, -1)
  {
    DropDen(h, K, c, lt, g, d, [], [], x, reg);
    BeforeDrop(c0, c, g, ex);
  }

  /** The value is in a register and has no exits: nothing is left to do. */
  predicate InRegister(d: ExpDesc) {
    Discharged(d).k.VNonReloc? && !HasJumps(d)
  }

  /**
   A condition with one new jump (or none), not yet in the list it belongs to; falling through
   says that x is as `sense` tells, and the exits of the other list are to join it.
   */
  ghost predicate Poised(h: Host, K: seq<Value>, c: Code, lt: int, g: Seg, own: int, os: seq<int>, pc: int,
                         ps: seq<int>, other: int, ts: seq<int>, x: Expr, sense: bool)
  {
    (&& IsList(c, own, os) && IsList(c, pc, ps) && IsList(c, other, ts)
     && Members(os) !! Members(ps) && Members(os + ps) !! Members(ts)
     && (if sense then Sem(h, K, c, |c|, lt, g, Members(ts), Members(os + ps), Known(true), x, -1)
         else Sem(h, K, c, |c|, lt, g, Members(os + ps), Members(ts), Known(false), x, -1))) == true
  }

  lemma MembersPlus(os: seq<int>, p: int)
    ensures Members(os + [p]) == Members(os) + {p} && Members([p]) == {p} && Members(os + []) == Members(os)
  {
    assert forall j :: j in os + [p] <==> j in os || j == p;
    assert os + [] == os;
  }

  /** The two instructions of jumponcond after the code of d. */
  function TestCode(c: Code, d: ExpDesc, cond: bool): Code
    requires d.k.VNonReloc? || (d.k.VReloc? && d.k.pc == |c| - 1 && c[d.k.pc].NotOp?)
  {
    if d.k.VReloc? then c[..|c| - 1] + [Branch(CTest(c[d.k.pc].b), !cond), Jmp(NO_JUMP)]
    else c + [TestSet(NO_REG, d.k.reg, cond), Jmp(NO_JUMP)]
  }

  lemma JumpCoded(h: Host, K: seq<Value>, c: Code, lt: int, g: Seg, d: ExpDesc, tl: seq<int>, fl: seq<int>, x: Expr,
                  cond: bool, c': Code)
    requires Den(h, K, c, lt, g, d, tl, fl, x, -1) && (d.k.VNonReloc? || d.k.VReloc?)
    requires c' == TestCode(c, d, cond)
    ensures var pc := |c'| - 1;
            if cond then Poised(h, K, c', lt, g, d.t, tl, pc, [pc], d.f, fl, x, false)
            else Poised(h, K, c', lt, g, d.f, fl, pc, [pc], d.t, tl, x, true)
    ensures Before(c, c', g, -1)
  {
    var T, F, end, pc := TrueExits(d, tl), Members(fl), Stop(c, d), |c'| - 1;
    assert T == Members(tl);
    JumpSem(h, K, c, lt, g, d, T, F, x, cond, c');
    JumpStable(c, lt, g, end, T, F, c', d.t, tl, d.f, fl);
    MembersPlus(tl, pc);
    MembersPlus(fl, pc);
  }

  lemma JumpSem(h: Host, K: seq<Value>, c: Code, lt: int, g: Seg, d: ExpDesc, T: set<int>, F: set<int>, x: Expr,
                cond: bool, c': Code)
    requires Sem(h, K, c, Stop(c, d), lt, g, T, F, Holding(d.k), x, -1)
    requires d.k.VNonReloc? || (d.k.VReloc? && d.k.pc == |c| - 1 && c[d.k.pc].NotOp?)
    requires c' == TestCode(c, d, cond)
    ensures var pc := |c'| - 1;
            && Stop(c, d) == pc - 1 && c'[..pc - 1] == c[..pc - 1]
            && Sem(h, K, c', |c'|, lt, g, if cond then T + {pc} else T, if cond then F else F + {pc},
                   Known(!cond), x, -1)
    ensures Before(c, c', g, -1)
  {
    var end := Stop(c, d);
    assert c'[..end] == c[..end];
    assert Conditional(c, end, d.k, cond, c');
    Tested(h, K, c, end, lt, g, T, F, d.k, x, cond, c',
           if cond then T + {end + 1} else T, if cond then F else F + {end + 1});
  }

  lemma JumpStable(c: Code, lt: int, g: Seg, end: nat, T: set<int>, F: set<int>, c': Code, t: int, tl: seq<int>,
                   f: int, fl: seq<int>)
    requires Frame(c, end, lt, g, T, F) && T == Members(tl) && F == Members(fl)
    requires IsList(c, t, tl) && IsList(c, f, fl)
    requires |c'| == end + 2 && c'[..end] == c[..end] && c'[end + 1] == Jmp(NO_JUMP)
    ensures IsList(c', t, tl) && IsList(c', f, fl) && IsList(c', end + 1, [end + 1])
    ensures end + 1 !in tl && end + 1 !in fl
  {
    forall j | j in tl || j in fl ensures j < end && c'[j] == c[j] {
      assert j in T + F;
      assert c'[j] == c'[..end][j] == c[..end][j];
    }
    ListStable(c, c', t, tl);
    ListStable(c, c', f, fl);
    assert LinksAt(c', [end + 1], 0);
  }

  /** A comparison already jumps when it is true. */
  lemma GoJump(h: Host, K: seq<Value>, c: Code, lt: int, g: Seg, d: ExpDesc, tl: seq<int>, fl: seq<int>, x: Expr)
    requires Den(h, K, c, lt, g, d, tl, fl, x, -1) && d.k.VJmp?
    ensures Poised(h, K, c, lt, g, d.t, tl, d.k.pc, [d.k.pc], d.f, fl, x, false)
  {
    JumpIsList(h, K, c, lt, g, d, tl, fl, x);
    MembersPlus(tl, d.k.pc);
    Weaken(h, K, c, |c|, lt, g, TrueExits(d, tl), Members(fl), d.k, x, false);
  }

  /** Relinking the list of the new jump. */
  lemma Linked(h: Host, K: seq<Value>, c: Code, lt: int, g: Seg, own: int, os: seq<int>, pc: int, ps: seq<int>,
               other: int, ts: seq<int>, x: Expr, sense: bool, c': Code)
    requires Poised(h, K, c, lt, g, own, os, pc, ps, other, ts, x, sense) && Relinked(c, c', Members(os))
    ensures if sense then Sem(h, K, c', |c'|, lt, g, Members(ts), Members(os + ps), Known(true), x, -1)
            else Sem(h, K, c', |c'|, lt, g, Members(os + ps), Members(ts), Known(false), x, -1)
    ensures IsList(c', other, ts) && Before(c, c', g, -1)
  {
    var T, F := if sense then Members(ts) else Members(os + ps), if sense then Members(os + ps) else Members(ts);
    assert forall j :: j in os ==> j in os + ps;
    assert Relinked(c, c', T + F);
    RelinkSem(h, K, c, |c|, lt, g, T, F, Known(sense), x, -1, c');
    forall j | j in ts ensures j < |c'| && c'[j] == c[j] {
      assert j in Members(ts);
      assert j in Members(os) ==> j in Members(os + ps);
    }
    ListStable(c, c', other, ts);
  }

  lemma WentOn(h: Host, K: seq<Value>, c: Code, lt: int, g: Seg, l: int, ls: seq<int>, ts: seq<int>, x: Expr,
               sense: bool, c': Code)
    requires IsList(c, l, ls) && Members(ls) !! Members(ts)
    requires if sense then Sem(h, K, c, |c|, lt, g, Members(ts), Members(ls), Known(true), x, -1)
             else Sem(h, K, c, |c|, lt, g, Members(ls), Members(ts), Known(false), x, -1)
    requires Patched(c, c', Members(ts), |c|, NO_REG, |c|)
    ensures Go(h, K, c', |c'|, g, l, ls, x, sense) && Before(c, c', g, -1)
  {
    PatchedHere(h, K, c, lt, g, if sense then Members(ts) else Members(ls), if sense then Members(ls) else Members(ts),
                x, sense, c');
    ListApart(c, c', l, ls, Members(ts), |c|, NO_REG, |c|);
  }

  lemma GoNegated(h: Host, K: seq<Value>, c: Code, lt: int, g: Seg, d: ExpDesc, tl: seq<int>, fl: seq<int>, x: Expr,
                  c': Code)
    requires Den(h, K, c, lt, g, d, tl, fl, x, -1) && d.k.VJmp?
    requires c' == c[d.k.pc - 1 := Branch(c[d.k.pc - 1].cond, !c[d.k.pc - 1].k)]
    ensures Poised(h, K, c', lt, g, d.f, fl, d.k.pc, [d.k.pc], d.t, tl, x, true)
    ensures Sem(h, K, c', |c'|, lt, g, Members(tl), Members(fl) + {d.k.pc as int}, Holding(VTrue), x, -1)
    ensures Before(c, c', g, -1)
  {
    var p := d.k.pc;
    var T, F := Members(tl), Members(fl);
    assert TrueExits(d, tl) == T + {p as int};
    MembersPlus(fl, p);
    Negated(h, K, c, lt, g, T, F, p, x, c');
    Weaken(h, K, c', |c'|, lt, g, T, F + {p as int}, VTrue, x, true);
    forall j | j in tl || j in fl ensures j < |c'| && c'[j] == c[j] { }
    ListStable(c, c', d.t, tl);
    ListStable(c, c', d.f, fl);
    assert LinksAt(c', [p as int], 0);
  }

  /** A constant operand settles the condition by itself. */
  lemma GoConst(h: Host, K: seq<Value>, c: Code, lt: int, g: Seg, d: ExpDesc, tl: seq<int>, fl: seq<int>, x: Expr,
                sense: bool)
    requires Den(h, K, c, lt, g, d, tl, fl, x, -1) && IsConstKind(d.k)
    requires (d.k.VNil? || d.k.VFalse?) == !sense && (d.k.VK? ==> Truthy(K[d.k.kx]))
    ensures if sense then Poised(h, K, c, lt, g, d.f, fl, NO_JUMP, [], d.t, tl, x, true)
            else Poised(h, K, c, lt, g, d.t, tl, NO_JUMP, [], d.f, fl, x, false)
    ensures Truthy(ConstValue(K, d.k)) == sense
  {
    assert TrueExits(d, tl) == Members(tl);
    MembersPlus(tl, 0);
    MembersPlus(fl, 0);
    Weaken(h, K, c, |c|, lt, g, Members(tl), Members(fl), d.k, x, sense);
  }

  /** Some jump of the list does not produce a value. */
  ghost predicate NeedsValue(c: Code, ls: seq<int>) {
    exists j :: j in ls && !(1 <= j <= |c| && c[j - 1].TestSet?)
  }

  lemma ListGrow(c: Code, c': Code, head: int, ls: seq<int>)
    requires IsList(c, head, ls) && c <= c'
    ensures IsList(c', head, ls)
  {
    ListStable(c, c', head, ls);
  }

  lemma MergedExits(h: Host, K: seq<Value>, c: Code, lt: int, g: Seg, tl: seq<int>, fl: seq<int>, k: Kind, reg: Reg,
                    x: Expr, need: bool, cm: Code, c1: Code, c2: Code)
    requires Sem(h, K, c, |c|, lt, g, Members(tl), Members(fl), Holding(k), x, reg) && reg != NO_REG
    requires k == VNonReloc(reg) || (k.VJmp? && k.pc in tl && 0 < k.pc <= |c| && c[k.pc - 1].Branch?)
    requires need <==> NeedsValue(c, tl) || NeedsValue(c, fl)
    requires cm == c + BoolSeq(reg, k.VJmp?, need)
    requires Patched(cm, c1, Members(fl), |cm|, reg, PosFalse(need, |cm|))
    requires Patched(c1, c2, Members(tl), |cm|, reg, PosTrue(need, |cm|))
    ensures Sem(h, K, c2, |c2|, |c2|, g, {}, {}, Holding(VNonReloc(reg)), x, reg)
    ensures Before(c, c2, g, -1)
  {
    var T, F := Members(tl), Members(fl);
    assert forall j :: j in T + F <==> j in tl || j in fl;
    FinalCode(c, g.s, T, F, reg, k.VJmp?, need, cm, c1, c2);
    Settled(h, K, c, lt, g, T, F, k, reg, x, c2, need);
  }

  /** Whole code does not end in a test. */
  lemma EndsPlain(c: Code, lt: int, g: Seg, tl: seq<int>, fl: seq<int>)
    requires Frame(c, |c|, lt, g, Members(tl), Members(fl)) && (tl != [] || fl != [])
    ensures |c| > 0 && !c[|c| - 1].TestSet?
  {
    var P := Members(tl) + Members(fl);
    var j := if tl != [] then tl[0] else fl[0];
    assert j in P;
    assert Neat(c, P, |c|, lt, |c| - 1);
  }

  lemma SkipPatched(c: Code, c0: Code, c': Code, reg: Reg, jump: bool)
    requires |c| > 0 && !c[|c| - 1].TestSet?
    requires c0 == c + (if jump then [] else [Jmp(NO_JUMP)]) + [LFalseSkip(reg)] + [LoadTrue(reg)]
    requires Patched(c0, c', Members(if jump then [] else [|c| as int]), |c0|, NO_REG, |c0|)
    ensures c' == c + (if jump then [LFalseSkip(reg), LoadTrue(reg)] else [Jmp(2), LFalseSkip(reg), LoadTrue(reg)])
  {
    var S := Members(if jump then [] else [|c| as int]);
    assert S == if jump then {} else {|c| as int};
    forall i | 0 <= i < |c0|
      ensures c'[i] == (c + (if jump then [LFalseSkip(reg), LoadTrue(reg)]
                             else [Jmp(2), LFalseSkip(reg), LoadTrue(reg)]))[i]
    {
      assert c0[i] == c0[i];
      if i == |c| && !jump { assert c0[i - 1] == c[|c| - 1]; }
      if i == |c| - 1 { assert c0[i] == c[i]; }
    }
  }

  /** Patching one list leaves another alone. */
  lemma ListApart(c: Code, c': Code, head: int, ls: seq<int>, S: set<int>, vt: int, reg: Reg, dt: int)
    requires IsList(c, head, ls) && Patched(c, c', S, vt, reg, dt) && Members(ls) !! S
    ensures IsList(c', head, ls)
  {
    forall j | j in ls ensures j < |c'| && c'[j] == c[j] {
      assert j in Members(ls);
    }
    ListStable(c, c', head, ls);
  }

  lemma JumpIsList(h: Host, K: seq<Value>, c: Code, lt: int, g: Seg, d: ExpDesc, tl: seq<int>, fl: seq<int>, x: Expr)
    requires Den(h, K, c, lt, g, d, tl, fl, x, -1) && d.k.VJmp?
    ensures IsList(c, d.k.pc, [d.k.pc]) && Members([d.k.pc as int]) == {d.k.pc as int}
    ensures Members(tl) !! Members([d.k.pc as int]) && Members(fl) !! Members([d.k.pc as int])
  {
    assert LinksAt(c, [d.k.pc as int], 0);
  }

  /** The jump of a comparison joins the list of true exits. */
  lemma JumpJoined(h: Host, K: seq<Value>, c: Code, lt: int, g: Seg, d: ExpDesc, tl: seq<int>, fl: seq<int>, x: Expr,
                   c': Code, reg: Reg)
    requires Den(h, K, c, lt, g, d, tl, fl, x, -1) && d.k.VJmp?
    requires Relinked(c, c', Members(tl))
    ensures Sem(h, K, c', |c'|, lt, g, TrueExits(d, tl), Members(fl), Holding(d.k), x, reg)
    ensures Before(c, c', g, -1) && IsList(c', d.f, fl)
    ensures 0 < d.k.pc <= |c'| && c'[d.k.pc - 1].Branch?
  {
    var T, F := TrueExits(d, tl), Members(fl);
    assert Relinked(c, c', T + F);
    RelinkSem(h, K, c, |c|, lt, g, T, F, Holding(d.k), x, -1, c');
    AddException(h, K, c', |c'|, lt, g, T, F, Holding(d.k), x, reg);
    forall j | j in fl ensures j < |c'| && c'[j] == c[j] {
      assert j in F && j !in T;
    }
    ListStable(c, c', d.f, fl);
    assert Before(c, c', g, -1) by {
      forall i | 0 <= i < g.s ensures c'[i] == c[i] {
        assert i in Members(tl) ==> i in T + F;
      }
    }
    assert c'[d.k.pc - 1] == c[d.k.pc - 1];
  }

  function At(ls: seq<int>, i: nat): int {
    if i < |ls| then ls[i] else NO_JUMP
  }

  /** Following the links visits the elements in order and stops after the last. */
  lemma ListAt(c: Code, head: int, ls: seq<int>, i: nat)
    requires IsList(c, head, ls)
    ensures head == At(ls, 0)
    ensures At(ls, i) == NO_JUMP <==> i >= |ls|
    ensures i < |ls| ==> 0 <= ls[i] < |c| && c[ls[i]].Jmp? && GetJump(c, ls[i]) == At(ls, i + 1)
  {
    if i < |ls| {
      assert ls[i] in ls && LinksAt(c, ls, i);
    }
  }

  lemma ConcatIsList(c: Code, l1: int, l2: int, a: seq<int>, b: seq<int>, c': Code)
    requires IsList(c, l1, a) && IsList(c, l2, b) && Members(a) !! Members(b) && a != [] && b != []
    requires 0 <= a[|a| - 1] < |c| && c' == c[a[|a| - 1] := Jmp(b[0] - (a[|a| - 1] + 1))]
    ensures IsList(c', l1, a + b)
  {
    var ls, last := a + b, a[|a| - 1];
    assert last in a && last in Members(a) && b[0] in b && b[0] in Members(b);
    assert Distinct(ls) by {
      forall i, j | 0 <= i < j < |ls| ensures ls[i] != ls[j] {
        if i < |a| <= j {
          assert ls[i] in Members(a) && ls[j] in Members(b);
        }
      }
    }
    forall j | j in ls ensures 0 <= j < |c'| && c'[j].Jmp? { assert j in a || j in b; }
    forall i | 0 <= i < |ls| ensures LinksAt(c', ls, i) {
      if i < |a| {
        assert LinksAt(c, a, i) && a[i] in a;
      } else {
        assert LinksAt(c, b, i - |a|) && b[i - |a|] in Members(b);
      }
    }
  }

  lemma MembersNext(ls: seq<int>, i: nat)
    requires i < |ls| && Distinct(ls)
    ensures Members(ls[..i + 1]) == Members(ls[..i]) + {ls[i]} && ls[i] !in Members(ls[..i])
    ensures forall j :: j in Members(ls[..i]) ==> j in ls
  {
    assert forall j :: j in ls[..i + 1] <==> j in ls[..i] || j == ls[i];
  }

  /** The next member to patch is still as it was. */
  lemma PatchStep(c: Code, c': Code, head: int, ls: seq<int>, i: nat, vt: int, reg: Reg, dt: int)
    requires i < |ls| && IsList(c, head, ls)
    requires Patched(c, c', Members(ls[..i]), vt, reg, dt)
    ensures 0 <= ls[i] < |c'| && c'[ls[i]] == c[ls[i]] && c'[ls[i]].Jmp? && GetJump(c', ls[i]) == At(ls, i + 1)
    ensures 1 <= ls[i] ==> c'[ls[i] - 1].TestSet? == c[ls[i] - 1].TestSet?
    ensures 1 <= ls[i] && c[ls[i] - 1].TestSet? ==> c'[ls[i] - 1] == c[ls[i] - 1]
  {
    ListAt(c, head, ls, i);
    MembersNext(ls, i);
  }

  lemma PatchDone(c: Code, c1: Code, c': Code, head: int, ls: seq<int>, i: nat, vt: int, reg: Reg, dt: int)
    requires i < |ls| && IsList(c, head, ls)
    requires Patched(c, c1, Members(ls[..i]), vt, reg, dt) && 0 <= ls[i] < |c|
    requires var p := ls[i];
             if 1 <= p && c1[p - 1].TestSet?
             then c' == c1[p - 1 := Retarget(c1[p - 1], reg)][p := Jmp(vt - (p + 1))]
             else c' == c1[p := Jmp(dt - (p + 1))]
    ensures Patched(c, c', Members(ls[..i + 1]), vt, reg, dt)
  {
    PatchStep(c, c1, head, ls, i, vt, reg, dt);
    MembersNext(ls, i);
    PatchedMore(c, c1, c', Members(ls[..i]), ls[i], vt, reg, dt);
  }

  /** One more jump is patched. */
  lemma PatchedMore(c: Code, c1: Code, c': Code, S: set<int>, p: int, vt: int, reg: Reg, dt: int)
    requires Patched(c, c1, S, vt, reg, dt) && 0 <= p < |c| && p !in S && c1[p] == c[p] && c[p].Jmp?
    requires 1 <= p ==> c1[p - 1].TestSet? == c[p - 1].TestSet?
    requires 1 <= p && c[p - 1].TestSet? ==> c1[p - 1] == c[p - 1]
    requires if 1 <= p && c1[p - 1].TestSet?
             then c' == c1[p - 1 := Retarget(c1[p - 1], reg)][p := Jmp(vt - (p + 1))]
             else c' == c1[p := Jmp(dt - (p + 1))]
    ensures Patched(c, c', S + {p}, vt, reg, dt)
  {
    forall m | 0 <= m < |c|
      ensures c'[m] == if m in S + {p} then Jmp((if m > 0 && c[m - 1].TestSet? then vt else dt) - (m + 1))
                       else if m + 1 in S + {p} && c[m].TestSet? then Retarget(c[m], reg)
                       else c[m]
    {
      assert c1[m] == c1[m];
    }
  }

  lemma UnvalueStep(c: Code, c': Code, head: int, ls: seq<int>, i: nat)
    requires i < |ls| && IsList(c, head, ls)
    requires Unvalued(c, c', Members(ls[..i]))
    ensures 0 <= ls[i] < |c'| && c'[ls[i]] == c[ls[i]] && c'[ls[i]].Jmp? && GetJump(c', ls[i]) == At(ls, i + 1)
    ensures 1 <= ls[i] ==> c'[ls[i] - 1] == c[ls[i] - 1]
    ensures Members(ls[..i + 1]) == Members(ls[..i]) + {ls[i]}
  {
    ListAt(c, head, ls, i);
    MembersNext(ls, i);
  }

  class FuncState {
    ghost const host: Host
    const nactvar: nat
    var code: Code
    var K: seq<Value>
    var kcache: map<Value, nat>
    var lasttarget: int
    var freereg: nat
    var maxstack: nat

    constructor (ghost h: Host, nvar: nat)
      requires nvar < MAX_REGISTERS
      ensures Valid() && host == h && nactvar == nvar && freereg == nvar
      ensures code == [] && K == [] && lasttarget == 0
    {
      host, nactvar := h, nvar;
      code, K, kcache, lasttarget := [], [], map[], 0;
      freereg, maxstack := nvar, if nvar < 2 then 2 else nvar;
    }

    ghost predicate Valid()
      reads this
    {
      0 <= lasttarget <= |code| && nactvar <= freereg <= maxstack < MAX_REGISTERS
    }

    /** The state in which compilation gives up: no register, constant index or jump offset is left. */
    predicate AtLimit()
      reads this
    {
      freereg + 1 >= MAX_REGISTERS || |K| >= MAX_ARG_AX || |code| >= OFFSET_SJ
    }

    /** d, coded from g on, is what the generator has for x. (Comparing with true keeps the
        verifier from taking the conjunction apart wherever it is only passed on.) */
    ghost predicate Has(g: Seg, d: ExpDesc, tl: seq<int>, fl: seq<int>, x: Expr)
      reads this
    {
      (&& Valid() && nactvar <= g.fr < MAX_REGISTERS
      && Den(host, K, code, lasttarget, g, d, tl, fl, x, -1)
      && Owns(d, nactvar, g.fr, freereg)) == true
    }

    // -------------------------------------------------------------------------------------------
    // Emission, registers, constants

    method Emit(i: Instr) returns (pc: nat)
      modifies this`code
      ensures code == old(code) + [i] && pc == |old(code)|
    {
      code := code + [i];
      pc := |code| - 1;
    }

    method GetLabel() returns (pc: nat)
      modifies this`lasttarget
      ensures lasttarget == pc == |code|
    {
      lasttarget := |code|;
      pc := |code|;
    }

    method ReserveRegs(n: nat) returns (st: Status)
      requires Valid()
      modifies this`freereg, this`maxstack
      ensures st.Failed? && n == 1 ==> AtLimit()
      ensures st.Ok? ==> Valid() && freereg == old(freereg) + n
      ensures st.Ok? <==> old(freereg) + n <= old(maxstack) || old(freereg) + n < MAX_REGISTERS
    {
      var newstack := freereg + n;
      if newstack > maxstack {
        if newstack >= MAX_REGISTERS {
          return Failed("function or expression needs too many registers");
        }
        maxstack := newstack;
      }
      freereg := freereg + n;
      return Ok;
    }

    method FreeReg(reg: int)
      requires reg >= nactvar ==> reg + 1 == freereg
      modifies this`freereg
      ensures freereg == if reg >= nactvar then old(freereg) - 1 else old(freereg)
    {
      if reg >= nactvar {
        freereg := freereg - 1;
      }
    }

    method FreeExp(d: ExpDesc)
      requires d.k.VNonReloc? && d.k.reg >= nactvar ==> d.k.reg + 1 == freereg
      modifies this`freereg
      ensures freereg == if d.k.VNonReloc? && d.k.reg >= nactvar then old(freereg) - 1 else old(freereg)
    {
      if d.k.VNonReloc? {
        FreeReg(d.k.reg);
      }
    }

    /** Frees the registers of two operands, the higher one first. */
    method FreeExps(d1: ExpDesc, d2: ExpDesc, ghost fr: nat)
      requires var r1 := if d1.k.VNonReloc? then d1.k.reg as int else -1;
               var r2 := if d2.k.VNonReloc? then d2.k.reg as int else -1;
               && (if r1 < nactvar && r2 < nactvar then freereg == fr
                   else if r1 < nactvar then r2 == fr && freereg == fr + 1
                   else if r2 < nactvar then r1 == fr && freereg == fr + 1
                   else (r1, r2) in {(fr as int, fr + 1), (fr + 1, fr as int)} && freereg == fr + 2)
      modifies this`freereg
      ensures freereg == fr
    {
      var r1: int, r2: int := -1, -1;
      if d1.k.VNonReloc? { r1 := d1.k.reg; }
      if d2.k.VNonReloc? { r2 := d2.k.reg; }
      if r1 > r2 {
        FreeReg(r1);
        FreeReg(r2);
      } else {
        FreeReg(r2);
        FreeReg(r1);
      }
    }

    /** A constant slot holding v: the cached one when it is still valid, else a new one. */
    method AddK(v: Value) returns (st: Status, idx: nat)
      modifies this`K, this`kcache
      ensures st.Failed? ==> AtLimit()
      ensures st.Ok? ==> old(K) <= K
      ensures st.Ok? ==> idx < |K| && K[idx] == v
    {
      idx := 0;
      if v in kcache && kcache[v] < |K| && K[kcache[v]] == v {
        return Ok, kcache[v];
      }
      if |K| >= MAX_ARG_AX {
        return Failed("too many constants"), 0;
      }
      idx := |K|;
      K := K + [v];
      kcache := kcache[v := idx];
      st := Ok;
    }

    method CodeK(reg: Reg, k: nat)
      modifies this`code
      ensures code == old(code) + (if k <= MAX_ARG_BX then [LoadK(reg, k)] else [LoadKX(reg), ExtraArg(k)])
    {
      if k <= MAX_ARG_BX {
        var _ := Emit(LoadK(reg, k));
      } else {
        var _ := Emit(LoadKX(reg));
        var _ := Emit(ExtraArg(k));
      }
    }

    /** LOADNIL for n registers, merged into a LOADNIL just emitted when the ranges connect. */
    method LoadNils(from: Reg, n: nat)
      requires n >= 1
      modifies this`code
      ensures || code == old(code) + [LoadNil(from, n - 1)]
              || (&& 0 < |old(code)| && lasttarget < |old(code)| == |code|
                  && code[..|code| - 1] == old(code)[..|code| - 1]
                  && old(code)[|code| - 1].LoadNil? && code[|code| - 1].LoadNil?
                  && forall q {:trigger Clears(code[|code| - 1], q)} ::
                       Clears(code[|code| - 1], q) <==>
                       Clears(old(code)[|code| - 1], q) || Clears(LoadNil(from, n - 1), q))
    {
      var l := from + n - 1;
      if 0 < |code| && |code| > lasttarget && code[|code| - 1].LoadNil? {
        var prev := code[|code| - 1];
        var pl := prev.a + prev.n;
        if (prev.a <= from && from <= pl + 1) || (from <= prev.a && prev.a <= l + 1) {
          var lo: Reg := if prev.a < from then prev.a else from;
          var hi := if pl > l then pl else l;
          code := code[|code| - 1 := LoadNil(lo, hi - lo)];
          return;
        }
      }
      var _ := Emit(LoadNil(from, n - 1));
    }

    // -------------------------------------------------------------------------------------------
    // Jump lists

    method FixJump(pc: nat, dest: int) returns (st: Status)
      requires pc < |code| && code[pc].Jmp? && -1 <= dest <= |code|
      modifies this`code
      ensures st.Failed? ==> AtLimit()
      ensures st.Ok? ==> code == old(code)[pc := Jmp(dest - (pc + 1))]
      ensures st.Ok? <==> -OFFSET_SJ <= dest - (pc + 1) <= MAX_ARG_AX - OFFSET_SJ
    {
      var offset := dest - (pc + 1);
      if !(-OFFSET_SJ <= offset <= MAX_ARG_AX - OFFSET_SJ) {
        return Failed("control structure too long");
      }
      code := code[pc := Jmp(offset)];
      return Ok;
    }

    /** luaK_concat: exactly the elements of both lists, and one link changed. */
    method Concat(l1: int, l2: int, ghost a: seq<int>, ghost b: seq<int>) returns (st: Status, l: int)
      requires IsList(code, l1, a) && IsList(code, l2, b) && Members(a) !! Members(b)
      modifies this`code
      ensures st.Failed? ==> AtLimit()
      ensures st.Ok? ==> IsList(code, l, a + b) && Relinked(old(code), code, Members(a))
      ensures st.Ok? ==> (l != NO_JUMP <==> l1 != NO_JUMP || l2 != NO_JUMP)
      ensures st.Ok? && (a == [] || b == []) ==> code == old(code)
      ensures st.Ok? && a != [] && b != [] ==>
                && 0 <= a[|a| - 1] < |old(code)|
                && code == old(code)[a[|a| - 1] := Jmp(b[0] - (a[|a| - 1] + 1))]
    {
      l := l1;
      ListAt(code, l1, a, 0);
      ListAt(code, l2, b, 0);
      if l2 == NO_JUMP {
        assert a + b == a;
        return Ok, l1;
      }
      if l1 == NO_JUMP {
        assert a + b == b;
        return Ok, l2;
      }
      var list := l1;
      ghost var i := 0;
      var next := GetJump(code, list);
      ListAt(code, l1, a, 1);
      while next != NO_JUMP
        invariant 0 <= i < |a| && list == a[i] && 0 <= list < |code| && code[list].Jmp?
        invariant next == GetJump(code, list) == At(a, i + 1) && (next == NO_JUMP <==> i + 1 == |a|)
        invariant code == old(code)
        decreases |a| - i
      {
        i := i + 1;
        list := next;
        ListAt(code, l1, a, i);
        ListAt(code, l1, a, i + 1);
        next := GetJump(code, list);
      }
      st := FixJump(list, l2);
      if st.Ok? {
        ConcatIsList(old(code), l1, l2, a, b, code);
      }
    }

    /** One round of patchlistaux: the jump, and the TESTSET before it if there is one. */
    method PatchOne(p: nat, vtarget: int, reg: Reg, dtarget: int) returns (st: Status, next: int)
      requires p < |code| && code[p].Jmp? && -1 <= vtarget <= |code| && -1 <= dtarget <= |code|
      modifies this`code
      ensures st.Failed? ==> AtLimit()
      ensures st.Ok? ==> next == GetJump(old(code), p)
      ensures st.Ok? ==>
                code == if 1 <= p && old(code)[p - 1].TestSet?
                        then old(code)[p - 1 := Retarget(old(code)[p - 1], reg)][p := Jmp(vtarget - (p + 1))]
                        else old(code)[p := Jmp(dtarget - (p + 1))]
    {
      next := GetJump(code, p);
      var valued := 1 <= p && code[p - 1].TestSet?;
      if valued {
        code := code[p - 1 := Retarget(code[p - 1], reg)];
      }
      st := FixJump(p, if valued then vtarget else dtarget);
    }

    /** The same, as a step along the list. */
    method PatchNext(p: int, vtarget: int, reg: Reg, dtarget: int, ghost c: Code, ghost list: int, ghost ls: seq<int>,
                     ghost i: nat) returns (st: Status, next: int)
      requires i < |ls| && IsList(c, list, ls) && p == At(ls, i)
      requires Patched(c, code, Members(ls[..i]), vtarget, reg, dtarget)
      requires -1 <= vtarget <= |code| && -1 <= dtarget <= |code|
      modifies this`code
      ensures st.Failed? ==> AtLimit()
      ensures st.Ok? ==> next == At(ls, i + 1) && (next == NO_JUMP <==> i + 1 == |ls|)
      ensures st.Ok? ==> Patched(c, code, Members(ls[..i + 1]), vtarget, reg, dtarget)
    {
      PatchStep(c, code, list, ls, i, vtarget, reg, dtarget);
      ListAt(c, list, ls, i);
      next :- PatchOne(p, vtarget, reg, dtarget);
      PatchDone(c, old(code), code, list, ls, i, vtarget, reg, dtarget);
      ListAt(c, list, ls, i + 1);
      st := Ok;
    }

    /** patchlistaux: every member of the list is retargeted, and nothing else changes. */
    method PatchListAux(list: int, vtarget: int, reg: Reg, dtarget: int, ghost ls: seq<int>) returns (st: Status)
      requires IsList(code, list, ls) && -1 <= vtarget <= |code| && -1 <= dtarget <= |code|
      modifies this`code
      ensures st.Failed? ==> AtLimit()
      ensures st.Ok? ==> Patched(old(code), code, Members(ls), vtarget, reg, dtarget)
    {
      var p := list;
      ghost var i := 0;
      ghost var c := code;
      ListAt(c, list, ls, 0);
      assert Members(ls[..0]) == {};
      while p != NO_JUMP
        invariant 0 <= i <= |ls| && p == At(ls, i) && (p == NO_JUMP <==> i == |ls|)
        invariant Patched(c, code, Members(ls[..i]), vtarget, reg, dtarget)
        decreases |ls| - i
      {
        p :- PatchNext(p, vtarget, reg, dtarget, c, list, ls, i);
        i := i + 1;
      }
      assert ls[..i] == ls;
      st := Ok;
    }

    method PatchToHere(list: int, ghost ls: seq<int>) returns (st: Status)
      requires IsList(code, list, ls)
      modifies this`code, this`lasttarget
      ensures st.Failed? ==> AtLimit()
      ensures st.Ok? ==> Patched(old(code), code, Members(ls), |code|, NO_REG, |code|) && lasttarget == |code|
    {
      var here := GetLabel();
      st := PatchListAux(list, here, NO_REG, here, ls);
    }

    method RemoveValues(list: int, ghost ls: seq<int>)
      requires IsList(code, list, ls)
      modifies this`code
      ensures Unvalued(old(code), code, Members(ls))
    {
      var p := list;
      ghost var i := 0;
      ghost var c := code;
      ListAt(c, list, ls, 0);
      assert Members(ls[..0]) == {};
      while p != NO_JUMP
        invariant 0 <= i <= |ls| && p == At(ls, i) && (p == NO_JUMP <==> i == |ls|)
        invariant Unvalued(c, code, Members(ls[..i]))
        decreases |ls| - i
      {
        UnvalueStep(c, code, list, ls, i);
        if 1 <= p && code[p - 1].TestSet? {
          code := code[p - 1 := Retarget(code[p - 1], NO_REG)];
        }
        ListAt(c, list, ls, i + 1);
        p := GetJump(code, p);
        i := i + 1;
      }
      assert ls[..i] == ls;
    }

    method NeedValue(list: int, ghost ls: seq<int>) returns (need: bool)
      requires IsList(code, list, ls)
      ensures need <==> NeedsValue(code, ls)
    {
      var p := list;
      ghost var i := 0;
      ListAt(code, list, ls, 0);
      while p != NO_JUMP
        invariant 0 <= i <= |ls| && p == At(ls, i) && (p == NO_JUMP <==> i == |ls|)
        invariant p == NO_JUMP || (0 <= p < |code| && code[p].Jmp?)
        invariant forall m :: 0 <= m < i ==> 1 <= ls[m] <= |code| && code[ls[m] - 1].TestSet?
        decreases |ls| - i
      {
        ListAt(code, list, ls, i);
        ListAt(code, list, ls, i + 1);
        if !(1 <= p && code[p - 1].TestSet?) {
          assert p in ls;
          return true;
        }
        p := GetJump(code, p);
        i := i + 1;
      }
      forall j | j in ls ensures 1 <= j <= |code| && code[j - 1].TestSet? {
        var m :| 0 <= m < |ls| && ls[m] == j;
      }
      return false;
    }

    // -------------------------------------------------------------------------------------------
    // Landing an expression in a register

    /** The load instruction for a constant or for a register. */
    method LoadValue(k: Kind, reg: Reg) returns (st: Status)
      requires (IsConstKind(k) && !k.VNil?) || k.VNonReloc?
      requires k.VK? ==> k.kx < |K|
      modifies this`code, this`K, this`kcache
      ensures st.Failed? ==> AtLimit()
      ensures st.Ok? ==> old(K) <= K
      ensures st.Ok? ==> |old(code)| <= |code| && code == old(code) + code[|old(code)|..]
      ensures st.Ok? ==> LoadSeq(K, k, reg, code[|old(code)|..])
    {
      match k {
        case VTrue =>
          var _ := Emit(LoadTrue(reg));
        case VFalse =>
          var _ := Emit(LoadFalse(reg));
        case VKStr(t) =>
          var idx :- AddK(Str(t));
          CodeK(reg, idx);
        case VK(kx) =>
          CodeK(reg, kx);
        case VKFlt(f) =>
          var i := ExactInt(f);
          if i.Some? && FitsBx(i.value) {
            var _ := Emit(LoadF(reg, i.value));
          } else {
            var idx :- AddK(Flt(f));
            CodeK(reg, idx);
          }
        case VKInt(i) =>
          if FitsBx(i) {
            var _ := Emit(LoadI(reg, i));
          } else {
            var idx :- AddK(Int(i));
            CodeK(reg, idx);
          }
        case VNonReloc(q) =>
          if reg != q {
            var _ := Emit(Move(reg, q));
          }
      }
      st := Ok;
    }

    /** discharge2reg: everything but the pending exits ends up in reg. */
    method Discharge2Reg(d0: ExpDesc, reg: Reg, ghost g: Seg, ghost tl: seq<int>, ghost fl: seq<int>, ghost x: Expr)
      returns (st: Status, d: ExpDesc)
      requires Den(host, K, code, lasttarget, g, d0, tl, fl, x, -1) && g.fr <= 256
      modifies this`code, this`K, this`kcache
      ensures st.Failed? ==> AtLimit()
      ensures st.Ok? ==> old(K) <= K
      ensures st.Ok? ==> Before(old(code), code, g, Edge(d0.k, |old(code)|, g, reg)) && lasttarget <= |code|
      ensures st.Ok? && d0.k.VJmp? ==> d == d0 && code == old(code) && K == old(K)
      ensures st.Ok? && !d0.k.VJmp? ==>
                && d == Discharged(d0).(k := VNonReloc(reg))
                && Den(host, K, code, lasttarget, g, d, tl, fl, x, reg)
    {
      d := Discharged(d0);
      DischargedDen(host, K, code, lasttarget, g, d0, tl, fl, x, -1);
      ghost var c, K0 := code, K;
      if d.k.VJmp? {
        return Ok, d;
      } else if d.k.VReloc? {
        Placed(host, K, code, lasttarget, g, d, tl, fl, x, reg);
        code := code[d.k.pc := NotOp(reg, code[d.k.pc].b)];
      } else if d.k.VNil? {
        LoadNils(reg, 1);
        if |code| == |c| {
          Widened(host, K, c, lasttarget, g, d, tl, fl, x, code, reg);
        } else {
          Loaded(host, K, c, lasttarget, g, d, tl, fl, x, K, [LoadNil(reg, 0)], reg);
        }
      } else {
        :- LoadValue(d.k, reg);
        Loaded(host, K0, c, lasttarget, g, d, tl, fl, x, K, code[|c|..], reg);
      }
      d := d.(k := VNonReloc(reg));
      st := Ok;
    }

    /** The pair of boolean loads that exits without a value jump to, stepped over by the value itself. */
    method BoolLoads(reg: Reg, jump: bool, need: bool) returns (st: Status, pf: int, pt: int)
      requires need ==> |code| > 0 && !code[|code| - 1].TestSet?
      modifies this`code, this`lasttarget
      ensures st.Failed? ==> AtLimit()
      ensures st.Ok? ==> code == old(code) + BoolSeq(reg, jump, need)
      ensures st.Ok? ==> pf == PosFalse(need, |code|) && pt == PosTrue(need, |code|)
    {
      pf, pt := NO_JUMP, NO_JUMP;
      if !need {
        return Ok, pf, pt;
      }
      ghost var c := code;
      var fj := NO_JUMP;
      if !jump {
        fj := Emit(Jmp(NO_JUMP));
      }
      var _ := GetLabel();
      pf := Emit(LFalseSkip(reg));
      var _ := GetLabel();
      pt := Emit(LoadTrue(reg));
      ghost var only := if jump then [] else [fj];
      assert IsList(code, fj, only) by {
        if !jump { assert LinksAt(code, only, 0); }
      }
      ghost var c0 := code;
      :- PatchToHere(fj, only);
      SkipPatched(c, c0, code, reg, jump);
      st := Ok;
    }

    /** Both lists are patched to the current pc, or to the load that their members need. */
    method PatchBoth(t: int, f: int, reg: Reg, pf: int, pt: int, ghost tl: seq<int>, ghost fl: seq<int>)
      returns (st: Status, ghost c1: Code)
      requires IsList(code, t, tl) && IsList(code, f, fl) && Members(tl) !! Members(fl)
      requires -1 <= pf <= |code| && -1 <= pt <= |code|
      modifies this`code, this`lasttarget
      ensures st.Failed? ==> AtLimit()
      ensures st.Ok? ==>
              Patched(old(code), c1, Members(fl), |code|, reg, pf)
              && Patched(c1, code, Members(tl), |code|, reg, pt)
      ensures st.Ok? ==> |code| == |old(code)| && lasttarget == |code|
    {
      ghost var cm := code;
      c1 := code;
      var final := GetLabel();
      :- PatchListAux(f, final, reg, pf, fl);
      c1 := code;
      ListApart(cm, c1, t, tl, Members(fl), final, reg, pf);
      :- PatchListAux(t, final, reg, pt, tl);
      st := Ok;
    }

    /** The tail of exp2reg: the exits of both lists join the fall-through, each with its value in reg. */
    method MergeExits(t: int, f: int, reg: Reg, jump: bool,
                      ghost g: Seg, ghost tl: seq<int>, ghost fl: seq<int>, ghost k: Kind, ghost x: Expr)
      returns (st: Status)
      requires Sem(host, K, code, |code|, lasttarget, g, Members(tl), Members(fl), Holding(k), x, reg)
      requires (k == VNonReloc(reg) && !jump) || (k.VJmp? && jump && k.pc in tl && 0 < k.pc <= |code|
                                                  && code[k.pc - 1].Branch?)
      requires IsList(code, t, tl) && IsList(code, f, fl) && (tl != [] || fl != []) && reg != NO_REG
      modifies this`code, this`lasttarget
      ensures st.Failed? ==> AtLimit()
      ensures st.Ok? ==> Sem(host, K, code, |code|, lasttarget, g, {}, {}, Holding(VNonReloc(reg)), x, reg)
      ensures st.Ok? ==> Before(old(code), code, g, -1) && old(lasttarget) <= lasttarget == |code|
    {
      ghost var c, lt := code, lasttarget;
      var need := NeedValue(t, tl);
      if !need {
        need := NeedValue(f, fl);
      }
      EndsPlain(c, lt, g, tl, fl);
      var pf, pt :- BoolLoads(reg, jump, need);
      ghost var cm := code;
      ListGrow(c, cm, f, fl);
      ListGrow(c, cm, t, tl);
      ghost var c1;
      c1 :- PatchBoth(t, f, reg, pf, pt, tl, fl);
      MergedExits(host, K, c, lt, g, tl, fl, k, reg, x, need, cm, c1, code);
      st := Ok;
    }

    /** exp2reg: the full value of the expression, exits included, ends up in reg. */
    method Exp2Reg(d0: ExpDesc, reg: Reg, ghost g: Seg, ghost tl: seq<int>, ghost fl: seq<int>, ghost x: Expr)
      returns (st: Status, d: ExpDesc)
      requires Den(host, K, code, lasttarget, g, d0, tl, fl, x, -1) && g.fr <= 256 && reg != NO_REG
      modifies this`code, this`K, this`kcache, this`lasttarget
      ensures st.Failed? ==> AtLimit()
      ensures st.Ok? ==> old(K) <= K
      ensures st.Ok? ==> d == ExpDesc(VNonReloc(reg), NO_JUMP, NO_JUMP)
      ensures st.Ok? ==> Den(host, K, code, lasttarget, g, d, [], [], x, reg)
      ensures st.Ok? ==>
              Before(old(code), code, g, Edge(d0.k, |old(code)|, g, reg))
              && old(lasttarget) <= lasttarget <= |code|
    {
      d :- Discharge2Reg(d0, reg, g, tl, fl, x);
      ghost var ex := Edge(d0.k, |old(code)|, g, reg);
      ghost var tl', fl' := tl, fl;
      var t;
      ghost var cd := code;
      t, tl' :- JoinJump(d, reg, g, tl, fl, x);
      ghost var cj := code;
      BeforeOn(old(code), cd, cj, g, ex);
      NoJumpsNoLists(code, ExpDesc(d.k, t, d.f), tl', fl);
      if t != d.f {
        :- MergeExits(t, d.f, reg, d.k.VJmp?, g, tl', fl, d.k, x);
        BeforeOn(old(code), cj, code, g, ex);
        tl', fl' := [], [];
      }
      AtRest(host, K, code, lasttarget, g, tl', fl', reg, x);
      d := ExpDesc(VNonReloc(reg), NO_JUMP, NO_JUMP);
      st := Ok;
    }

    /** The jump of a comparison is put in the list of true exits. */
    method JoinJump(d: ExpDesc, reg: Reg, ghost g: Seg, ghost tl: seq<int>, ghost fl: seq<int>, ghost x: Expr)
      returns (st: Status, t: int, ghost tl': seq<int>)
      requires Den(host, K, code, lasttarget, g, d, tl, fl, x, if d.k.VJmp? then -1 else reg)
      requires d.k.VJmp? || d.k == VNonReloc(reg)
      modifies this`code
      ensures st.Failed? ==> AtLimit()
      ensures st.Ok? ==> Sem(host, K, code, |code|, lasttarget, g, Members(tl'), Members(fl), Holding(d.k), x, reg)
      ensures st.Ok? ==> IsList(code, t, tl') && IsList(code, d.f, fl) && Members(tl') !! Members(fl)
      ensures st.Ok? && d.k.VJmp? ==> d.k.pc in tl' && 0 < d.k.pc <= |code| && code[d.k.pc - 1].Branch?
      ensures st.Ok? ==> Before(old(code), code, g, -1) && |code| == |old(code)|
    {
      t, tl' := d.t, tl;
      if d.k.VJmp? {
        ghost var c := code;
        JumpIsList(host, K, c, lasttarget, g, d, tl, fl, x);
        t :- Concat(t, d.k.pc, tl, [d.k.pc]);
        tl' := tl + [d.k.pc];
        JumpJoined(host, K, c, lasttarget, g, d, tl, fl, x, code, reg);
      }
      assert Members(tl') == TrueExits(d, tl) by {
        assert forall j :: j in tl' <==> j in tl || (d.k.VJmp? && j == d.k.pc);
      }
      st := Ok;
    }

    /** discharge2anyreg: the value is in some register, the exits still pending. */
    method Discharge2AnyReg(d0: ExpDesc, ghost g: Seg, ghost tl: seq<int>, ghost fl: seq<int>, ghost x: Expr)
      returns (st: Status, d: ExpDesc)
      requires Has(g, d0, tl, fl, x) && !d0.k.VJmp? && !d0.k.VLocal?
      modifies this`code, this`K, this`kcache, this`freereg, this`maxstack
      ensures st.Failed? ==> AtLimit()
      ensures st.Ok? ==> old(K) <= K
      ensures st.Ok? ==> Has(g, d, tl, fl, x) && d.k.VNonReloc? && d.t == d0.t && d.f == d0.f
      ensures st.Ok? ==> Before(old(code), code, g, -1)
    {
      d := d0;
      if !d.k.VNonReloc? {
        :- ReserveRegs(1);
        d :- Discharge2Reg(d, freereg - 1, g, tl, fl, x);
        DropDen(host, K, code, lasttarget, g, d, tl, fl, x, freereg - 1);
        BeforeDrop(old(code), code, g, Edge(d0.k, |old(code)|, g, freereg - 1));
      }
      st := Ok;
    }

    /** exp2nextreg: the value is in the first free register. */
    method Exp2NextReg(d0: ExpDesc, ghost g: Seg, ghost tl: seq<int>, ghost fl: seq<int>, ghost x: Expr)
      returns (st: Status, d: ExpDesc)
      requires Has(g, d0, tl, fl, x)
      modifies this
      ensures st.Failed? ==> AtLimit()
      ensures st.Ok? ==> old(K) <= K
      ensures st.Ok? ==> d == ExpDesc(VNonReloc(g.fr), NO_JUMP, NO_JUMP) && Has(g, d, [], [], x)
      ensures st.Ok? ==> Before(old(code), code, g, -1)
    {
      d := Discharged(d0);
      DischargedDen(host, K, code, lasttarget, g, d0, tl, fl, x, -1);
      FreeExp(d);
      :- ReserveRegs(1);
      st, d := Exp2Fresh(d, g, tl, fl, x);
    }

    /** exp2reg for a register that has just been reserved. */
    method Exp2Fresh(d0: ExpDesc, ghost g: Seg, ghost tl: seq<int>, ghost fl: seq<int>, ghost x: Expr)
      returns (st: Status, d: ExpDesc)
      requires Valid() && nactvar <= g.fr < MAX_REGISTERS && freereg == g.fr + 1
      requires Den(host, K, code, lasttarget, g, d0, tl, fl, x, -1)
      modifies this
      ensures st.Failed? ==> AtLimit()
      ensures st.Ok? ==> old(K) <= K
      ensures st.Ok? ==> d == ExpDesc(VNonReloc(g.fr), NO_JUMP, NO_JUMP) && Has(g, d, [], [], x)
      ensures st.Ok? ==> Before(old(code), code, g, -1)
    {
      d :- Exp2Reg(d0, freereg - 1, g, tl, fl, x);
      Dropped(host, K, code, lasttarget, g, d, x, freereg - 1, old(code), Edge(d0.k, |old(code)|, g, freereg - 1));
      st := Ok;
    }

    /** exp2anyreg: the value, exits included, is in some register. */
    method Exp2AnyReg(d0: ExpDesc, ghost g: Seg, ghost tl: seq<int>, ghost fl: seq<int>, ghost x: Expr)
      returns (st: Status, d: ExpDesc)
      requires Valid() && (InRegister(d0) || Has(g, d0, tl, fl, x))
      modifies this
      ensures st.Failed? ==> AtLimit()
      ensures st.Ok? ==> old(K) <= K
      ensures st.Ok? && InRegister(d0) ==>
                && d == Discharged(d0) && Valid()
                && code == old(code) && K == old(K) && lasttarget == old(lasttarget) && freereg == old(freereg)
      ensures st.Ok? ==> d.k.VNonReloc? && !HasJumps(d)
      ensures st.Ok? && old(Has(g, d0, tl, fl, x)) ==> d.t == NO_JUMP && d.f == NO_JUMP && Has(g, d, [], [], x)
      ensures st.Ok? && old(Has(g, d0, tl, fl, x)) ==> Before(old(code), code, g, -1)
    {
      d := Discharged(d0);
      if Has(g, d0, tl, fl, x) {
        DischargedDen(host, K, code, lasttarget, g, d0, tl, fl, x, -1);
        NoJumpsNoLists(code, d, tl, fl);
      }
      if d.k.VNonReloc? {
        if !HasJumps(d) {
          return Ok, d;
        }
        if d.k.reg >= nactvar {
          var reg := d.k.reg;
          d :- Exp2Reg(d, reg, g, tl, fl, x);
          DropDen(host, K, code, lasttarget, g, d, [], [], x, reg);
          BeforeDrop(old(code), code, g, Edge(d0.k, |old(code)|, g, reg));
          return Ok, d;
        }
      }
      d :- Exp2NextReg(d, g, tl, fl, x);
      st := Ok;
    }

    /** exp2K: a constant that fits an operand becomes an index into the constant table. */
    method Exp2K(d0: ExpDesc) returns (st: Status, ok: bool, d: ExpDesc)
      requires d0.k.VK? ==> d0.k.kx < |K|
      modifies this`K, this`kcache
      ensures st.Failed? ==> AtLimit()
      ensures st.Ok? ==> old(K) <= K
      ensures st.Ok? && !ok ==> d == d0
      ensures st.Ok? && ok ==>
                && IsConstKind(d0.k) && !HasJumps(d0) && d.t == d0.t && d.f == d0.f
                && d.k.VK? && d.k.kx < |K| && d.k.kx <= MAX_INDEX_RK && K[d.k.kx] == ConstValue(old(K), d0.k)
    {
      d, ok := d0, false;
      if HasJumps(d0) {
        return Ok, false, d0;
      }
      var info: nat := 0;
      match d0.k {
        case VTrue => info :- AddK(True);
        case VFalse => info :- AddK(False);
        case VNil => info :- AddK(Nil);
        case VKInt(i) => info :- AddK(Int(i));
        case VKFlt(f) => info :- AddK(Flt(f));
        case VKStr(t) => info :- AddK(Str(t));
        case VK(kx) => info := kx;
        case _ => return Ok, false, d0;
      }
      if info <= MAX_INDEX_RK {
        return Ok, true, d0.(k := VK(info));
      }
      return Ok, false, d0;
    }

    // -------------------------------------------------------------------------------------------
    // Conditional code

    method CondJump(i: Instr) returns (pc: nat)
      modifies this`code
      ensures code == old(code) + [i, Jmp(NO_JUMP)] && pc == |code| - 1
    {
      var _ := Emit(i);
      pc := Emit(Jmp(NO_JUMP));
    }

    method NegateCondition(pc: nat)
      requires 1 <= pc < |code| && code[pc - 1].Branch?
      modifies this`code
      ensures code == old(code)[pc - 1 := Branch(old(code)[pc - 1].cond, !old(code)[pc - 1].k)]
    {
      code := code[pc - 1 := Branch(code[pc - 1].cond, !code[pc - 1].k)];
    }

    /** jumponcond on a NOT, which is removed. */
    method JumpOnNot(d: ExpDesc, cond: bool, ghost g: Seg, ghost tl: seq<int>, ghost fl: seq<int>, ghost x: Expr)
      returns (pc: int)
      requires Has(g, d, tl, fl, x) && d.k.VReloc?
      modifies this`code
      ensures Valid() && freereg == g.fr && Before(old(code), code, g, -1) && pc == |code| - 1
      ensures cond ==> Poised(host, K, code, lasttarget, g, d.t, tl, pc, [pc], d.f, fl, x, false)
      ensures !cond ==> Poised(host, K, code, lasttarget, g, d.f, fl, pc, [pc], d.t, tl, x, true)
    {
      ghost var c := code;
      var i := Branch(CTest(code[d.k.pc].b), !cond);
      code := code[..|code| - 1];
      pc := CondJump(i);
      JumpCoded(host, K, c, lasttarget, g, d, tl, fl, x, cond, code);
    }

    /** jumponcond on a register. */
    method JumpOnRegister(d: ExpDesc, cond: bool, ghost g: Seg, ghost tl: seq<int>, ghost fl: seq<int>, ghost x: Expr)
      returns (pc: int)
      requires Has(g, d, tl, fl, x) && d.k.VNonReloc?
      modifies this`code, this`freereg
      ensures Valid() && freereg == g.fr && Before(old(code), code, g, -1) && pc == |code| - 1
      ensures cond ==> Poised(host, K, code, lasttarget, g, d.t, tl, pc, [pc], d.f, fl, x, false)
      ensures !cond ==> Poised(host, K, code, lasttarget, g, d.f, fl, pc, [pc], d.t, tl, x, true)
    {
      ghost var c := code;
      FreeExp(d);
      pc := CondJump(TestSet(NO_REG, d.k.reg, cond));
      JumpCoded(host, K, c, lasttarget, g, d, tl, fl, x, cond, code);
    }

    /** jumponcond: a jump taken when the value is true, or when it is false. */
    method JumpOnCond(d0: ExpDesc, cond: bool, ghost g: Seg, ghost tl: seq<int>, ghost fl: seq<int>, ghost x: Expr)
      returns (st: Status, pc: int)
      requires Has(g, d0, tl, fl, x) && !d0.k.VJmp? && !d0.k.VLocal?
      modifies this`code, this`K, this`kcache, this`freereg, this`maxstack
      ensures st.Failed? ==> AtLimit()
      ensures st.Ok? ==> old(K) <= K
      ensures st.Ok? ==> Valid() && freereg == g.fr && Before(old(code), code, g, -1)
      ensures st.Ok? ==> pc == |code| - 1
      ensures st.Ok? && cond ==> Poised(host, K, code, lasttarget, g, d0.t, tl, pc, [pc], d0.f, fl, x, false)
      ensures st.Ok? && !cond ==> Poised(host, K, code, lasttarget, g, d0.f, fl, pc, [pc], d0.t, tl, x, true)
    {
      pc := NO_JUMP;
      if d0.k.VReloc? {
        pc := JumpOnNot(d0, cond, g, tl, fl, x);
        return Ok, pc;
      }
      var d :- Discharge2AnyReg(d0, g, tl, fl, x);
      ghost var c := code;
      pc := JumpOnRegister(d, cond, g, tl, fl, x);
      BeforeTrans(old(code), c, code, g, -1);
      st := Ok;
    }

    /** The rest of goiftrue and goiffalse: the new jump joins its list, the other list ends here. */
    method FinishGo(own: int, pc: int, other: int, ghost sense: bool, ghost g: Seg,
                    ghost os: seq<int>, ghost ps: seq<int>, ghost ts: seq<int>, ghost x: Expr)
      returns (st: Status, l: int)
      requires Valid() && Poised(host, K, code, lasttarget, g, own, os, pc, ps, other, ts, x, sense)
      modifies this`code, this`lasttarget
      ensures st.Failed? ==> AtLimit()
      ensures st.Ok? ==> Valid() && lasttarget == |code| && Before(old(code), code, g, -1)
      ensures st.Ok? ==> Go(host, K, code, lasttarget, g, l, os + ps, x, sense)
    {
      ghost var c, lt := code, lasttarget;
      l :- Concat(own, pc, os, ps);
      ghost var c1 := code;
      Linked(host, K, c, lt, g, own, os, pc, ps, other, ts, x, sense, c1);
      :- PatchToHere(other, ts);
      WentOn(host, K, c1, lt, g, l, os + ps, ts, x, sense, code);
      BeforeTrans(c, c1, code, g, -1);
      st := Ok;
    }

    /** goiftrue: go through if the value is true, jump otherwise. */
    method GoIfTrue(d0: ExpDesc, ghost g: Seg, ghost tl: seq<int>, ghost fl: seq<int>, ghost x: Expr)
      returns (st: Status, d: ExpDesc, ghost ls: seq<int>)
      requires Has(g, d0, tl, fl, x) && (d0.k.VK? ==> Truthy(K[d0.k.kx]))
      modifies this
      ensures st.Failed? ==> AtLimit()
      ensures st.Ok? ==> old(K) <= K
      ensures st.Ok? ==> Valid() && lasttarget == |code| && freereg == g.fr && Before(old(code), code, g, -1)
      ensures st.Ok? ==> d.t == NO_JUMP && Go(host, K, code, lasttarget, g, d.f, ls, x, true)
      ensures st.Ok? ==> (ls == [] <==> fl == [] && IsConstKind(d0.k) && Truthy(ConstValue(old(K), d0.k)))
    {
      d, ls := Discharged(d0), [];
      ghost var ps;
      DischargedDen(host, K, code, lasttarget, g, d0, tl, fl, x, -1);
      var pc;
      pc, ps :- JumpIfFalse(d, g, tl, fl, x);
      ghost var c1 := code;
      var f;
      f :- FinishGo(d.f, pc, d.t, true, g, fl, ps, tl, x);
      BeforeTrans(old(code), c1, code, g, -1);
      ls := fl + ps;
      d := d.(t := NO_JUMP, f := f);
      st := Ok;
    }

    /** goiffalse: go through if the value is false, jump otherwise. */
    method GoIfFalse(d0: ExpDesc, ghost g: Seg, ghost tl: seq<int>, ghost fl: seq<int>, ghost x: Expr)
      returns (st: Status, d: ExpDesc, ghost ls: seq<int>)
      requires Has(g, d0, tl, fl, x) && (d0.k.VK? ==> Truthy(K[d0.k.kx]))
      modifies this
      ensures st.Failed? ==> AtLimit()
      ensures st.Ok? ==> old(K) <= K
      ensures st.Ok? ==> Valid() && lasttarget == |code| && freereg == g.fr && Before(old(code), code, g, -1)
      ensures st.Ok? ==> d.f == NO_JUMP && Go(host, K, code, lasttarget, g, d.t, ls, x, false)
      ensures st.Ok? ==> (ls == [] <==> tl == [] && IsConstKind(d0.k) && !Truthy(ConstValue(old(K), d0.k)))
    {
      d, ls := Discharged(d0), [];
      ghost var ps;
      DischargedDen(host, K, code, lasttarget, g, d0, tl, fl, x, -1);
      var pc;
      pc, ps :- JumpIfTrue(d, g, tl, fl, x);
      ghost var c1 := code;
      var t;
      t :- FinishGo(d.t, pc, d.f, false, g, tl, ps, fl, x);
      BeforeTrans(old(code), c1, code, g, -1);
      ls := tl + ps;
      d := d.(f := NO_JUMP, t := t);
      st := Ok;
    }

    /** The jump of goiftrue: none after a true constant. */
    method JumpIfFalse(d: ExpDesc, ghost g: Seg, ghost tl: seq<int>, ghost fl: seq<int>, ghost x: Expr)
      returns (st: Status, pc: int, ghost ps: seq<int>)
      requires Has(g, d, tl, fl, x) && !d.k.VLocal? && (d.k.VK? ==> Truthy(K[d.k.kx]))
      modifies this`code, this`K, this`kcache, this`freereg, this`maxstack
      ensures st.Failed? ==> AtLimit()
      ensures st.Ok? ==> old(K) <= K
      ensures st.Ok? ==> Valid() && freereg == g.fr && Before(old(code), code, g, -1)
      ensures st.Ok? ==> Poised(host, K, code, lasttarget, g, d.f, fl, pc, ps, d.t, tl, x, true)
      ensures st.Ok? ==> (ps == [] <==> IsConstKind(d.k) && Truthy(ConstValue(old(K), d.k)))
    {
      pc, ps := NO_JUMP, [];
      if d.k.VJmp? {
        ghost var c := code;
        NegateCondition(d.k.pc);
        pc, ps := d.k.pc, [d.k.pc];
        GoNegated(host, K, c, lasttarget, g, d, tl, fl, x, code);
      } else if IsConstKind(d.k) && !d.k.VNil? && !d.k.VFalse? {
        GoConst(host, K, code, lasttarget, g, d, tl, fl, x, true);
      } else {
        pc :- JumpOnCond(d, false, g, tl, fl, x);
        ps := [pc];
      }
      st := Ok;
    }

    /** The jump of goiffalse: none after nil or false. */
    method JumpIfTrue(d: ExpDesc, ghost g: Seg, ghost tl: seq<int>, ghost fl: seq<int>, ghost x: Expr)
      returns (st: Status, pc: int, ghost ps: seq<int>)
      requires Has(g, d, tl, fl, x) && !d.k.VLocal? && (d.k.VK? ==> Truthy(K[d.k.kx]))
      modifies this`code, this`K, this`kcache, this`freereg, this`maxstack
      ensures st.Failed? ==> AtLimit()
      ensures st.Ok? ==> old(K) <= K
      ensures st.Ok? ==> Valid() && freereg == g.fr && Before(old(code), code, g, -1)
      ensures st.Ok? ==> Poised(host, K, code, lasttarget, g, d.t, tl, pc, ps, d.f, fl, x, false)
      ensures st.Ok? ==> (ps == [] <==> IsConstKind(d.k) && !Truthy(ConstValue(old(K), d.k)))
    {
      pc, ps := NO_JUMP, [];
      if d.k.VJmp? {
        pc, ps := d.k.pc, [d.k.pc];
        GoJump(host, K, code, lasttarget, g, d, tl, fl, x);
      } else if d.k.VNil? || d.k.VFalse? {
        GoConst(host, K, code, lasttarget, g, d, tl, fl, x, false);
      } else {
        pc :- JumpOnCond(d, true, g, tl, fl, x);
        ps := [pc];
      }
      st := Ok;
    }

    /** codenot: the value is negated, and the lists trade places without their values. */
    method CodeNot(d0: ExpDesc, ghost g: Seg, ghost tl: seq<int>, ghost fl: seq<int>, ghost x: Expr)
      returns (st: Status, d: ExpDesc)
      requires Has(g, d0, tl, fl, x) && !d0.k.VLocal? && !d0.k.VK?
      modifies this`code, this`K, this`kcache, this`freereg, this`maxstack
      ensures st.Failed? ==> AtLimit()
      ensures st.Ok? ==> old(K) <= K
      ensures st.Ok? ==> Has(g, d, fl, tl, NotE(x)) && !d.k.VK? && !d.k.VLocal? && Before(old(code), code, g, -1)
      ensures st.Ok? ==> (if IsConstKind(d0.k) then IsConstKind(d.k)
                          && ConstValue(K, d.k) == Bool(!Truthy(ConstValue(old(K), d0.k)))
                          else !IsConstKind(d.k))
    {
      ghost var T, F, k;
      d, T, F, k :- NegateValue(d0, g, tl, fl, x);
      ghost var c1 := code;
      RemoveValues(d.t, tl);
      ghost var c2 := code;
      ListUnvalued(c1, c2, d.f, fl, Members(tl));
      RemoveValues(d.f, fl);
      NotDone(host, K, c1, lasttarget, g, T, F, k, d, tl, fl, x, c2, code);
      BeforeTrans(old(code), c1, code, g, -1);
      d := ExpDesc(d.k, d.f, d.t);
      st := Ok;
    }

    /** A value in a register is negated by an instruction of its own. */
    method EmitNot(d0: ExpDesc, ghost g: Seg, ghost tl: seq<int>, ghost fl: seq<int>, ghost x: Expr)
      returns (d: ExpDesc, ghost k: Kind)
      requires Has(g, d0, tl, fl, x) && d0.k.VNonReloc?
      modifies this`code, this`freereg
      ensures Valid() && freereg == g.fr && Before(old(code), code, g, -1)
      ensures d.k.VReloc? && d.t == d0.t && d.f == d0.f && IsList(code, d.t, tl) && IsList(code, d.f, fl)
      ensures NotReady(K, code, g, Members(tl), Members(fl), k, d, tl, fl)
      ensures Sem(host, K, code, Stop(code, d), lasttarget, g, Members(tl), Members(fl), Holding(k), x, -1)
    {
      FreeExp(d0);
      ghost var c := code;
      k := d0.k;
      var pc := Emit(NotOp(0, d0.k.reg));
      NotCoded(host, K, c, lasttarget, g, d0, tl, fl, x, code);
      d := d0.(k := VReloc(pc));
    }

    /** The part of codenot that acts on the value itself. */
    method NegateValue(d0: ExpDesc, ghost g: Seg, ghost tl: seq<int>, ghost fl: seq<int>, ghost x: Expr)
      returns (st: Status, d: ExpDesc, ghost T: set<int>, ghost F: set<int>, ghost k: Kind)
      requires Has(g, d0, tl, fl, x) && !d0.k.VLocal? && !d0.k.VK?
      modifies this`code, this`K, this`kcache, this`freereg, this`maxstack
      ensures st.Failed? ==> AtLimit()
      ensures st.Ok? ==> old(K) <= K
      ensures st.Ok? ==> Valid() && freereg == g.fr && Before(old(code), code, g, -1)
      ensures st.Ok? ==> d.t == d0.t && d.f == d0.f && IsList(code, d.t, tl) && IsList(code, d.f, fl)
      ensures st.Ok? ==> NotReady(K, code, g, T, F, k, d, tl, fl) && (d.k.VJmp? ==> lasttarget < d.k.pc)
      ensures st.Ok? ==> Sem(host, K, code, Stop(code, d), lasttarget, g, T, F, Holding(k), x, -1)
      ensures st.Ok? && IsConstKind(d0.k) ==> d.k == if Truthy(ConstValue(old(K), d0.k)) then VFalse else VTrue
      ensures st.Ok? && !IsConstKind(d0.k) ==> !IsConstKind(d.k)
    {
      d, k := d0, d0.k;
      T, F := Members(tl), Members(fl);
      if IsConstKind(d.k) {
        assert TrueExits(d, tl) == T;
        d := d.(k := if d.k.VNil? || d.k.VFalse? then VTrue else VFalse);
      } else if d.k.VJmp? {
        ghost var c := code;
        NegateCondition(d.k.pc);
        GoNegated(host, K, c, lasttarget, g, d, tl, fl, x, code);
        F, k := F + {d.k.pc as int}, VTrue;
      } else {
        d :- Discharge2AnyReg(d, g, tl, fl, x);
        ghost var c := code;
        d, k := EmitNot(d, g, tl, fl, x);
        BeforeTrans(old(code), c, code, g, -1);
      }
      st := Ok;
    }

    // -------------------------------------------------------------------------------------------
    // Comparisons

    /**
     Between the two operands of a comparison: the first, coded from g up to c1, is a constant
     or in a register; the second, coded from g2 on, is as the driver left it.
     */
    ghost predicate Operands(g: Seg, K1: seq<Value>, c1: Code, lt1: int, dA: ExpDesc, xa: Expr,
                             g2: Seg, dB: ExpDesc, tl: seq<int>, fl: seq<int>, xb: Expr)
      reads this
    {
      && nactvar <= g.fr
      && Sem(host, K1, c1, |c1|, lt1, g, {}, {}, Holding(dA.k), xa, -1) && FirstForm(K1, dA, g.fr, g2.fr, nactvar)
      && After(K1, c1, lt1, g, K, code, g2)
      && Has(g2, dB, tl, fl, xb) && Closed(xb, nactvar)
    }

    /** Both operands are available at the end of the code. */
    ghost predicate Settles(g: Seg, k1: Kind, k2: Kind, xa: Expr, xb: Expr)
      reads this
    {
      (&& Valid() && nactvar <= g.fr < MAX_REGISTERS
      && Twos(host, K, code, lasttarget, g, k1, k2, xa, xb)
      && TwoOwned(k1, k2, g.fr, freereg, nactvar)) == true
    }

    /** The second operand is put in a register. */
    method SettleSecond(dB: ExpDesc, ghost g: Seg, ghost K1: seq<Value>, ghost c1: Code, ghost lt1: int,
                        ghost dA: ExpDesc, ghost xa: Expr, ghost g2: Seg, ghost tl: seq<int>, ghost fl: seq<int>,
                        ghost xb: Expr)
      returns (st: Status, d: ExpDesc)
      requires Operands(g, K1, c1, lt1, dA, xa, g2, dB, tl, fl, xb)
      modifies this
      ensures st.Failed? ==> AtLimit()
      ensures st.Ok? ==> old(K) <= K
      ensures st.Ok? ==> d.k.VNonReloc? && !HasJumps(d) && Settles(g, dA.k, d.k, xa, xb) && Before(c1, code, g, -1)
    {
      d :- Exp2AnyReg(dB, g2, tl, fl, xb);
      BeforeTrans(c1, old(code), code, g2, -1);
      SecondSettled(host, nactvar, K1, c1, lt1, g, dA.k, xa, K, code, lasttarget, g2, d, xb);
      st := Ok;
    }

    method FreeOperands(dA: ExpDesc, dB: ExpDesc, ghost g: Seg)
      requires TwoOwned(dA.k, dB.k, g.fr, freereg, nactvar)
      modifies this`freereg
      ensures freereg == g.fr
    {
      FreeExps(dA, dB, g.fr);
    }

    /** A constant first operand is loaded after the second. */
    method LoadFirst(dA: ExpDesc, ghost g: Seg, ghost k2: Kind, ghost xa: Expr, ghost xb: Expr)
      returns (st: Status, d: ExpDesc)
      requires Settles(g, dA.k, k2, xa, xb) && dA.t == NO_JUMP && dA.f == NO_JUMP
      requires (IsConstKind(dA.k) || dA.k.VNonReloc?) && (IsConstKind(k2) || k2.VNonReloc?)
      modifies this
      ensures st.Failed? ==> AtLimit()
      ensures st.Ok? ==> old(K) <= K
      ensures st.Ok? ==> d.k.VNonReloc? && !HasJumps(d) && Settles(g, d.k, k2, xa, xb) && Before(old(code), code, g, -1)
      ensures st.Ok? ==> Twos(host, K, code, lasttarget, g, dA.k, k2, xa, xb)
    {
      d := dA;
      ghost var c, K0, lt, g3 := code, K, lasttarget, Seg(|code|, lasttarget, freereg);
      ghost var x := Const(ConstValue(K, dA.k));
      if IsConstKind(dA.k) {
        Leaf(host, K, code, lasttarget, g3, dA, x);
        d :- Exp2AnyReg(dA, g3, [], [], x);
        LateLoaded(host, K0, c, lt, g, dA.k, k2, xa, xb, K, code, lasttarget, g3, d);
      }
      st := Ok;
    }

    /** The test of a comparison and its jump; the operands' registers are free again. */
    method EmitCompare(dA: ExpDesc, dB: ExpDesc, cond: Cond, k: bool, ghost ka: Kind, ghost g: Seg, ghost op: CmpOp,
                       ghost xa: Expr, ghost xb: Expr)
      returns (d: ExpDesc)
      requires Settles(g, dA.k, dB.k, xa, xb) && Twos(host, K, code, lasttarget, g, ka, dB.k, xa, xb)
      requires Tells(host, K, code, dA.k, ka, dB.k, op, Sticky(op, xa, xb), cond, k)
      modifies this`code, this`freereg
      ensures Has(g, d, [], [], Cmp(op, xa, xb)) && d.k.VJmp? && Before(old(code), code, g, -1)
    {
      ghost var c := code;
      FreeOperands(dA, dB, g);
      var pc := CondJump(Branch(cond, k));
      d := ExpDesc(VJmp(pc), NO_JUMP, NO_JUMP);
      ComparedDen(host, K, c, lasttarget, g, dA.k, ka, dB.k, xa, xb, op, cond, k, code);
    }

    /** codeorder: `<` and `<=`, and with swapped operands `>` and `>=`; immediates where they fit. */
    method CodeOrder(op: Order, swapped: bool, dA0: ExpDesc, dB0: ExpDesc,
                     ghost g: Seg, ghost K1: seq<Value>, ghost c1: Code, ghost lt1: int, ghost xa: Expr,
                     ghost g2: Seg, ghost tl: seq<int>, ghost fl: seq<int>, ghost xb: Expr)
      returns (st: Status, d: ExpDesc)
      requires Operands(g, K1, c1, lt1, dA0, xa, g2, dB0, tl, fl, xb)
      requires OrderForm(dA0, xa) && Predicted(K, dB0, tl, fl, xb) && !dB0.k.VK?
      modifies this
      ensures st.Failed? ==> AtLimit()
      ensures st.Ok? ==> old(K) <= K
      ensures st.Ok? ==> Has(g, d, [], [], Cmp(CmpOf(op, swapped), xa, xb)) && d.k.VJmp? && Before(c1, code, g, -1)
    {
      d := dA0;
      NoJumpsNoLists(code, dB0, tl, fl);
      var dA, dB, cond;
      if swapped {
        dA, dB, cond :- OrderSwapped(op, dA0, dB0, g, K1, c1, lt1, xa, g2, tl, fl, xb);
      } else {
        dA, dB, cond :- OrderDirect(op, dA0, dB0, g, K1, c1, lt1, xa, g2, tl, fl, xb);
      }
      OrderTells(host, K, code, op, swapped, dA0, dB0, old(K), tl, fl, xa, xb, dA.k, dB.k, cond);
      ghost var c3 := code;
      d := EmitCompare(dA, dB, cond, true, dA.k, g, CmpOf(op, swapped), xa, xb);
      BeforeTrans(c1, c3, code, g, -1);
      st := Ok;
    }

    /** The operands of `<` and `<=` where the test wants them. */
    method OrderDirect(op: Order, dA0: ExpDesc, dB0: ExpDesc,
              ghost g: Seg, ghost K1: seq<Value>, ghost c1: Code, ghost lt1: int, ghost xa: Expr,
              ghost g2: Seg, ghost tl: seq<int>, ghost fl: seq<int>, ghost xb: Expr)
      returns (st: Status, dA: ExpDesc, dB: ExpDesc, cond: Cond)
      requires Operands(g, K1, c1, lt1, dA0, xa, g2, dB0, tl, fl, xb)
      requires dA0.k.VNonReloc? || IsSCNumber(dA0).ok
      requires HasJumps(dB0) <==> tl != [] || fl != []
      modifies this
      ensures st.Failed? ==> AtLimit()
      ensures st.Ok? ==> old(K) <= K
      ensures st.Ok? ==> Settles(g, dA.k, dB.k, xa, xb) && Before(c1, code, g, -1)
      ensures st.Ok? ==> OrderCond(op, false, dA0, dB0, dA.k, dB.k, cond)
    {
      dA, dB, cond := dA0, dB0, CTest(0);
      var s1, s2 := IsSCNumber(dA), IsSCNumber(dB);
      if s2.ok {
        SecondSettled(host, nactvar, K1, c1, lt1, g, dA.k, xa, K, code, lasttarget, g2, dB, xb);
        ghost var c2 := code;
        dA :- LoadFirst(dA, g, dB.k, xa, xb);
        BeforeTrans(c1, c2, code, g, -1);
        cond := COrderI(op, dA.k.reg, s2.im, s2.isFloat);
      } else {
        dB :- SettleSecond(dB, g, K1, c1, lt1, dA, xa, g2, tl, fl, xb);
        cond := if s1.ok then CFlipI(op, dB.k.reg, s1.im, s2.isFloat || s1.isFloat) else COrder(op, dA.k.reg, dB.k.reg);
      }
      st := Ok;
    }

    /** The operands of `>` and `>=`, compared the other way round. */
    method OrderSwapped(op: Order, dA0: ExpDesc, dB0: ExpDesc,
              ghost g: Seg, ghost K1: seq<Value>, ghost c1: Code, ghost lt1: int, ghost xa: Expr,
              ghost g2: Seg, ghost tl: seq<int>, ghost fl: seq<int>, ghost xb: Expr)
      returns (st: Status, dA: ExpDesc, dB: ExpDesc, cond: Cond)
      requires Operands(g, K1, c1, lt1, dA0, xa, g2, dB0, tl, fl, xb)
      requires dA0.k.VNonReloc? || IsSCNumber(dA0).ok
      requires HasJumps(dB0) <==> tl != [] || fl != []
      modifies this
      ensures st.Failed? ==> AtLimit()
      ensures st.Ok? ==> old(K) <= K
      ensures st.Ok? ==> Settles(g, dA.k, dB.k, xa, xb) && Before(c1, code, g, -1)
      ensures st.Ok? ==> OrderCond(op, true, dA0, dB0, dA.k, dB.k, cond)
    {
      dA, dB, cond := dA0, dB0, CTest(0);
      var s1, s2 := IsSCNumber(dB), IsSCNumber(dA);
      if !s2.ok && s1.ok {
        SecondSettled(host, nactvar, K1, c1, lt1, g, dA.k, xa, K, code, lasttarget, g2, dB, xb);
        cond := CFlipI(op, dA.k.reg, s1.im, s2.isFloat || s1.isFloat);
      } else {
        dB :- SettleSecond(dB, g, K1, c1, lt1, dA, xa, g2, tl, fl, xb);
        cond := if s2.ok then COrderI(op, dB.k.reg, s2.im, s2.isFloat) else COrder(op, dB.k.reg, dA.k.reg);
      }
      st := Ok;
    }

    /** codeeq: `==` and `~=`; a constant operand becomes an immediate or a constant index. */
    method CodeEq(eq: bool, dA0: ExpDesc, dB0: ExpDesc,
                  ghost g: Seg, ghost K1: seq<Value>, ghost c1: Code, ghost lt1: int, ghost xa: Expr,
                  ghost g2: Seg, ghost tl: seq<int>, ghost fl: seq<int>, ghost xb: Expr)
      returns (st: Status, d: ExpDesc)
      requires Operands(g, K1, c1, lt1, dA0, xa, g2, dB0, tl, fl, xb) && !dB0.k.VK?
      modifies this
      ensures st.Failed? ==> AtLimit()
      ensures st.Ok? ==> old(K) <= K
      ensures st.Ok? ==>
              Has(g, d, [], [], Cmp(if eq then OpEq else OpNe, xa, xb)) && d.k.VJmp?
              && Before(c1, code, g, -1)
    {
      d := dA0;
      NoJumpsNoLists(code, dB0, tl, fl);
      var dA, dB, cond;
      if dA0.k.VNonReloc? {
        dA := dA0;
        dB, cond :- EqDirect(dA0, dB0, g, K1, c1, lt1, xa, g2, tl, fl, xb);
      } else {
        dA, dB, cond :- EqSwapped(dA0, dB0, g, K1, c1, lt1, xa, g2, tl, fl, xb);
      }
      ghost var ka := if dA0.k.VNonReloc? then dA.k else dA0.k;
      EqTells(host, K, code, eq, dA.k, ka, dB.k, cond, xa, xb);
      ghost var c3 := code;
      d := EmitCompare(dA, dB, cond, eq, ka, g, if eq then OpEq else OpNe, xa, xb);
      BeforeTrans(c1, c3, code, g, -1);
      st := Ok;
    }

    /** exp2K on the second operand, which stays what it is if it is no constant. */
    method TrySecondK(dB0: ExpDesc, ghost g: Seg, ghost K1: seq<Value>, ghost c1: Code, ghost lt1: int,
                      ghost dA: ExpDesc, ghost xa: Expr, ghost g2: Seg, ghost tl: seq<int>, ghost fl: seq<int>,
                      ghost xb: Expr)
      returns (st: Status, ok: bool, dB: ExpDesc)
      requires Operands(g, K1, c1, lt1, dA, xa, g2, dB0, tl, fl, xb) && !dB0.k.VK?
      modifies this`K, this`kcache
      ensures st.Failed? ==> AtLimit()
      ensures st.Ok? ==> old(K) <= K && Operands(g, K1, c1, lt1, dA, xa, g2, dB0, tl, fl, xb)
      ensures st.Ok? && !ok ==> dB == dB0
      ensures st.Ok? && ok ==>
                && IsConstKind(dB0.k) && !HasJumps(dB0)
                && dB.k.VK? && dB.k.kx < |K| && K[dB.k.kx] == ConstValue(K, dB0.k) && !K[dB.k.kx].Obj?
    {
      ok, dB :- Exp2K(dB0);
      Grown(host, old(K), code, lasttarget, g2, dB0, tl, fl, xb, -1, K);
      st := Ok;
    }

    /** The second operand of an equality: a constant index if it can be, else a register. */
    method EqSecond(dB0: ExpDesc, ghost g: Seg, ghost K1: seq<Value>, ghost c1: Code, ghost lt1: int,
                    ghost dA: ExpDesc, ghost xa: Expr, ghost g2: Seg, ghost tl: seq<int>, ghost fl: seq<int>,
                    ghost xb: Expr)
      returns (st: Status, dB: ExpDesc)
      requires Operands(g, K1, c1, lt1, dA, xa, g2, dB0, tl, fl, xb) && !dB0.k.VK?
      requires HasJumps(dB0) <==> tl != [] || fl != []
      modifies this
      ensures st.Failed? ==> AtLimit()
      ensures st.Ok? ==> old(K) <= K
      ensures st.Ok? ==> Settles(g, dA.k, dB.k, xa, xb) && Before(c1, code, g, -1)
      ensures st.Ok? ==> dB.k.VNonReloc? || (dB.k.VK? && dB.k.kx < |K| && !K[dB.k.kx].Obj?)
    {
      var ok;
      ok, dB :- TrySecondK(dB0, g, K1, c1, lt1, dA, xa, g2, tl, fl, xb);
      if ok {
        SecondConst(host, nactvar, K1, c1, lt1, g, dA.k, xa, K, code, lasttarget, g2, dB0, xb, dB.k);
      } else {
        dB :- SettleSecond(dB, g, K1, c1, lt1, dA, xa, g2, tl, fl, xb);
      }
      st := Ok;
    }

    /** The first operand is in a register. */
    method EqDirect(dA: ExpDesc, dB0: ExpDesc,
                    ghost g: Seg, ghost K1: seq<Value>, ghost c1: Code, ghost lt1: int, ghost xa: Expr,
                    ghost g2: Seg, ghost tl: seq<int>, ghost fl: seq<int>, ghost xb: Expr)
      returns (st: Status, dB: ExpDesc, cond: Cond)
      requires Operands(g, K1, c1, lt1, dA, xa, g2, dB0, tl, fl, xb) && dA.k.VNonReloc? && !dB0.k.VK?
      requires HasJumps(dB0) <==> tl != [] || fl != []
      modifies this
      ensures st.Failed? ==> AtLimit()
      ensures st.Ok? ==> old(K) <= K
      ensures st.Ok? ==> Settles(g, dA.k, dB.k, xa, xb) && Before(c1, code, g, -1)
      ensures st.Ok? ==> EqCond(K, dA.k, dA.k, dB.k, cond)
    {
      dB, cond := dB0, CTest(0);
      var s2 := IsSCNumber(dB);
      if s2.ok {
        SecondSettled(host, nactvar, K1, c1, lt1, g, dA.k, xa, K, code, lasttarget, g2, dB, xb);
        return Ok, dB, CEqI(dA.k.reg, s2.im);
      }
      dB :- EqSecond(dB, g, K1, c1, lt1, dA, xa, g2, tl, fl, xb);
      cond := if dB.k.VK? then CEqK(dA.k.reg, dB.k.kx) else CEq(dA.k.reg, dB.k.reg);
      st := Ok;
    }

    /** The first operand is a constant: the operands trade places. */
    method EqSwapped(dA0: ExpDesc, dB0: ExpDesc,
                     ghost g: Seg, ghost K1: seq<Value>, ghost c1: Code, ghost lt1: int, ghost xa: Expr,
                     ghost g2: Seg, ghost tl: seq<int>, ghost fl: seq<int>, ghost xb: Expr)
      returns (st: Status, dA: ExpDesc, dB: ExpDesc, cond: Cond)
      requires Operands(g, K1, c1, lt1, dA0, xa, g2, dB0, tl, fl, xb) && !dA0.k.VNonReloc?
      modifies this
      ensures st.Failed? ==> AtLimit()
      ensures st.Ok? ==> old(K) <= K
      ensures st.Ok? ==> Settles(g, dA.k, dB.k, xa, xb) && Before(c1, code, g, -1)
      ensures st.Ok? ==> Twos(host, K, code, lasttarget, g, dA0.k, dB.k, xa, xb)
      ensures st.Ok? ==> EqCond(K, dA.k, dA0.k, dB.k, cond)
    {
      dA, dB, cond := dA0, dB0, CTest(0);
      dB :- SettleSecond(dB, g, K1, c1, lt1, dA, xa, g2, tl, fl, xb);
      var s2 := IsSCNumber(dA);
      if s2.ok {
        return Ok, dA, dB, CEqI(dB.k.reg, s2.im);
      }
      ghost var c2 := code;
      dA, cond :- EqConst(dA, dB, g, xa, xb);
      BeforeTrans(c1, c2, code, g, -1);
      st := Ok;
    }

    /** A constant first operand: a constant index if it can be, else a late load. */
    method EqConst(dA0: ExpDesc, dB: ExpDesc, ghost g: Seg, ghost xa: Expr, ghost xb: Expr)
      returns (st: Status, dA: ExpDesc, cond: Cond)
      requires Settles(g, dA0.k, dB.k, xa, xb) && dA0.t == NO_JUMP && dA0.f == NO_JUMP
      requires IsConstKind(dA0.k) && dB.k.VNonReloc? && !ConstValue(K, dA0.k).Obj?
      modifies this
      ensures st.Failed? ==> AtLimit()
      ensures st.Ok? ==> old(K) <= K
      ensures st.Ok? ==> Settles(g, dA.k, dB.k, xa, xb) && Before(old(code), code, g, -1)
      ensures st.Ok? ==> Twos(host, K, code, lasttarget, g, dA0.k, dB.k, xa, xb)
      ensures st.Ok? ==> EqCond(K, dA.k, dA0.k, dB.k, cond)
    {
      cond := CTest(0);
      var ok;
      ok, dA :- EqIndex(dA0, dB, g, xa, xb);
      if ok {
        cond := CEqK(dB.k.reg, dA.k.kx);
      } else {
        dA :- LoadFirst(dA, g, dB.k, xa, xb);
        cond := CEq(dB.k.reg, dA.k.reg);
      }
      st := Ok;
    }

    /** exp2K on the constant first operand of an equality. */
    method EqIndex(dA0: ExpDesc, dB: ExpDesc, ghost g: Seg, ghost xa: Expr, ghost xb: Expr)
      returns (st: Status, ok: bool, dA: ExpDesc)
      requires Settles(g, dA0.k, dB.k, xa, xb) && IsConstKind(dA0.k) && !ConstValue(K, dA0.k).Obj?
      modifies this`K, this`kcache
      ensures st.Failed? ==> AtLimit()
      ensures st.Ok? ==> old(K) <= K && Settles(g, dA0.k, dB.k, xa, xb) && Settles(g, dA.k, dB.k, xa, xb)
      ensures st.Ok? ==> !ConstValue(K, dA0.k).Obj?
      ensures st.Ok? ==> if ok then dA.k.VK? && dA.k.kx < |K| && !K[dA.k.kx].Obj? else dA == dA0
    {
      ok, dA :- Exp2K(dA0);
      Indexed(host, old(K), code, lasttarget, g, dA0.k, dB.k, xa, xb, K, dA.k);
      OwnedAlike(dA0.k, dA.k, dB.k, g.fr, freereg, nactvar);
      st := Ok;
    }

    // -------------------------------------------------------------------------------------------
    // The driver: infix, second operand, posfix

    /** infix for a comparison: the first operand becomes a small constant or a register. */
    method InfixCompare(op: CmpOp, d0: ExpDesc, ghost g: Seg, ghost tl: seq<int>, ghost fl: seq<int>, ghost x: Expr)
      returns (st: Status, d: ExpDesc)
      requires Has(g, d0, tl, fl, x) && Predicted(K, d0, tl, fl, x) && !d0.k.VK?
      requires IsConstKind(d0.k) ==> !ConstValue(K, d0.k).Obj?
      modifies this
      ensures st.Failed? ==> AtLimit()
      ensures st.Ok? ==> old(K) <= K
      ensures st.Ok? ==> Valid() && Before(old(code), code, g, -1) && FirstForm(K, d, g.fr, freereg, nactvar)
      ensures st.Ok? ==> Sem(host, K, code, |code|, lasttarget, g, {}, {}, Holding(d.k), x, -1)
      ensures st.Ok? && op != OpEq && op != OpNe ==> OrderForm(d, x)
    {
      d := Discharged(d0);
      DischargedDen(host, K, code, lasttarget, g, d0, tl, fl, x, -1);
      NoJumpsNoLists(code, d, tl, fl);
      if op == OpEq || op == OpNe {
        if !HasJumps(d) && (d.k.VKInt? || d.k.VKFlt?) {
          FirstSettled(host, K, code, lasttarget, g, d, tl, fl, x);
        } else {
          d :- InfixEq(d, g, tl, fl, x);
        }
      } else {
        d :- InfixOrder(d, g, tl, fl, x);
      }
      st := Ok;
    }

    /** The first operand of an order comparison. */
    method InfixOrder(d0: ExpDesc, ghost g: Seg, ghost tl: seq<int>, ghost fl: seq<int>, ghost x: Expr)
      returns (st: Status, d: ExpDesc)
      requires Has(g, d0, tl, fl, x) && Predicted(K, d0, tl, fl, x) && !d0.k.VK? && !d0.k.VLocal?
      requires HasJumps(d0) <==> tl != [] || fl != []
      modifies this
      ensures st.Failed? ==> AtLimit()
      ensures st.Ok? ==> old(K) <= K
      ensures st.Ok? ==> Valid() && Before(old(code), code, g, -1) && FirstForm(K, d, g.fr, freereg, nactvar)
      ensures st.Ok? ==> Sem(host, K, code, |code|, lasttarget, g, {}, {}, Holding(d.k), x, -1) && OrderForm(d, x)
    {
      d := d0;
      if IsSCNumber(d).ok {
        FirstSettled(host, K, code, lasttarget, g, d, tl, fl, x);
      } else {
        d :- Exp2AnyReg(d, g, tl, fl, x);
        FirstSettled(host, K, code, lasttarget, g, d, [], [], x);
      }
      st := Ok;
    }

    /** exp2RK on the first operand of an equality. */
    method InfixEq(d0: ExpDesc, ghost g: Seg, ghost tl: seq<int>, ghost fl: seq<int>, ghost x: Expr)
      returns (st: Status, d: ExpDesc)
      requires Has(g, d0, tl, fl, x) && !d0.k.VK? && !d0.k.VLocal?
      requires HasJumps(d0) <==> tl != [] || fl != []
      modifies this
      ensures st.Failed? ==> AtLimit()
      ensures st.Ok? ==> old(K) <= K
      ensures st.Ok? ==> Valid() && Before(old(code), code, g, -1) && FirstForm(K, d, g.fr, freereg, nactvar)
      ensures st.Ok? ==> Sem(host, K, code, |code|, lasttarget, g, {}, {}, Holding(d.k), x, -1)
    {
      var ok;
      ghost var K0 := K;
      ok, d :- Exp2K(d0);
      Grown(host, K0, code, lasttarget, g, d0, tl, fl, x, -1, K);
      if ok {
        FirstSettled(host, K, code, lasttarget, g, d0, tl, fl, x);
        FirstRekinded(host, K, code, lasttarget, g, d0.k, d.k, x);
      } else {
        d :- Exp2AnyReg(d, g, tl, fl, x);
        FirstSettled(host, K, code, lasttarget, g, d, [], [], x);
      }
      st := Ok;
    }

    /** infix for `and` and `or`: the list of exits that skip the second operand. */
    method InfixCircuit(sense: bool, d0: ExpDesc, ghost g: Seg, ghost tl: seq<int>, ghost fl: seq<int>, ghost x: Expr)
      returns (st: Status, l: int, ghost ls: seq<int>)
      requires Has(g, d0, tl, fl, x) && !d0.k.VK? && Predicted(K, d0, tl, fl, x)
      modifies this
      ensures st.Failed? ==> AtLimit()
      ensures st.Ok? ==> old(K) <= K
      ensures st.Ok? ==> Valid() && lasttarget == |code| && freereg == g.fr && Before(old(code), code, g, -1)
      ensures st.Ok? ==> Go(host, K, code, lasttarget, g, l, ls, x, sense) && (ls != [] <==> LeavesEarly(sense, x))
    {
      l, ls := NO_JUMP, [];
      if sense {
        var d;
        d, ls :- GoIfTrue(d0, g, tl, fl, x);
        l := d.f;
      } else {
        var d;
        d, ls :- GoIfFalse(d0, g, tl, fl, x);
        l := d.t;
      }
      st := Ok;
    }

    /** posfix for `and` and `or`: the exits of the first operand join those of the second. */
    method PosfixCircuit(sense: bool, head1: int, d2: ExpDesc, ghost g: Seg, ghost K1: seq<Value>, ghost c1: Code,
                         ghost lt1: int, ghost ls: seq<int>, ghost xa: Expr, ghost g2: Seg, ghost tl: seq<int>,
                         ghost fl: seq<int>, ghost xb: Expr)
      returns (st: Status, d: ExpDesc, ghost tl': seq<int>, ghost fl': seq<int>)
      requires Go(host, K1, c1, lt1, g, head1, ls, xa, sense) && After(K1, c1, lt1, g, K, code, g2)
      requires nactvar <= g.fr == g2.fr && Closed(xb, nactvar) && Has(g2, d2, tl, fl, xb)
      requires Predicted(K, d2, tl, fl, xb) && (ls != [] <==> LeavesEarly(sense, xa))
      modifies this`code
      ensures st.Failed? ==> AtLimit()
      ensures st.Ok? ==> Has(g, d, tl', fl', Joined(sense, xa, xb)) && d.k == d2.k && Before(c1, code, g, -1)
      ensures st.Ok? ==> Predicted(K, d, tl', fl', Joined(sense, xa, xb))
    {
      d, tl', fl' := d2, tl, fl;
      ghost var c2 := code;
      FirstListKept(host, K1, c1, lt1, g, head1, ls, xa, sense, K, c2, lasttarget, g2, d2, tl, fl, xb);
      if sense {
        var f :- Concat(d.f, head1, fl, ls);
        d, fl' := d.(f := f), fl + ls;
      } else {
        var t :- Concat(d.t, head1, tl, ls);
        d, tl' := d.(t := t), tl + ls;
      }
      CircuitDen(host, nactvar, K1, c1, lt1, g, head1, ls, xa, sense, K, c2, lasttarget, g2, d2, tl, fl, xb, code, d);
      CircuitPredicted(K, d2, d, tl, fl, ls, sense, xa, xb);
      assert Valid() && Owns(d, nactvar, g.fr, freereg);
      st := Ok;
    }

    /** A constant or a local: no code yet. */
    method Operand(x: Expr) returns (d: ExpDesc)
      requires Valid() && Closed(x, nactvar) && (x.Const? || x.Local?)
      ensures Has(Seg(|code|, lasttarget, freereg), d, [], [], x) && !d.k.VK? && Predicted(K, d, [], [], x)
    {
      d := ExpDesc(if x.Const? then ConstKind(x.v) else VLocal(x.reg), NO_JUMP, NO_JUMP);
      Leaf(host, K, code, lasttarget, Seg(|code|, lasttarget, freereg), d, x);
    }

    /** luaK_dischargevars, on an expression in parentheses. */
    method DischargeVars(d0: ExpDesc, ghost g: Seg, ghost tl: seq<int>, ghost fl: seq<int>, ghost x: Expr)
      returns (d: ExpDesc)
      requires Has(g, d0, tl, fl, x) && !d0.k.VK? && Predicted(K, d0, tl, fl, x)
      ensures Has(g, d, tl, fl, x) && !d.k.VK? && !d.k.VLocal? && Predicted(K, d, tl, fl, x)
    {
      d := Discharged(d0);
      DischargedDen(host, K, code, lasttarget, g, d0, tl, fl, x, -1);
    }

    /** luaK_prefix for `not`. */
    method PrefixNot(d0: ExpDesc, ghost g: Seg, ghost tl: seq<int>, ghost fl: seq<int>, ghost x: Expr)
      returns (st: Status, d: ExpDesc)
      requires Has(g, d0, tl, fl, x) && !d0.k.VK? && Predicted(K, d0, tl, fl, x)
      modifies this
      ensures st.Failed? ==> AtLimit()
      ensures st.Ok? ==> old(K) <= K
      ensures st.Ok? ==> Has(g, d, fl, tl, NotE(x)) && !d.k.VK? && Predicted(K, d, fl, tl, NotE(x))
      ensures st.Ok? ==> Before(old(code), code, g, -1)
    {
      d := DischargeVars(d0, g, tl, fl, x);
      d :- CodeNot(d, g, tl, fl, x);
      st := Ok;
    }

    /** posfix for a comparison. */
    method PosfixCompare(op: CmpOp, d1: ExpDesc, d2: ExpDesc,
                         ghost g: Seg, ghost K1: seq<Value>, ghost c1: Code, ghost lt1: int, ghost a: Expr,
                         ghost g2: Seg, ghost tl: seq<int>, ghost fl: seq<int>, ghost b: Expr)
      returns (st: Status, d: ExpDesc)
      requires Operands(g, K1, c1, lt1, d1, a, g2, d2, tl, fl, b) && Predicted(K, d2, tl, fl, b) && !d2.k.VK?
      requires op != OpEq && op != OpNe ==> OrderForm(d1, a)
      modifies this
      ensures st.Failed? ==> AtLimit()
      ensures st.Ok? ==> old(K) <= K
      ensures st.Ok? ==> Has(g, d, [], [], Cmp(op, a, b)) && d.k.VJmp? && Before(c1, code, g, -1)
    {
      if op == OpEq || op == OpNe {
        d :- CodeEq(op == OpEq, d1, d2, g, K1, c1, lt1, a, g2, tl, fl, b);
      } else {
        var ord := if op == OpLt || op == OpGt then Less else LessEqual;
        d :- CodeOrder(ord, op == OpGt || op == OpGe, d1, d2, g, K1, c1, lt1, a, g2, tl, fl, b);
      }
      st := Ok;
    }
  }
}
