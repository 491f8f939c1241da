/**
 What each step of the code generator does to the meaning of the code: one lemma per
 transformation of the instruction sequence.
 */
module Semantics {
  import opened Machine
  import opened Descriptor

  // ---------------------------------------------------------------------------------------------
  // Shape

  /** Appended instructions that are whole keep the code whole. */
  lemma ShapeExtend(c: Code, P: set<int>, c': Code, s: nat, end: nat, lt: int, lt': int)
    requires s <= end <= |c| && end <= |c'| && lt <= lt' && c[..end] == c'[..end]
    requires Shape(c, P, s, end, lt) && Shape(c', P, end, |c'|, lt')
    ensures Shape(c', P, s, |c'|, lt')
  {
    forall i | s <= i < |c'| ensures Neat(c', P, |c'|, lt', i) {
      if i < end {
        assert Neat(c, P, end, lt, i);
        assert c'[i] == c'[..end][i] == c[..end][i] == c[i];
        if i + 1 < end { assert c'[i + 1] == c'[..end][i + 1] == c[..end][i + 1] == c[i + 1]; }
      }
    }
  }

  lemma ShapeAlike(c: Code, P: set<int>, c': Code, P': set<int>, s: nat, end: nat, lt: int, lt': int)
    requires end <= |c| && end <= |c'| && lt <= lt' && P' <= P
    requires Shape(c, P, s, end, lt)
    requires forall i :: s <= i < end ==> Alike(c, c', P, i)
    requires forall i :: s <= i < end && i in P && i !in P' && c'[i].Jmp? ==> 0 <= c'[i].sj && i + 1 + c'[i].sj <= lt'
    ensures Shape(c', P', s, end, lt')
  {
    forall i | s <= i < end ensures Neat(c', P', end, lt', i) {
      assert Neat(c, P, end, lt, i) && Alike(c, c', P, i);
      if i + 1 < end { assert Alike(c, c', P, i + 1); }
    }
  }

  // ---------------------------------------------------------------------------------------------
  // Following a run into changed code

  /** The run that ended as e in c, replayed in c' with exits Q still pending. */
  ghost predicate Replay(h: Host, K: seq<Value>, c: Code, Q: set<int>, end: nat, s: nat, r: Regs, mid: nat, e: Exit)
    requires end <= |c|
  {
    match e
    case AtEnd(r') => Exec(h, K, c, Q, end, s, r) == Exec(h, K, c, Q, end, mid, r')
    case Via(j, r') =>
      if j in Q then Exec(h, K, c, Q, end, s, r) == Via(j, r')
      else Exec(h, K, c, Q, end, s, r) == Resume(h, K, c, Q, end, j, r')
    case Raised(q, r', call) => Exec(h, K, c, Q, end, s, r) == Raised(q, r', call)
    case Stuck => false
  }

  /** An exit of the segment's own. */
  ghost predicate Own(c: Code, end: nat, g: Seg, S: set<int>, j: int)
    requires end <= |c|
  {
    j in S && g.s < j < end && IsTest(c[j - 1]) && c[j].Jmp?
  }

  lemma Follow(h: Host, K: seq<Value>, c: Code, end: nat, lt: int, g: Seg, T: set<int>, F: set<int>, fall: Fall,
               x: Expr, ex: int, K': seq<Value>, c': Code, Q: set<int>, end': nat, r: Regs) returns (e: Exit)
    requires Frame(c, end, lt, g, T, F) && Means(h, K, c, end, g, T, F, fall, x, ex, r)
    requires K <= K' && end <= end' <= |c'|
    requires forall i :: g.s <= i < end ==> Alike(c, c', T + F, i) && (i in Q ==> i in T + F)
    ensures Agrees(h, K, c, g, T, fall, x, ex, r, e) && (e.Via? ==> Own(c, end, g, T + F, e.j))
    ensures Replay(h, K', c', Q, end', g.s, r, end, e)
  {
    var P := T + F;
    e := Exec(h, K, c, P, end, g.s, r);
    Continue(h, K, c, P, K', c', P + Q, Q, g.s, end, end', lt, r);
    if e.Via? {
      ViaInside(h, K, c, P, g.s, end, lt, g.s, r);
    }
  }

  lemma NoExits()
    ensures var none: set<int> := {}; none + none == none
  {
  }

  lemma ExecOne(h: Host, K: seq<Value>, c: Code, P: set<int>, pc: nat, r: Regs, r': Regs)
    requires pc == |c| - 1 && Step(h, K, c, P, pc, r) == Next(pc + 1, r')
    ensures Exec(h, K, c, P, |c|, pc, r) == AtEnd(r')
  {
  }

  // ---------------------------------------------------------------------------------------------
  // Landing a value in a register

  /** From end on, c' puts the value described by k in reg and stops. */
  ghost predicate Lands(h: Host, K: seq<Value>, c: Code, k: Kind, K': seq<Value>, c': Code, P: set<int>, end: nat,
                        reg: Reg) {
    end <= |c'| && forall r: Regs :: Exec(h, K', c', P, |c'|, end, r) == AtEnd(r[reg := KindValue(K, c, k, r)])
  }

  /** Instructions appended after the segment put its value in reg. */
  lemma Landed(h: Host, K: seq<Value>, c: Code, end: nat, lt: int, g: Seg, T: set<int>, F: set<int>, k: Kind, x: Expr,
               K': seq<Value>, c': Code, reg: Reg)
    requires Sem(h, K, c, end, lt, g, T, F, Holding(k), x, -1)
    requires K <= K' && end <= |c'| && c[..end] == c'[..end] && Shape(c', T + F, end, |c'|, lt)
    requires Lands(h, K, c, k, K', c', T + F, end, reg)
    ensures Sem(h, K', c', |c'|, lt, g, T, F, Holding(VNonReloc(reg)), x, reg)
    ensures Before(c, c', g, -1)
  {
    assert forall i :: 0 <= i < end ==> c'[i] == c'[..end][i] == c[..end][i] == c[i];
    ShapeExtend(c, T + F, c', g.s, end, lt, lt);
    forall r: Regs | Pre(c', g, r)
      ensures Means(h, K', c', |c'|, g, T, F, Holding(VNonReloc(reg)), x, reg, r)
    {
      PreBack(c, c', g, -1, r);
      assert Means(h, K, c, end, g, T, F, Holding(k), x, -1, r);
      var e := Follow(h, K, c, end, lt, g, T, F, Holding(k), x, -1, K', c', T + F, |c'|, r);
      LandedAgrees(h, K, c, end, g, T, T + F, k, x, K', c', reg, r, e);
    }
  }

  function LandedTo(K: seq<Value>, c: Code, k: Kind, reg: Reg, e: Exit): Exit {
    if e.AtEnd? then AtEnd(e.r[reg := KindValue(K, c, k, e.r)]) else e
  }

  lemma LandedAgrees(h: Host, K: seq<Value>, c: Code, end: nat, g: Seg, T: set<int>, S: set<int>, k: Kind, x: Expr,
                     K': seq<Value>, c': Code, reg: Reg, r: Regs, e: Exit)
    requires Agrees(h, K, c, g, T, Holding(k), x, -1, r, e) && end <= |c| && (e.Via? ==> Own(c, end, g, S, e.j))
    requires end <= |c'| && c[..end] == c'[..end]
    ensures Agrees(h, K', c', g, T, Holding(VNonReloc(reg)), x, reg, r, LandedTo(K, c, k, reg, e))
  {
    if e.Via? { assert c'[e.j - 1] == c'[..end][e.j - 1] == c[..end][e.j - 1]; }
  }

  /** The code ends in a LOADNIL that is widened to reg and to nothing else. */
  ghost predicate WidensTo(c: Code, c': Code, lt: int, reg: Reg) {
    && 0 < |c| && lt < |c| && |c'| == |c|
    && (forall i :: 0 <= i < |c| - 1 ==> c'[i] == c[i])
    && Wider(c[|c| - 1], c'[|c| - 1], 256, reg) && Clears(c'[|c| - 1], reg)
  }

  /** nil, by widening the LOADNIL the code already ends in. */
  lemma Merged(h: Host, K: seq<Value>, c: Code, lt: int, g: Seg, T: set<int>, F: set<int>, x: Expr, c': Code, reg: Reg)
    requires Sem(h, K, c, |c|, lt, g, T, F, Holding(VNil), x, -1) && g.fr <= 256
    requires WidensTo(c, c', lt, reg)
    ensures Sem(h, K, c', |c'|, lt, g, T, F, Holding(VNonReloc(reg)), x, reg)
    ensures Before(c, c', g, Edge(VNil, |c|, g, reg))
  {
    assert Wider(c[|c| - 1], c'[|c| - 1], g.fr, reg);
    forall i | g.s <= i < |c'| ensures Neat(c', T + F, |c'|, lt, i) {
      assert Neat(c, T + F, |c|, lt, i);
    }
    forall r: Regs | Pre(c', g, r)
      ensures Means(h, K, c', |c'|, g, T, F, Holding(VNonReloc(reg)), x, reg, r)
    {
      PreBack(c, c', g, Edge(VNil, |c|, g, reg), r);
      assert Means(h, K, c, |c|, g, T, F, Holding(VNil), x, -1, r);
      MergedAt(h, K, c, lt, g, T, F, x, c', reg, r);
    }
  }

  lemma MergedAt(h: Host, K: seq<Value>, c: Code, lt: int, g: Seg, T: set<int>, F: set<int>, x: Expr, c': Code,
                 reg: Reg, r: Regs)
    requires Frame(c, |c|, lt, g, T, F) && g.fr <= 256
    requires WidensTo(c, c', lt, reg) && Pre(c', g, r)
    requires Means(h, K, c, |c|, g, T, F, Holding(VNil), x, -1, r)
    ensures Means(h, K, c', |c'|, g, T, F, Holding(VNonReloc(reg)), x, reg, r)
  {
    if g.s < |c| {
      var g' := Seg(|c|, lt, 256);
      assert Before(c, c', g', reg);
      Prefix(h, K, c, T + F, K, c', T + F, g', reg, g.s, g.s, r);
      var e := Exec(h, K, c, T + F, |c|, g.s, r);
      if e.Via? { ViaInside(h, K, c, T + F, g.s, |c|, lt, g.s, r); }
      MergedAgrees(h, K, c, g, T, T + F, x, c', reg, r, e, Exec(h, K, c', T + F, |c|, g.s, r));
    }
  }

  lemma MergedAgrees(h: Host, K: seq<Value>, c: Code, g: Seg, T: set<int>, S: set<int>, x: Expr, c': Code, reg: Reg,
                     r: Regs, e: Exit, e': Exit)
    requires Agrees(h, K, c, g, T, Holding(VNil), x, -1, r, e) && (e.Via? ==> Own(c, |c|, g, S, e.j))
    requires |c'| == |c| && (forall i :: 0 <= i < |c| - 1 ==> c'[i] == c[i]) && g.fr <= 256
    requires if e.AtEnd? then e'.AtEnd? && Keep(e.r, e'.r, 256, reg) && e'.r[reg] == Nil else e' == e
    ensures Agrees(h, K, c', g, T, Holding(VNonReloc(reg)), x, reg, r, e')
  {
  }

  // ---------------------------------------------------------------------------------------------
  // Relinking

  /** Links of pending jumps are not observable. */
  lemma RelinkSem(h: Host, K: seq<Value>, c: Code, end: nat, lt: int, g: Seg, T: set<int>, F: set<int>, fall: Fall,
                  x: Expr, ex: int, c': Code)
    requires Sem(h, K, c, end, lt, g, T, F, fall, x, ex) && Relinked(c, c', T + F)
    ensures Sem(h, K, c', end, lt, g, T, F, fall, x, ex)
    ensures Before(c, c', g, -1)
  {
    RelinkShape(c, end, lt, g, T, F, c');
    forall r: Regs | Pre(c', g, r) ensures Means(h, K, c', end, g, T, F, fall, x, ex, r) {
      PreBack(c, c', g, -1, r);
      assert Means(h, K, c, end, g, T, F, fall, x, ex, r);
      RelinkAt(h, K, c, end, lt, g, T, F, fall, x, ex, c', r);
    }
  }

  lemma RelinkShape(c: Code, end: nat, lt: int, g: Seg, T: set<int>, F: set<int>, c': Code)
    requires Frame(c, end, lt, g, T, F) && Relinked(c, c', T + F)
    ensures Frame(c', end, lt, g, T, F)
    ensures forall i :: 0 <= i < |c| ==> Alike(c, c', T + F, i)
    ensures Before(c, c', g, -1)
  {
    ShapeAlike(c, T + F, c', T + F, g.s, end, lt, lt);
  }

  lemma RelinkAgrees(h: Host, K: seq<Value>, c: Code, end: nat, lt: int, g: Seg, T: set<int>, F: set<int>, fall: Fall,
                     x: Expr, ex: int, c': Code, r: Regs, e: Exit)
    requires Frame(c, end, lt, g, T, F) && Relinked(c, c', T + F)
    requires Agrees(h, K, c, g, T, fall, x, ex, r, e) && (e.Via? ==> Own(c, end, g, T + F, e.j))
    ensures Agrees(h, K, c', g, T, fall, x, ex, r, e)
  {
  }

  lemma RelinkAt(h: Host, K: seq<Value>, c: Code, end: nat, lt: int, g: Seg, T: set<int>, F: set<int>, fall: Fall,
                 x: Expr, ex: int, c': Code, r: Regs)
    requires Frame(c, end, lt, g, T, F) && Means(h, K, c, end, g, T, F, fall, x, ex, r)
    requires Relinked(c, c', T + F)
    ensures Means(h, K, c', end, g, T, F, fall, x, ex, r)
  {
    RelinkShape(c, end, lt, g, T, F, c');
    var e := Follow(h, K, c, end, lt, g, T, F, fall, x, ex, K, c', T + F, end, r);
    assert Exec(h, K, c', T + F, end, g.s, r) == e;
    RelinkAgrees(h, K, c, end, lt, g, T, F, fall, x, ex, c', r, e);
  }

  // ---------------------------------------------------------------------------------------------
  // Merging the exits of an expression into its register (the tail of exp2reg)

  /** The code after exp2reg patched both lists, with the two boolean loads when a jump needs them;
      `jump` says that the descriptor was a comparison. */
  ghost predicate Final(c: Code, c': Code, T: set<int>, F: set<int>, reg: Reg, jump: bool, need: bool) {
    var n, fin := |c|, |c'|;
    var pf := n + (if jump then 0 else 1);
    && fin == n + (if !need then 0 else if jump then 2 else 3)
    && FinalHead(c, c', T, F, reg, fin, pf)
    && (need ==> c'[pf] == LFalseSkip(reg) && c'[pf + 1] == LoadTrue(reg) && (!jump ==> c'[n] == Jmp(2)))
    && (!need ==> !jump && forall j :: j in T + F ==> 0 < j <= n && c[j - 1].TestSet?)
  }

  /** Every jump of the lists goes to the end with its value in reg, or to the load of its boolean at pf. */
  ghost predicate FinalHead(c: Code, c': Code, T: set<int>, F: set<int>, reg: Reg, fin: int, pf: int) {
    && |c| <= |c'|
    && forall i {:trigger c'[i]} {:trigger c[i]} :: 0 <= i < |c| ==>
         c'[i] ==
         if i in T + F then Jmp((if i > 0 && c[i - 1].TestSet? then fin else if i in T then pf + 1 else pf) - (i + 1))
         else if i + 1 in T + F && c[i].TestSet? then Retarget(c[i], reg)
         else c[i]
  }

  lemma Settled(h: Host, K: seq<Value>, c: Code, lt: int, g: Seg, T: set<int>, F: set<int>, k: Kind, reg: Reg, x: Expr,
                c': Code, need: bool)
    requires Sem(h, K, c, |c|, lt, g, T, F, Holding(k), x, reg)
    requires k == VNonReloc(reg) || k.VJmp?
    requires Final(c, c', T, F, reg, k.VJmp?, need) && reg != NO_REG
    ensures Sem(h, K, c', |c'|, |c'|, g, {}, {}, Holding(VNonReloc(reg)), x, reg)
    ensures Before(c, c', g, -1)
  {
    SettledShape(c, lt, g, T, F, reg, k.VJmp?, c', need);
    NoExits();
    forall r: Regs | Pre(c', g, r) ensures Means(h, K, c', |c'|, g, {}, {}, Holding(VNonReloc(reg)), x, reg, r) {
      PreBack(c, c', g, -1, r);
      assert Means(h, K, c, |c|, g, T, F, Holding(k), x, reg, r);
      SettledAt(h, K, c, lt, g, T, F, k, reg, x, c', need, r);
    }
  }

  lemma SettledShape(c: Code, lt: int, g: Seg, T: set<int>, F: set<int>, reg: Reg, jump: bool, c': Code, need: bool)
    requires Frame(c, |c|, lt, g, T, F) && Final(c, c', T, F, reg, jump, need)
    ensures forall i :: 0 <= i < |c| ==> Alike(c, c', T + F, i)
    ensures Frame(c', |c'|, |c'|, g, {}, {})
    ensures Before(c, c', g, -1)
  {
    forall i | 0 <= i < |c| ensures Alike(c, c', T + F, i) {
    }
    forall i | g.s <= i < |c'| ensures Neat(c', {}, |c'|, |c'|, i) {
      if i < |c| {
        assert Neat(c, T + F, |c|, lt, i) && Alike(c, c', T + F, i);
        if i + 1 < |c| { assert Alike(c, c', T + F, i + 1); }
      }
    }
    assert Shape(c', {} + {}, g.s, |c'|, |c'|) by { NoExits(); }
  }

  lemma SettledTail(h: Host, K: seq<Value>, c: Code, T: set<int>, F: set<int>, reg: Reg, jump: bool, c': Code,
                    need: bool, r: Regs)
    requires Final(c, c', T, F, reg, jump, need)
    ensures Exec(h, K, c', {}, |c'|, |c'|, r) == AtEnd(r)
    ensures var pf := |c| + (if jump then 0 else 1);
            need ==> Exec(h, K, c', {}, |c'|, pf, r) == AtEnd(r[reg := False])
                     && Exec(h, K, c', {}, |c'|, pf + 1, r) == AtEnd(r[reg := True])
    ensures Exec(h, K, c', {}, |c'|, |c|, r) == AtEnd(if jump then r[reg := False] else r)
  {
    var pf := |c| + (if jump then 0 else 1);
    if need {
      assert Step(h, K, c', {}, pf, r) == Next(pf + 2, r[reg := False]);
      assert Step(h, K, c', {}, pf + 1, r) == Next(pf + 2, r[reg := True]);
      if !jump {
        assert Step(h, K, c', {}, |c|, r) == Next(|c| + 3, r);
      }
    }
  }

  lemma SettledAt(h: Host, K: seq<Value>, c: Code, lt: int, g: Seg, T: set<int>, F: set<int>, k: Kind, reg: Reg,
                  x: Expr, c': Code, need: bool, r: Regs)
    requires Frame(c, |c|, lt, g, T, F) && Means(h, K, c, |c|, g, T, F, Holding(k), x, reg, r)
    requires k == VNonReloc(reg) || k.VJmp?
    requires Final(c, c', T, F, reg, k.VJmp?, need) && reg != NO_REG
    ensures Means(h, K, c', |c'|, g, {}, {}, Holding(VNonReloc(reg)), x, reg, r)
  {
    SettledShape(c, lt, g, T, F, reg, k.VJmp?, c', need);
    NoExits();
    var e := Follow(h, K, c, |c|, lt, g, T, F, Holding(k), x, reg, K, c', {}, |c'|, r);
    SettledRun(h, K, c, g, T, F, k.VJmp?, reg, c', need, r, e);
    SettledAgrees(h, K, c, g, T, k, reg, x, c', r, e);
  }

  /** How a run of the unpatched code ends once it is patched. */
  function SettledTo(c: Code, T: set<int>, jump: bool, reg: Reg, e: Exit): Exit {
    match e
    case AtEnd(r') => AtEnd(if jump then r'[reg := False] else r')
    case Via(j, r') =>
      if 1 <= j <= |c| && c[j - 1].TestSet? then AtEnd(r'[reg := r'[c[j - 1].b]]) else AtEnd(r'[reg := Bool(j in T)])
    case Raised(_, _, _) => e
    case Stuck => Stuck
  }

  lemma SettledAgrees(h: Host, K: seq<Value>, c: Code, g: Seg, T: set<int>, k: Kind, reg: Reg, x: Expr, c': Code,
                      r: Regs, e: Exit)
    requires Agrees(h, K, c, g, T, Holding(k), x, reg, r, e)
    requires k == VNonReloc(reg) || k.VJmp?
    ensures Agrees(h, K, c', g, {}, Holding(VNonReloc(reg)), x, reg, r, SettledTo(c, T, k.VJmp?, reg, e))
  {
  }

  lemma SettledRun(h: Host, K: seq<Value>, c: Code, g: Seg, T: set<int>, F: set<int>, jump: bool, reg: Reg,
                   c': Code, need: bool, r: Regs, e: Exit)
    requires forall j :: j in T + F ==> 0 <= j < |c| && c[j].Jmp?
    requires e.Via? ==> Own(c, |c|, g, T + F, e.j)
    requires Final(c, c', T, F, reg, jump, need) && reg != NO_REG
    requires Replay(h, K, c', {}, |c'|, g.s, r, |c|, e)
    ensures Exec(h, K, c', {}, |c'|, g.s, r) == SettledTo(c, T, jump, reg, e)
  {
    match e
    case AtEnd(r') => SettledTail(h, K, c, T, F, reg, jump, c', need, r');
    case Via(j, r') =>
      SettledVia(c, T, F, reg, jump, c', need, j, r');
      SettledTail(h, K, c, T, F, reg, jump, c', need, Arrive(c', j, r'));
    case Raised(_, _, _) =>
  }

  lemma SettledVia(c: Code, T: set<int>, F: set<int>, reg: Reg, jump: bool, c': Code, need: bool, j: int, r: Regs)
    requires Final(c, c', T, F, reg, jump, need) && reg != NO_REG
    requires j in T + F && 0 < j < |c| && IsTest(c[j - 1]) && c[j].Jmp? && j - 1 !in T + F
    ensures var pf := |c| + (if jump then 0 else 1);
            if c[j - 1].TestSet? then
              && Target(c', j) == |c'|
              && Arrive(c', j, r) == r[reg := r[c[j - 1].b]]
            else
              need && Target(c', j) == (if j in T then pf + 1 else pf) && Arrive(c', j, r) == r
  {
  }

  // ---------------------------------------------------------------------------------------------
  // Conditions

  /** Falling through after a comparison means false; a constant says for itself. */
  lemma Weaken(h: Host, K: seq<Value>, c: Code, end: nat, lt: int, g: Seg, T: set<int>, F: set<int>, k: Kind,
               x: Expr, sense: bool)
    requires Sem(h, K, c, end, lt, g, T, F, Holding(k), x, -1)
    requires forall r: Regs :: Truthy(KindValue(K, c, k, r)) == sense
    ensures Sem(h, K, c, end, lt, g, T, F, Known(sense), x, -1)
  {
    forall r: Regs | Pre(c, g, r) ensures Means(h, K, c, end, g, T, F, Known(sense), x, -1, r) {
      assert Means(h, K, c, end, g, T, F, Holding(k), x, -1, r);
    }
  }

  /** Writing a temporary is no exception to what is kept. */
  lemma DropException(h: Host, K: seq<Value>, c: Code, end: nat, lt: int, g: Seg, T: set<int>, F: set<int>,
                      fall: Fall, x: Expr, ex: int)
    requires Sem(h, K, c, end, lt, g, T, F, fall, x, ex) && ex >= g.fr
    ensures Sem(h, K, c, end, lt, g, T, F, fall, x, -1)
  {
    forall r: Regs | Pre(c, g, r) ensures Means(h, K, c, end, g, T, F, fall, x, -1, r) {
      assert Means(h, K, c, end, g, T, F, fall, x, ex, r);
    }
  }

  lemma AddException(h: Host, K: seq<Value>, c: Code, end: nat, lt: int, g: Seg, T: set<int>, F: set<int>,
                     fall: Fall, x: Expr, ex: int)
    requires Sem(h, K, c, end, lt, g, T, F, fall, x, -1)
    ensures Sem(h, K, c, end, lt, g, T, F, fall, x, ex)
  {
    forall r: Regs | Pre(c, g, r) ensures Means(h, K, c, end, g, T, F, fall, x, ex, r) {
      assert Means(h, K, c, end, g, T, F, fall, x, -1, r);
    }
  }

  function Flipped(p: int, e: Exit): Exit {
    match e
    case AtEnd(r') => Via(p, r')
    case Via(j, r') => if j == p then AtEnd(r') else e
    case Raised(_, _, _) => e
    case Stuck => e
  }

  lemma {:induction false} FlipExec(h: Host, K: seq<Value>, c: Code, P: set<int>, lt: int, p: nat, c': Code, s: nat,
                                    pc: nat, r: Regs)
    requires s <= pc < p == |c| - 1 && lt < p && p in P
    requires Shape(c, P, s, |c|, lt) && c[p].Jmp? && c[p - 1].Branch?
    requires c' == c[p - 1 := Branch(c[p - 1].cond, !c[p - 1].k)]
    requires Exec(h, K, c, P, |c|, pc, r) != Stuck
    ensures Exec(h, K, c', P, |c|, pc, r) == Flipped(p, Exec(h, K, c, P, |c|, pc, r))
    decreases p - pc
  {
    assert Neat(c, P, |c|, lt, pc) && Neat(c, P, |c|, lt, pc + 1);
    if pc < p - 1 {
      var st := Step(h, K, c, P, pc, r);
      assert Step(h, K, c', P, pc, r) == st;
      if st.Next? {
        FlipExec(h, K, c, P, lt, p, c', s, st.pc, st.r);
      }
    }
  }

  /** negatecondition: the comparison now jumps when it is false. */
  lemma Negated(h: Host, K: seq<Value>, c: Code, lt: int, g: Seg, T: set<int>, F: set<int>, p: nat, x: Expr, c': Code)
    requires Sem(h, K, c, |c|, lt, g, T + {p}, F, Holding(VJmp(p)), x, -1)
    requires g.s < p == |c| - 1 && lt < p && c[p - 1].Branch? && p !in T + F
    requires c' == c[p - 1 := Branch(c[p - 1].cond, !c[p - 1].k)]
    ensures Sem(h, K, c', |c'|, lt, g, T, F + {p}, Holding(VTrue), x, -1)
    ensures Before(c, c', g, -1)
  {
    var P := T + {p} + F;
    assert T + (F + {p}) == P;
    forall i | g.s <= i < |c'| ensures Neat(c', P, |c'|, lt, i) {
      assert Neat(c, P, |c|, lt, i);
    }
    forall r: Regs | Pre(c', g, r) ensures Means(h, K, c', |c'|, g, T, F + {p}, Holding(VTrue), x, -1, r) {
      PreBack(c, c', g, -1, r);
      assert Means(h, K, c, |c|, g, T + {p}, F, Holding(VJmp(p)), x, -1, r);
      var e := Exec(h, K, c, P, |c|, g.s, r);
      if e.Via? { ViaInside(h, K, c, P, g.s, |c|, lt, g.s, r); }
      FlipExec(h, K, c, P, lt, p, c', g.s, g.s, r);
      NegatedAgrees(h, K, c, g, T, p, x, c', r, e);
    }
  }

  lemma NegatedAgrees(h: Host, K: seq<Value>, c: Code, g: Seg, T: set<int>, p: nat, x: Expr, c': Code, r: Regs, e: Exit)
    requires Agrees(h, K, c, g, T + {p}, Holding(VJmp(p)), x, -1, r, e)
    requires 0 < p < |c| && c[p - 1].Branch? && p !in T
    requires c' == c[p - 1 := Branch(c[p - 1].cond, !c[p - 1].k)]
    ensures Agrees(h, K, c', g, T, Holding(VTrue), x, -1, r, Flipped(p, e))
  {
  }

  /** The code after jumponcond: a test of the value, and its jump. */
  ghost predicate Conditional(c: Code, end: nat, k: Kind, cond: bool, c': Code) {
    && end <= |c| && |c'| == end + 2 && c'[..end] == c[..end] && c'[end + 1] == Jmp(NO_JUMP)
    && match k
       case VNonReloc(q) => c'[end] == TestSet(NO_REG, q, cond)
       case VReloc(p) => p == end < |c| && c[p].NotOp? && c'[end] == Branch(CTest(c[p].b), !cond)
       case _ => false
  }

  lemma Tested(h: Host, K: seq<Value>, c: Code, end: nat, lt: int, g: Seg, T: set<int>, F: set<int>, k: Kind, x: Expr,
               cond: bool, c': Code, T': set<int>, F': set<int>)
    requires Sem(h, K, c, end, lt, g, T, F, Holding(k), x, -1) && Conditional(c, end, k, cond, c')
    requires T' == (if cond then T + {end + 1} else T) && F' == (if cond then F else F + {end + 1})
    ensures Sem(h, K, c', |c'|, lt, g, T', F', Known(!cond), x, -1)
    ensures Before(c, c', g, -1)
  {
    TestedFrame(c, end, lt, g, T, F, k, cond, c', T', F');
    forall r: Regs | Pre(c', g, r) ensures Means(h, K, c', |c'|, g, T', F', Known(!cond), x, -1, r) {
      PreBack(c, c', g, -1, r);
      assert Means(h, K, c, end, g, T, F, Holding(k), x, -1, r);
      var e := Follow(h, K, c, end, lt, g, T, F, Holding(k), x, -1, K, c', T' + F', |c'|, r);
      TestedRun(h, K, c, end, k, cond, c', T' + F', e);
      TestedAgrees(h, K, c, end, g, T, T + F, k, x, cond, c', T', r, e);
    }
  }

  lemma TestedFrame(c: Code, end: nat, lt: int, g: Seg, T: set<int>, F: set<int>, k: Kind, cond: bool, c': Code,
                    T': set<int>, F': set<int>)
    requires Frame(c, end, lt, g, T, F) && Conditional(c, end, k, cond, c')
    requires T' == (if cond then T + {end + 1} else T) && F' == (if cond then F else F + {end + 1})
    ensures Frame(c', |c'|, lt, g, T', F')
    ensures forall i :: g.s <= i < end ==> Alike(c, c', T + F, i) && (i in T' + F' <==> i in T + F)
    ensures Before(c, c', g, -1)
  {
    assert forall i :: 0 <= i < end ==> c'[i] == c'[..end][i] == c[..end][i] == c[i];
    forall i | g.s <= i < |c'| ensures Neat(c', T' + F', |c'|, lt, i) {
      if i < end { assert Neat(c, T + F, end, lt, i); }
    }
  }

  function TestedTo(c: Code, end: nat, k: Kind, cond: bool, e: Exit): Exit {
    match e
    case AtEnd(r') => if Truthy(KindValue([], c, k, r')) == cond then Via(end + 1, r') else AtEnd(r')
    case Via(_, _) => e
    case Raised(_, _, _) => e
    case Stuck => e
  }

  lemma TestedRun(h: Host, K: seq<Value>, c: Code, end: nat, k: Kind, cond: bool, c': Code, Q: set<int>, e: Exit)
    requires Conditional(c, end, k, cond, c') && end + 1 in Q
    ensures e.AtEnd? ==> Exec(h, K, c', Q, |c'|, end, e.r) == TestedTo(c, end, k, cond, e)
  {
    if e.AtEnd? {
      var t := Truthy(KindValue([], c, k, e.r)) == cond;
      assert Step(h, K, c', Q, end, e.r) == if t then Leave(end + 1, e.r) else Next(end + 2, e.r);
    }
  }

  lemma TestedAgrees(h: Host, K: seq<Value>, c: Code, end: nat, g: Seg, T: set<int>, S: set<int>, k: Kind, x: Expr,
                     cond: bool, c': Code, T': set<int>, r: Regs, e: Exit)
    requires Conditional(c, end, k, cond, c') && T <= S
    requires Agrees(h, K, c, g, T, Holding(k), x, -1, r, e) && (e.Via? ==> Own(c, end, g, S, e.j))
    requires T' == (if cond then T + {end + 1} else T) && end + 1 !in T
    ensures Agrees(h, K, c', g, T', Known(!cond), x, -1, r, TestedTo(c, end, k, cond, e))
  {
    assert forall i :: 0 <= i < end ==> c'[i] == c'[..end][i] == c[..end][i] == c[i];
  }

  /** patchtohere: one list of exits joins the fall-through. */
  lemma PatchedHere(h: Host, K: seq<Value>, c: Code, lt: int, g: Seg, T: set<int>, F: set<int>, x: Expr, sense: bool,
                    c': Code)
    requires Sem(h, K, c, |c|, lt, g, T, F, Known(sense), x, -1)
    requires Patched(c, c', if sense then T else F, |c|, NO_REG, |c|)
    ensures Sem(h, K, c', |c'|, |c'|, g, if sense then {} else T, if sense then F else {}, Known(sense), x, -1)
    ensures Before(c, c', g, -1)
  {
    var S := if sense then T else F;
    var T' := if sense then {} else T;
    var F' := if sense then F else {};
    PatchedFrame(c, lt, g, T, F, S, T', F', c');
    forall r: Regs | Pre(c', g, r) ensures Means(h, K, c', |c'|, g, T', F', Known(sense), x, -1, r) {
      PreBack(c, c', g, -1, r);
      assert Means(h, K, c, |c|, g, T, F, Known(sense), x, -1, r);
      var e := Follow(h, K, c, |c|, lt, g, T, F, Known(sense), x, -1, K, c', T' + F', |c'|, r);
      PatchedRun(h, K, c, g, T, F, S, T' + F', c', e);
      PatchedAgrees(h, K, c, lt, g, T, F, S, T', x, sense, c', r, e);
    }
  }

  lemma PatchedFrame(c: Code, lt: int, g: Seg, T: set<int>, F: set<int>, S: set<int>, T': set<int>, F': set<int>,
                     c': Code)
    requires Frame(c, |c|, lt, g, T, F) && Patched(c, c', S, |c|, NO_REG, |c|)
    requires (S == T && T' == {} && F' == F) || (S == F && F' == {} && T' == T)
    ensures Frame(c', |c'|, |c'|, g, T', F')
    ensures forall i :: 0 <= i < |c| ==> Alike(c, c', T + F, i)
    ensures Before(c, c', g, -1)
  {
    ShapeAlike(c, T + F, c', T' + F', g.s, |c|, lt, |c|);
  }

  function PatchedTo(S: set<int>, e: Exit): Exit {
    if e.Via? && e.j in S then AtEnd(e.r) else e
  }

  lemma PatchedRun(h: Host, K: seq<Value>, c: Code, g: Seg, T: set<int>, F: set<int>, S: set<int>, Q: set<int>,
                   c': Code, e: Exit)
    requires Exits(c, |c|, g.s, T + F) && S <= T + F && Patched(c, c', S, |c|, NO_REG, |c|)
    ensures e.Via? && e.j in S ==> Resume(h, K, c', Q, |c'|, e.j, e.r) == PatchedTo(S, e)
  {
    if e.Via? && e.j in S {
      assert c'[e.j].Jmp? && !c'[e.j - 1].TestSet?;
    }
  }

  lemma PatchedAgrees(h: Host, K: seq<Value>, c: Code, lt: int, g: Seg, T: set<int>, F: set<int>, S: set<int>,
                      T': set<int>, x: Expr, sense: bool, c': Code, r: Regs, e: Exit)
    requires Frame(c, |c|, lt, g, T, F) && Patched(c, c', S, |c|, NO_REG, |c|)
    requires S == (if sense then T else F) && T' == (if sense then {} else T)
    requires Agrees(h, K, c, g, T, Known(sense), x, -1, r, e) && (e.Via? ==> Own(c, |c|, g, T + F, e.j))
    ensures Agrees(h, K, c', g, T', Known(sense), x, -1, r, PatchedTo(S, e))
  {
    if e.Via? && e.j !in S {
      assert c'[e.j - 1] == c[e.j - 1];
    }
  }

  // ---------------------------------------------------------------------------------------------
  // Negation

  /** codenot: the exits trade places and lose their values. */
  lemma Inverted(h: Host, K: seq<Value>, c: Code, end: nat, lt: int, g: Seg, T: set<int>, F: set<int>, k: Kind, x: Expr,
                 c': Code, k': Kind, S: set<int>)
    requires Sem(h, K, c, end, lt, g, T, F, Holding(k), x, -1) && Unvalued(c, c', S)
    requires S <= T + F && forall j :: j in T + F && j !in S ==> !c[j - 1].TestSet?
    requires forall r: Regs :: KindValue(K, c', k', r) == Bool(!Truthy(KindValue(K, c, k, r)))
    ensures Sem(h, K, c', end, lt, g, F, T, Holding(k'), NotE(x), -1)
    ensures Before(c, c', g, -1)
  {
    InvertedFrame(c, end, lt, g, T, F, c', S);
    assert F + T == T + F;
    forall r: Regs | Pre(c', g, r) ensures Means(h, K, c', end, g, F, T, Holding(k'), NotE(x), -1, r) {
      PreBack(c, c', g, -1, r);
      assert Means(h, K, c, end, g, T, F, Holding(k), x, -1, r);
      var e := Follow(h, K, c, end, lt, g, T, F, Holding(k), x, -1, K, c', T + F, end, r);
      if e.AtEnd? { assert KindValue(K, c', k', e.r) == Bool(!Truthy(KindValue(K, c, k, e.r))); }
      InvertedAgrees(h, K, c, end, lt, g, T, F, k, x, c', k', S, r, e);
    }
  }

  lemma InvertedFrame(c: Code, end: nat, lt: int, g: Seg, T: set<int>, F: set<int>, c': Code, S: set<int>)
    requires Frame(c, end, lt, g, T, F) && Unvalued(c, c', S) && S <= T + F
    ensures Frame(c', end, lt, g, F, T)
    ensures forall i :: 0 <= i < |c| ==> Alike(c, c', T + F, i)
    ensures Before(c, c', g, -1)
  {
    assert F + T == T + F;
    ShapeAlike(c, T + F, c', T + F, g.s, end, lt, lt);
  }

  lemma InvertedAgrees(h: Host, K: seq<Value>, c: Code, end: nat, lt: int, g: Seg, T: set<int>, F: set<int>, k: Kind,
                       x: Expr, c': Code, k': Kind, S: set<int>, r: Regs, e: Exit)
    requires Frame(c, end, lt, g, T, F) && Unvalued(c, c', S)
    requires forall j :: j in T + F && j !in S ==> !c[j - 1].TestSet?
    requires Agrees(h, K, c, g, T, Holding(k), x, -1, r, e) && (e.Via? ==> Own(c, end, g, T + F, e.j))
    requires e.AtEnd? ==> KindValue(K, c', k', e.r) == Bool(!Truthy(KindValue(K, c, k, e.r)))
    ensures Agrees(h, K, c', g, F, Holding(k'), NotE(x), -1, r, e)
  {
    if e.Via? {
      assert !c'[e.j - 1].TestSet?;
    }
  }
}
