/**
 Putting the code of two operands together: short-circuit operators and comparisons.
 */
module Compose {
  import opened Options
  import opened Machine
  import opened Descriptor
  import opened Semantics

  /** Where the second operand's code begins, and that the first operand's code is still there. */
  ghost predicate After(K1: seq<Value>, c1: Code, lt1: int, g: Seg, K2: seq<Value>, c2: Code, g2: Seg) {
    && g2.s == |c1| && g2.lt == lt1 && g.fr <= g2.fr
    && K1 <= K2 && Before(c1, c2, g2, -1)
  }

  lemma AfterBefore(K1: seq<Value>, c1: Code, lt1: int, g: Seg, K2: seq<Value>, c2: Code, g2: Seg)
    requires After(K1, c1, lt1, g, K2, c2, g2) && g.s <= |c1| && g.lt <= lt1
    ensures Before(c1, c2, g, -1)
  {
    forall i | 0 <= i < g.s
      ensures c2[i] == c1[i] || (i == g.s - 1 && g.lt < g.s && Wider(c1[i], c2[i], g.fr, -1))
    {
      assert c2[i] == c1[i] || (i == g2.s - 1 && Wider(c1[i], c2[i], g2.fr, -1));
    }
  }

  /**
   A run of the first operand inside the finished code: if it falls through, the second
   operand's code starts in registers that still hold everything below its first free register.
   */
  lemma Enter(h: Host, K1: seq<Value>, c1: Code, lt1: int, g: Seg, T1: set<int>, F1: set<int>, fall: Fall, xa: Expr,
              K2: seq<Value>, c2: Code, end2: nat, g2: Seg, P: set<int>, r: Regs) returns (e: Exit, r1: Regs)
    requires Sem(h, K1, c1, |c1|, lt1, g, T1, F1, fall, xa, -1) && After(K1, c1, lt1, g, K2, c2, g2)
    requires |c1| <= end2 <= |c2| && Pre(c2, g, r)
    requires forall i :: g.s <= i < |c1| ==> (i in P <==> i in T1 + F1)
    ensures Agrees(h, K1, c1, g, T1, fall, xa, -1, r, e)
    ensures e.AtEnd? ==>
              && Keep(e.r, r1, g2.fr, -1) && Pre(c2, g2, r1)
              && Exec(h, K2, c2, P, end2, g.s, r) == Exec(h, K2, c2, P, end2, |c1|, r1)
    ensures e.Via? || e.Raised? ==> Exec(h, K2, c2, P, end2, g.s, r) == e
    ensures e.Via? ==> Own(c1, |c1|, g, T1 + F1, e.j) && c2[e.j - 1] == c1[e.j - 1] && e.j in P
  {
    AfterBefore(K1, c1, lt1, g, K2, c2, g2);
    PreBack(c1, c2, g, -1, r);
    assert Means(h, K1, c1, |c1|, g, T1, F1, fall, xa, -1, r);
    e := Exec(h, K1, c1, T1 + F1, |c1|, g.s, r);
    r1 := r;
    if g.s < |c1| {
      Prefix(h, K1, c1, T1 + F1, K2, c2, P, g2, -1, g.s, g.s, r);
      if e.AtEnd? {
        r1 := Exec(h, K2, c2, P, |c1|, g.s, r).r;
      }
      if e.Via? {
        ViaInside(h, K1, c1, T1 + F1, g.s, |c1|, lt1, g.s, r);
      }
      ExecJoin(h, K2, c2, P, P, |c1|, end2, g.s, r);
    }
  }

  lemma ComposeFrame(K1: seq<Value>, c1: Code, lt1: int, g: Seg, T1: set<int>, F1: set<int>,
                     K2: seq<Value>, c2: Code, end2: nat, lt2: int, g2: Seg, T2: set<int>, F2: set<int>)
    requires Frame(c1, |c1|, lt1, g, T1, F1) && After(K1, c1, lt1, g, K2, c2, g2)
    requires Frame(c2, end2, lt2, g2, T2, F2)
    ensures Frame(c2, end2, lt2, g, T1 + T2, F1 + F2)
  {
    var P := T1 + T2 + (F1 + F2);
    assert forall i :: 0 <= i < |c1| - 1 ==> c2[i] == c1[i];
    forall j | j in P ensures g.s < j < end2 && c2[j].Jmp? && IsTest(c2[j - 1]) {
      if j in T1 + F1 {
        assert g.s < j < |c1| && c1[j].Jmp? && IsTest(c1[j - 1]);
        assert c2[j] == c1[j] || Wider(c1[j], c2[j], g2.fr, -1);
      } else {
        assert j in T2 + F2;
      }
    }
    assert T1 + T2 !! F1 + F2 by {
      forall j | j in T1 + T2 ensures j !in F1 + F2 {
        assert j in T1 ==> j in T1 + F1;
        assert j in T2 ==> j in T2 + F2;
        assert j in F1 ==> j in T1 + F1;
        assert j in F2 ==> j in T2 + F2;
      }
    }
    forall i | g.s <= i < end2 ensures Neat(c2, P, end2, lt2, i) {
      if i < |c1| {
        assert Neat(c1, T1 + F1, |c1|, lt1, i);
        if i + 1 < |c1| { assert Neat(c1, T1 + F1, |c1|, lt1, i + 1); }
      } else {
        assert Neat(c2, T2 + F2, end2, lt2, i);
      }
    }
  }

  // ---------------------------------------------------------------------------------------------
  // and, or

  function Joined(sense: bool, xa: Expr, xb: Expr): Expr {
    if sense then And(xa, xb) else Or(xa, xb)
  }

  /** The first operand goes on when it is as `sense` says; the second gives the value. */
  lemma Circuit(h: Host, nvar: nat, K1: seq<Value>, c1: Code, lt1: int, g: Seg, S1: set<int>, xa: Expr, sense: bool,
                K2: seq<Value>, c2: Code, end2: nat, lt2: int, g2: Seg, T2: set<int>, F2: set<int>, k: Kind, xb: Expr)
    requires Sem(h, K1, c1, |c1|, lt1, g, if sense then {} else S1, if sense then S1 else {}, Known(sense), xa, -1)
    requires After(K1, c1, lt1, g, K2, c2, g2) && nvar <= g.fr && Closed(xb, nvar)
    requires Sem(h, K2, c2, end2, lt2, g2, T2, F2, Holding(k), xb, -1)
    ensures var T := if sense then T2 else T2 + S1;
            var F := if sense then F2 + S1 else F2;
            Sem(h, K2, c2, end2, lt2, g, T, F, Holding(k), Joined(sense, xa, xb), -1)
    ensures Before(c1, c2, g, -1)
  {
    var T1, F1 := if sense then {} else S1, if sense then S1 else {};
    var T := if sense then T2 else T2 + S1;
    var F := if sense then F2 + S1 else F2;
    assert T == T1 + T2 && F == F1 + F2;
    AfterBefore(K1, c1, lt1, g, K2, c2, g2);
    ComposeFrame(K1, c1, lt1, g, T1, F1, K2, c2, end2, lt2, g2, T2, F2);
    forall r: Regs | Pre(c2, g, r)
      ensures Means(h, K2, c2, end2, g, T, F, Holding(k), Joined(sense, xa, xb), -1, r)
    {
      CircuitAt(h, nvar, K1, c1, lt1, g, T1, F1, xa, sense, K2, c2, end2, lt2, g2, T2, F2, k, xb, r);
    }
  }

  lemma CircuitAt(h: Host, nvar: nat, K1: seq<Value>, c1: Code, lt1: int, g: Seg, T1: set<int>, F1: set<int>,
                  xa: Expr, sense: bool, K2: seq<Value>, c2: Code, end2: nat, lt2: int, g2: Seg, T2: set<int>,
                  F2: set<int>, k: Kind, xb: Expr, r: Regs)
    requires Sem(h, K1, c1, |c1|, lt1, g, T1, F1, Known(sense), xa, -1)
    requires if sense then T1 == {} else F1 == {}
    requires After(K1, c1, lt1, g, K2, c2, g2) && nvar <= g.fr && Closed(xb, nvar)
    requires Sem(h, K2, c2, end2, lt2, g2, T2, F2, Holding(k), xb, -1)
    requires Pre(c2, g, r)
    ensures Means(h, K2, c2, end2, g, T1 + T2, F1 + F2, Holding(k), Joined(sense, xa, xb), -1, r)
  {
    var P := T1 + T2 + (F1 + F2);
    ExitsApart(c1, lt1, g, T1, F1, c2, end2, lt2, g2, T2, F2);
    var e, r1 := Enter(h, K1, c1, lt1, g, T1, F1, Known(sense), xa, K2, c2, end2, g2, P, r);
    var e' := e;
    match e {
      case AtEnd(r') =>
        assert Means(h, K2, c2, end2, g2, T2, F2, Holding(k), xb, -1, r1);
        e' := SecondRun(h, K2, c2, end2, lt2, g2, T2, F2, Holding(k), xb, P, r1);
        CircuitThrough(h, nvar, g, xa, sense, K2, c2, g2, T1 + T2, T2, k, xb, r, r', r1, e');
      case Via(j, r') =>
        ViaAgrees(h, K1, c1, g, T1, F1, K2, c2, T2, F2, k, xa, xb, sense, r, e);
      case Raised(_, _, _) =>
    }
    assert e' == Exec(h, K2, c2, P, end2, g.s, r);
  }

  lemma ExitsApart(c1: Code, lt1: int, g: Seg, T1: set<int>, F1: set<int>,
                   c2: Code, end2: nat, lt2: int, g2: Seg, T2: set<int>, F2: set<int>)
    requires Frame(c1, |c1|, lt1, g, T1, F1) && Frame(c2, end2, lt2, g2, T2, F2) && g2.s == |c1|
    ensures var P := T1 + T2 + (F1 + F2);
            && (forall i :: g.s <= i < |c1| ==> (i in P <==> i in T1 + F1))
            && (forall i :: g2.s <= i < end2 ==> (i in P <==> i in T2 + F2) && (i in T1 + T2 <==> i in T2))
            && (forall i :: i in T1 + F1 ==> i !in T2)
  {
    forall i | i in T2 + F2 ensures |c1| < i { }
    forall i | i in T1 + F1 ensures i < |c1| { }
    assert forall i :: i in T2 ==> i in T2 + F2;
    assert forall i :: i in F2 ==> i in T2 + F2;
    assert forall i :: i in T1 ==> i in T1 + F1;
    assert forall i :: i in F1 ==> i in T1 + F1;
  }

  lemma CircuitThrough(h: Host, nvar: nat, g: Seg, xa: Expr, sense: bool, K2: seq<Value>, c2: Code, g2: Seg,
                       T: set<int>, T2: set<int>, k: Kind, xb: Expr, r: Regs, r': Regs, r1: Regs, e: Exit)
    requires Keep(r, r', g.fr, -1) && Keep(r', r1, g2.fr, -1) && g.fr <= g2.fr && nvar <= g.fr && Closed(xb, nvar)
    requires Coded(h, xa, r).Gives? && Truthy(Coded(h, xa, r).value) == sense
    requires Agrees(h, K2, c2, g2, T2, Holding(k), xb, -1, r1, e)
    requires e.Via? ==> (e.j in T <==> e.j in T2)
    ensures Agrees(h, K2, c2, g, T, Holding(k), Joined(sense, xa, xb), -1, r, e)
  {
    assert Keep(r, r1, g.fr, -1);
    EvalKeep(h, xb, nvar, r, r1);
    SecondAgrees(h, K2, c2, g, g2, T, T2, k, xb, Joined(sense, xa, xb), r, r1, e);
  }

  /** The second operand's run does not see the first operand's exits. */
  lemma SecondRun(h: Host, K: seq<Value>, c: Code, end: nat, lt: int, g: Seg, T: set<int>, F: set<int>, fall: Fall,
                  x: Expr, P: set<int>, r: Regs) returns (e: Exit)
    requires Frame(c, end, lt, g, T, F) && Means(h, K, c, end, g, T, F, fall, x, -1, r)
    requires forall i :: g.s <= i < end ==> (i in P <==> i in T + F)
    ensures e == Exec(h, K, c, P, end, g.s, r)
    ensures Agrees(h, K, c, g, T, fall, x, -1, r, e) && (e.Via? ==> g.s < e.j < end && e.j in T + F)
  {
    e := Exec(h, K, c, T + F, end, g.s, r);
    ExecAlike(h, K, c, T + F, K, c, P, g.s, end, lt, g.s, r);
    if e.Via? { ViaInside(h, K, c, T + F, g.s, end, lt, g.s, r); }
  }

  lemma SecondAgrees(h: Host, K: seq<Value>, c: Code, g: Seg, g2: Seg, T: set<int>, T2: set<int>, k: Kind, xb: Expr,
                     x: Expr, r: Regs, r1: Regs, e: Exit)
    requires Agrees(h, K, c, g2, T2, Holding(k), xb, -1, r1, e)
    requires g.fr <= g2.fr && Keep(r, r1, g.fr, -1) && Coded(h, x, r) == Coded(h, xb, r1)
    requires e.Via? ==> (e.j in T <==> e.j in T2)
    ensures Agrees(h, K, c, g, T, Holding(k), x, -1, r, e)
  {
  }

  lemma ViaAgrees(h: Host, K1: seq<Value>, c1: Code, g: Seg, T1: set<int>, F1: set<int>, K2: seq<Value>, c2: Code,
                  T2: set<int>, F2: set<int>, k: Kind, xa: Expr, xb: Expr, sense: bool, r: Regs, e: Exit)
    requires e.Via? && Agrees(h, K1, c1, g, T1, Known(sense), xa, -1, r, e)
    requires Own(c1, |c1|, g, T1 + F1, e.j) && e.j <= |c2| && c2[e.j - 1] == c1[e.j - 1]
    requires if sense then T1 == {} else F1 == {}
    requires e.j !in T2
    ensures Agrees(h, K2, c2, g, T1 + T2, Holding(k), Joined(sense, xa, xb), -1, r, e)
  {
  }

  // ---------------------------------------------------------------------------------------------
  // Comparisons

  /** A kind whose value survives code that keeps the registers below fr. */
  predicate Steady(k: Kind, fr: int) {
    IsConstKind(k) || (k.VNonReloc? && k.reg < fr)
  }

  /** A run after which both operands are available. */
  ghost predicate Both(h: Host, K: seq<Value>, c: Code, g: Seg, k1: Kind, k2: Kind, xa: Expr, xb: Expr, r: Regs,
                       e: Exit) {
    match e
    case AtEnd(r') =>
      && Keep(r, r', g.fr, -1)
      && Coded(h, xa, r) == Gives(KindValue(K, c, k1, r'))
      && Coded(h, xb, r) == Gives(KindValue(K, c, k2, r'))
    case Via(_, _) => false
    case Raised(_, r', call) =>
      Keep(r, r', g.fr, -1)
      && (Coded(h, xa, r) == Throws(call) || (Coded(h, xa, r).Gives? && Coded(h, xb, r) == Throws(call)))
    case Stuck => false
  }

  ghost predicate Two(h: Host, K: seq<Value>, c: Code, g: Seg, k1: Kind, k2: Kind, xa: Expr, xb: Expr, r: Regs)
    requires g.s <= |c|
  {
    Both(h, K, c, g, k1, k2, xa, xb, r, Exec(h, K, c, {}, |c|, g.s, r))
  }

  ghost predicate Twos(h: Host, K: seq<Value>, c: Code, lt: int, g: Seg, k1: Kind, k2: Kind, xa: Expr, xb: Expr) {
    (&& g.s <= |c| && g.lt <= lt <= |c|
     && Shape(c, {}, g.s, |c|, lt)
     && (k1.VK? ==> k1.kx < |K|) && (k2.VK? ==> k2.kx < |K|)
     && forall r: Regs :: Pre(c, g, r) ==> Two(h, K, c, g, k1, k2, xa, xb, r)) == true
  }

  lemma SteadyValue(K1: seq<Value>, c1: Code, K2: seq<Value>, c2: Code, k: Kind, fr: int, r: Regs, r': Regs)
    requires Steady(k, fr) && K1 <= K2 && (k.VK? ==> k.kx < |K1|) && Keep(r, r', fr, -1)
    ensures KindValue(K2, c2, k, r') == KindValue(K1, c1, k, r)
  {
  }

  lemma Paired(h: Host, nvar: nat, K1: seq<Value>, c1: Code, lt1: int, g: Seg, k1: Kind, xa: Expr,
               K2: seq<Value>, c2: Code, lt2: int, g2: Seg, k2: Kind, xb: Expr)
    requires Sem(h, K1, c1, |c1|, lt1, g, {}, {}, Holding(k1), xa, -1)
    requires After(K1, c1, lt1, g, K2, c2, g2) && nvar <= g.fr && Closed(xb, nvar)
    requires Steady(k1, g2.fr) && (k1.VK? ==> k1.kx < |K1|) && (k2.VK? ==> k2.kx < |K2|)
    requires Sem(h, K2, c2, |c2|, lt2, g2, {}, {}, Holding(k2), xb, -1)
    ensures Twos(h, K2, c2, lt2, g, k1, k2, xa, xb)
    ensures Before(c1, c2, g, -1)
  {
    NoExits();
    AfterBefore(K1, c1, lt1, g, K2, c2, g2);
    ComposeFrame(K1, c1, lt1, g, {}, {}, K2, c2, |c2|, lt2, g2, {}, {});
    forall r: Regs | Pre(c2, g, r) ensures Two(h, K2, c2, g, k1, k2, xa, xb, r) {
      var e, r1 := Enter(h, K1, c1, lt1, g, {}, {}, Holding(k1), xa, K2, c2, |c2|, g2, {}, r);
      if e.AtEnd? {
        assert Means(h, K2, c2, |c2|, g2, {}, {}, Holding(k2), xb, -1, r1);
        var e2 := SecondRun(h, K2, c2, |c2|, lt2, g2, {}, {}, Holding(k2), xb, {}, r1);
        EvalKeep(h, xb, nvar, r, r1);
        if e2.AtEnd? {
          SteadyValue(K1, c1, K2, c2, k1, g2.fr, e.r, e2.r);
        }
      }
    }
  }

  function ConstValue(K: seq<Value>, k: Kind): Value {
    KindValue(K, [], k, seq(256, i => Nil))
  }

  /** How two operands may be described after a constant v has been loaded into q. */
  ghost predicate Reloaded(K: seq<Value>, k1: Kind, k2: Kind, fr: int, v: Value, q: Reg, k1': Kind, k2': Kind) {
    && ((k1' == k1 && Steady(k1, fr)) || (IsConstKind(k1) && ConstValue(K, k1) == v && k1' == VNonReloc(q)))
    && ((k2' == k2 && Steady(k2, fr)) || (IsConstKind(k2) && ConstValue(K, k2) == v && k2' == VNonReloc(q)))
  }

  /** A constant operand is loaded into a register after both are available. */
  lemma PairLoaded(h: Host, K: seq<Value>, c: Code, lt: int, g: Seg, k1: Kind, k2: Kind, xa: Expr, xb: Expr,
                   K': seq<Value>, c': Code, lt': int, g': Seg, v: Value, q: Reg, k1': Kind, k2': Kind)
    requires Twos(h, K, c, lt, g, k1, k2, xa, xb) && After(K, c, lt, g, K', c', g')
    requires Reloaded(K, k1, k2, g'.fr, v, q, k1', k2')
    requires Sem(h, K', c', |c'|, lt', g', {}, {}, Holding(VNonReloc(q)), Const(v), -1)
    ensures Twos(h, K', c', lt', g, k1', k2', xa, xb)
    ensures Before(c, c', g, -1)
  {
    NoExits();
    AfterBefore(K, c, lt, g, K', c', g');
    ComposeFrame(K, c, lt, g, {}, {}, K', c', |c'|, lt', g', {}, {});
    forall r: Regs | Pre(c', g, r) ensures Two(h, K', c', g, k1', k2', xa, xb, r) {
      PreBack(c, c', g, -1, r);
      assert Two(h, K, c, g, k1, k2, xa, xb, r);
      PairLoadedAt(h, K, c, lt, g, k1, k2, xa, xb, K', c', lt', g', v, q, k1', k2', r);
    }
  }

  lemma PairLoadedAt(h: Host, K: seq<Value>, c: Code, lt: int, g: Seg, k1: Kind, k2: Kind, xa: Expr, xb: Expr,
                     K': seq<Value>, c': Code, lt': int, g': Seg, v: Value, q: Reg, k1': Kind, k2': Kind, r: Regs)
    requires Twos(h, K, c, lt, g, k1, k2, xa, xb) && After(K, c, lt, g, K', c', g')
    requires Reloaded(K, k1, k2, g'.fr, v, q, k1', k2')
    requires Sem(h, K', c', |c'|, lt', g', {}, {}, Holding(VNonReloc(q)), Const(v), -1)
    requires Two(h, K, c, g, k1, k2, xa, xb, r) && Pre(c', g, r)
    ensures Two(h, K', c', g, k1', k2', xa, xb, r)
  {
    var e, r1 := EnterTwo(h, K, c, lt, g, k1, k2, xa, xb, K', c', g', r);
    if e.AtEnd? {
      assert Means(h, K', c', |c'|, g', {}, {}, Holding(VNonReloc(q)), Const(v), -1, r1);
      var e2 := SecondRun(h, K', c', |c'|, lt', g', {}, {}, Holding(VNonReloc(q)), Const(v), {}, r1);
      PairLoadedBoth(h, K, c, g, k1, k2, xa, xb, K', c', g', v, q, k1', k2', r, e, r1, e2);
    }
  }

  lemma EnterTwo(h: Host, K: seq<Value>, c: Code, lt: int, g: Seg, k1: Kind, k2: Kind, xa: Expr, xb: Expr,
                 K': seq<Value>, c': Code, g': Seg, r: Regs) returns (e: Exit, r1: Regs)
    requires g.s <= |c| && g.lt <= lt && Shape(c, {}, g.s, |c|, lt)
    requires Two(h, K, c, g, k1, k2, xa, xb, r) && After(K, c, lt, g, K', c', g') && Pre(c', g, r)
    ensures Both(h, K, c, g, k1, k2, xa, xb, r, e)
    ensures e.AtEnd? ==> Keep(e.r, r1, g'.fr, -1) && Pre(c', g', r1)
                         && Exec(h, K', c', {}, |c'|, g.s, r) == Exec(h, K', c', {}, |c'|, |c|, r1)
    ensures e.Raised? ==> Exec(h, K', c', {}, |c'|, g.s, r) == e
  {
    e := Exec(h, K, c, {}, |c|, g.s, r);
    r1 := r;
    if g.s < |c| {
      Prefix(h, K, c, {}, K', c', {}, g', -1, g.s, g.s, r);
      if e.AtEnd? {
        r1 := Exec(h, K', c', {}, |c|, g.s, r).r;
      }
      ExecJoin(h, K', c', {}, {}, |c|, |c'|, g.s, r);
    }
  }

  lemma PairLoadedBoth(h: Host, K: seq<Value>, c: Code, g: Seg, k1: Kind, k2: Kind, xa: Expr, xb: Expr,
                       K': seq<Value>, c': Code, g': Seg, v: Value, q: Reg, k1': Kind, k2': Kind, r: Regs, e: Exit,
                       r1: Regs, e2: Exit)
    requires K <= K' && g.fr <= g'.fr && (k1.VK? ==> k1.kx < |K|) && (k2.VK? ==> k2.kx < |K|)
    requires Reloaded(K, k1, k2, g'.fr, v, q, k1', k2')
    requires Both(h, K, c, g, k1, k2, xa, xb, r, e) && e.AtEnd? && Keep(e.r, r1, g'.fr, -1)
    requires Agrees(h, K', c', g', {}, Holding(VNonReloc(q)), Const(v), -1, r1, e2)
    requires !e2.Via?
    ensures Both(h, K', c', g, k1', k2', xa, xb, r, e2)
  {
    if k1' == k1 && Steady(k1, g'.fr) { SteadyValue(K, c, K', c', k1, g'.fr, e.r, e2.r); }
    if k2' == k2 && Steady(k2, g'.fr) { SteadyValue(K, c, K', c', k2, g'.fr, e.r, e2.r); }
  }

  /** Whether the answer is k. */
  function Signed(a: Answer<bool>, k: bool): Answer<bool> {
    if a.Gives? then Gives(a.value == k) else a
  }

  /** The condition of the emitted test, against the comparison of the two operands; ka is
      another description of the first operand, when there is one. */
  ghost predicate Tells(h: Host, K: seq<Value>, c: Code, k1: Kind, ka: Kind, k2: Kind, op: CmpOp, sticky: bool,
                        cond: Cond, k: bool) {
    ((cond.CEqK? ==> cond.kx < |K|) && forall r: Regs :: TellsAt(h, K, c, k1, ka, k2, op, sticky, cond, k, r)) == true
  }

  ghost predicate TellsAt(h: Host, K: seq<Value>, c: Code, k1: Kind, ka: Kind, k2: Kind, op: CmpOp, sticky: bool,
                          cond: Cond, k: bool, r: Regs) {
    KindValue(K, c, k1, r) == KindValue(K, c, ka, r) ==>
      Holds(h, K, cond, r) == Signed(EvalCmp(h, op, Stuck1(sticky, KindValue(K, c, k1, r)), KindValue(K, c, k2, r)), k)
  }

  /** A comparison: the test and its jump, taken when the comparison holds. */
  lemma Compared(h: Host, K: seq<Value>, c: Code, lt: int, g: Seg, k1: Kind, ka: Kind, k2: Kind, xa: Expr, xb: Expr,
                 op: CmpOp, cond: Cond, k: bool, c': Code)
    requires Twos(h, K, c, lt, g, k1, k2, xa, xb) && Twos(h, K, c, lt, g, ka, k2, xa, xb)
    requires Tells(h, K, c, k1, ka, k2, op, Sticky(op, xa, xb), cond, k)
    requires c' == c + [Branch(cond, k), Jmp(NO_JUMP)]
    ensures Sem(h, K, c', |c'|, lt, g, {|c| + 1}, {}, Holding(VJmp(|c| + 1)), Cmp(op, xa, xb), -1)
    ensures Before(c, c', g, -1)
  {
    var P := {|c| + 1};
    assert P + {} == P;
    forall i | g.s <= i < |c'| ensures Neat(c', P, |c'|, lt, i) {
      if i < |c| { assert Neat(c, {}, |c|, lt, i); }
    }
    forall r: Regs | Pre(c', g, r)
      ensures Means(h, K, c', |c'|, g, P, {}, Holding(VJmp(|c| + 1)), Cmp(op, xa, xb), -1, r)
    {
      PreBack(c, c', g, -1, r);
      assert Two(h, K, c, g, k1, k2, xa, xb, r) && Two(h, K, c, g, ka, k2, xa, xb, r);
      var e := Exec(h, K, c, {}, |c|, g.s, r);
      Continue(h, K, c, {}, K, c', P, P, g.s, |c|, |c'|, lt, r);
      ComparedAt(h, K, c, g, k1, ka, k2, xa, xb, op, cond, k, c', r, e);
    }
  }

  lemma ComparedAt(h: Host, K: seq<Value>, c: Code, g: Seg, k1: Kind, ka: Kind, k2: Kind, xa: Expr, xb: Expr, op: CmpOp,
                   cond: Cond, k: bool, c': Code, r: Regs, e: Exit)
    requires Both(h, K, c, g, k1, k2, xa, xb, r, e) && Both(h, K, c, g, ka, k2, xa, xb, r, e)
    requires Tells(h, K, c, k1, ka, k2, op, Sticky(op, xa, xb), cond, k)
    requires c' == c + [Branch(cond, k), Jmp(NO_JUMP)]
    requires e.AtEnd? ==> Exec(h, K, c', {|c| + 1}, |c'|, g.s, r) == Exec(h, K, c', {|c| + 1}, |c'|, |c|, e.r)
    requires e.Raised? ==> Exec(h, K, c', {|c| + 1}, |c'|, g.s, r) == e
    ensures Agrees(h, K, c', g, {|c| + 1}, Holding(VJmp(|c| + 1)), Cmp(op, xa, xb), -1, r,
                   Exec(h, K, c', {|c| + 1}, |c'|, g.s, r))
  {
    if e.AtEnd? {
      ComparedStep(h, K, c, cond, k, c', e.r);
      ComparedAgrees(h, K, c, g, k1, ka, k2, xa, xb, op, cond, k, c', r, e);
    }
  }

  function ComparedTo(h: Host, K: seq<Value>, cond: Cond, k: bool, p: int, r: Regs): Exit {
    match Holds(h, K, cond, r)
    case Throws(call) => Raised(p - 1, r, call)
    case Gives(t) => if t == k then Via(p, r) else AtEnd(r)
  }

  lemma ComparedAgrees(h: Host, K: seq<Value>, c: Code, g: Seg, k1: Kind, ka: Kind, k2: Kind, xa: Expr, xb: Expr,
                       op: CmpOp, cond: Cond, k: bool, c': Code, r: Regs, e: Exit)
    requires Both(h, K, c, g, k1, k2, xa, xb, r, e) && Both(h, K, c, g, ka, k2, xa, xb, r, e) && e.AtEnd?
    requires Tells(h, K, c, k1, ka, k2, op, Sticky(op, xa, xb), cond, k)
    requires c' == c + [Branch(cond, k), Jmp(NO_JUMP)]
    ensures Agrees(h, K, c', g, {|c| + 1}, Holding(VJmp(|c| + 1)), Cmp(op, xa, xb), -1, r,
                   ComparedTo(h, K, cond, k, |c| + 1, e.r))
  {
    assert TellsAt(h, K, c, k1, ka, k2, op, Sticky(op, xa, xb), cond, k, e.r);
    assert c'[|c|] == Branch(cond, k);
  }

  lemma ComparedStep(h: Host, K: seq<Value>, c: Code, cond: Cond, k: bool, c': Code, r: Regs)
    requires c' == c + [Branch(cond, k), Jmp(NO_JUMP)] && (cond.CEqK? ==> cond.kx < |K|)
    ensures Exec(h, K, c', {|c| + 1}, |c'|, |c|, r) == ComparedTo(h, K, cond, k, |c| + 1, r)
  {
    assert c'[|c|] == Branch(cond, k);
  }

  // ---------------------------------------------------------------------------------------------
  // Leaves

  /** No code yet: a constant or a register is its own value. */
  lemma Leaf(h: Host, K: seq<Value>, c: Code, lt: int, g: Seg, d: ExpDesc, x: Expr)
    requires g.s == |c| && g.lt == lt <= |c| && d.t == NO_JUMP && d.f == NO_JUMP
    requires (d.k.VK? ==> d.k.kx < |K|) && !d.k.VJmp? && !d.k.VReloc?
    requires forall r: Regs :: Coded(h, x, r) == Gives(KindValue(K, c, d.k, r))
    ensures Den(h, K, c, lt, g, d, [], [], x, -1)
  {
    NoExits();
    assert Members([]) == {} && TrueExits(d, []) == {};
    forall r: Regs | Pre(c, g, r) ensures Means(h, K, c, |c|, g, {}, {}, Holding(d.k), x, -1, r) {
      assert Coded(h, x, r) == Gives(KindValue(K, c, d.k, r));
    }
  }
}
