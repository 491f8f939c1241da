/**
 The final pass over the code of a function: every jump is made to skip the jumps it leads to,
 one instruction after the other and in place, without changing what the function does.
 */
module Finish {
  import opened Options
  import opened Machine

  const MAX_HOPS := 100
  const MAX_ARG_SJ := 33554431

  // ---------------------------------------------------------------------------------------------
  // Jump chains

  predicate IsJump(c: Code, pc: int) {
    0 <= pc < |c| && c[pc].Jmp?
  }

  /** Where control is after the jump at pc, if there is one. */
  function Hop(c: Code, pc: int): int {
    if IsJump(c, pc) then pc + 1 + c[pc].sj else pc
  }

  function Hops(c: Code, pc: int, n: nat): int
    decreases n
  {
    if n == 0 then pc else Hops(c, Hop(c, pc), n - 1)
  }

  lemma {:induction false} HopsJoin(c: Code, pc: int, m: nat, n: nat)
    ensures Hops(c, Hops(c, pc, m), n) == Hops(c, pc, m + n)
    decreases m
  {
    if m > 0 { HopsJoin(c, Hop(c, pc), m - 1, n); }
  }

  lemma {:induction false} HopsStay(c: Code, pc: int, n: nat)
    requires !IsJump(c, pc)
    ensures Hops(c, pc, n) == pc
    decreases n
  {
    if n > 0 { HopsStay(c, pc, n - 1); }
  }

  /** Control at pc gets to q, which is not a jump. */
  ghost predicate Reaches(c: Code, pc: int, q: int) {
    !IsJump(c, q) && exists n: nat :: Hops(c, pc, n) == q
  }

  lemma ReachesOne(c: Code, pc: int, q: int, q': int)
    requires Reaches(c, pc, q) && Reaches(c, pc, q')
    ensures q == q'
  {
    var n: nat :| Hops(c, pc, n) == q;
    var n': nat :| Hops(c, pc, n') == q';
    if n <= n' {
      HopsJoin(c, pc, n, n' - n);
      HopsStay(c, q, n' - n);
    } else {
      HopsJoin(c, pc, n', n - n');
      HopsStay(c, q', n - n');
    }
  }

  /** The instruction, not a jump, that control at pc gets to; None when it jumps forever. */
  ghost function Resolve(c: Code, pc: int): (q: Option<int>)
    ensures q.Some? ==> Reaches(c, pc, q.value)
    ensures q.None? ==> forall t :: !Reaches(c, pc, t)
  {
    if exists t :: Reaches(c, pc, t) then
      var t :| Reaches(c, pc, t);
      Some(t)
    else
      None
  }

  lemma ResolveIs(c: Code, pc: int, q: int)
    requires Reaches(c, pc, q)
    ensures Resolve(c, pc) == Some(q)
  {
    ReachesOne(c, pc, q, Resolve(c, pc).value);
  }

  /** Both codes lead from every pc to the same instruction, or jump forever. */
  ghost predicate SameJumps(c: Code, c': Code) {
    && |c'| == |c|
    && (forall i :: 0 <= i < |c| ==> if c[i].Jmp? then c'[i].Jmp? else c'[i] == c[i])
    && (forall pc, q :: Reaches(c, pc, q) <==> Reaches(c', pc, q))
  }

  lemma SameResolve(c: Code, c': Code, pc: int)
    requires SameJumps(c, c')
    ensures Resolve(c', pc) == Resolve(c, pc)
  {
    var q, q' := Resolve(c, pc), Resolve(c', pc);
    if q.Some? { ResolveIs(c', pc, q.value); }
    if q'.Some? { ResolveIs(c, pc, q'.value); }
  }

  lemma SameJumpsTrans(c: Code, c': Code, c'': Code)
    requires SameJumps(c, c') && SameJumps(c', c'')
    ensures SameJumps(c, c'')
  {
    forall i | 0 <= i < |c| ensures if c[i].Jmp? then c''[i].Jmp? else c''[i] == c[i] {
      assert if c[i].Jmp? then c'[i].Jmp? else c'[i] == c[i];
    }
    forall pc, q ensures Reaches(c, pc, q) <==> Reaches(c'', pc, q) {
      assert Reaches(c, pc, q) <==> Reaches(c', pc, q);
    }
  }

  ghost predicate Within(c: Code, pc: int, q: int, n: int) {
    exists k: nat :: k <= n && Hops(c, pc, k) == q
  }

  /** No chain to an instruction other than a jump gets longer. */
  ghost predicate NoLonger(c: Code, c': Code) {
    forall pc, q, n :: !IsJump(c, q) && Within(c, pc, q, n) ==> Within(c', pc, q, n)
  }

  /** The jump at i goes straight to the end of its chain, if that is at most MAX_HOPS away. */
  ghost predicate Collapsed(c: Code, c': Code, i: int) {
    forall q :: !IsJump(c, q) && Within(c, i, q, MAX_HOPS) ==> Hop(c', i) == q
  }

  // ---------------------------------------------------------------------------------------------
  // Rewriting one jump

  /** c' is c with the jump at i sent to where m > 0 hops lead. */
  predicate Shortcut(c: Code, c': Code, i: nat, m: nat) {
    IsJump(c, i) && m > 0 && c' == c[i := Jmp(Hops(c, i, m) - (i + 1))]
  }

  lemma {:induction false} ShortcutForth(c: Code, c': Code, i: nat, m: nat, pc: int, n: nat, q: int)
    requires Shortcut(c, c', i, m) && Hops(c, pc, n) == q && !IsJump(c, q)
    ensures Within(c', pc, q, n)
    decreases n
  {
    if n == 0 {
      assert Hops(c', pc, 0) == q;
    } else if pc == i {
      var t := Hops(c, i, m);
      assert Hop(c', i) == t;
      if m <= n {
        HopsJoin(c, i, m, n - m);
        ShortcutForth(c, c', i, m, t, n - m, q);
        var k: nat :| k <= n - m && Hops(c', t, k) == q;
        assert Hops(c', i, k + 1) == q;
      } else {
        HopsJoin(c, i, n, m - n);
        HopsStay(c, q, m - n);
        assert Hops(c', t, 0) == q;
        assert Hops(c', i, 1) == q;
      }
    } else {
      assert Hop(c', pc) == Hop(c, pc);
      ShortcutForth(c, c', i, m, Hop(c, pc), n - 1, q);
      var k: nat :| k <= n - 1 && Hops(c', Hop(c, pc), k) == q;
      assert Hops(c', pc, k + 1) == q;
    }
  }

  lemma {:induction false} ShortcutBack(c: Code, c': Code, i: nat, m: nat, pc: int, n: nat, q: int)
    requires Shortcut(c, c', i, m) && Hops(c', pc, n) == q && !IsJump(c, q)
    ensures exists k: nat :: Hops(c, pc, k) == q
    decreases n
  {
    if n == 0 {
      assert Hops(c, pc, 0) == q;
    } else {
      var t := Hop(c', pc);
      ShortcutBack(c, c', i, m, t, n - 1, q);
      var k: nat :| Hops(c, t, k) == q;
      if pc == i {
        HopsJoin(c, i, m, k);
        assert Hops(c, pc, m + k) == q;
      } else {
        assert Hops(c, pc, k + 1) == q;
      }
    }
  }

  lemma ShortcutSame(c: Code, c': Code, i: nat, m: nat)
    requires Shortcut(c, c', i, m)
    ensures SameJumps(c, c') && NoLonger(c, c')
  {
    forall pc, q, n | !IsJump(c, q) && Within(c, pc, q, n) ensures Within(c', pc, q, n) {
      var k: nat :| k <= n && Hops(c, pc, k) == q;
      ShortcutForth(c, c', i, m, pc, k, q);
      var k': nat :| k' <= k && Hops(c', pc, k') == q;
      assert k' <= n;
    }
    forall pc, q ensures Reaches(c, pc, q) <==> Reaches(c', pc, q) {
      if Reaches(c, pc, q) {
        var n: nat :| Hops(c, pc, n) == q;
        ShortcutForth(c, c', i, m, pc, n, q);
      }
      if Reaches(c', pc, q) {
        var n: nat :| Hops(c', pc, n) == q;
        ShortcutBack(c, c', i, m, pc, n, q);
      }
    }
  }

  // ---------------------------------------------------------------------------------------------
  // The pass

  /** Every jump lands inside the code. */
  ghost predicate WellTargeted(c: Code) {
    forall i :: 0 <= i < |c| && c[i].Jmp? ==> 0 <= Hop(c, i) < |c|
  }

  /** finaltarget: at most a hundred hops along the chain, so that a cycle does not hang. */
  method FinalTarget(code: Code, start: nat) returns (i: nat, ghost m: nat)
    requires WellTargeted(code) && IsJump(code, start)
    ensures i < |code| && i == Hops(code, start, m) && 0 < m <= MAX_HOPS
    ensures m < MAX_HOPS ==> !code[i].Jmp?
  {
    i, m := start, 0;
    var count := 0;
    while count < MAX_HOPS
      invariant 0 <= count <= MAX_HOPS && m == count && i < |code| && i == Hops(code, start, m)
      invariant m == 0 ==> IsJump(code, i)
    {
      if !code[i].Jmp? {
        break;
      }
      HopsJoin(code, start, m, 1);
      assert Hops(code, i, 1) == Hop(code, i);
      i := i + code[i].sj + 1;
      m := m + 1;
      count := count + 1;
    }
  }

  lemma CollapsedNow(c0: Code, c: Code, c': Code, i: nat, m: nat)
    requires SameJumps(c0, c) && NoLonger(c0, c) && Shortcut(c, c', i, m)
    requires m < MAX_HOPS ==> !IsJump(c, Hops(c, i, m))
    requires m <= MAX_HOPS
    ensures Collapsed(c0, c', i)
  {
    forall q | !IsJump(c0, q) && Within(c0, i, q, MAX_HOPS) ensures Hop(c', i) == q {
      assert Within(c, i, q, MAX_HOPS);
      var k: nat :| k <= MAX_HOPS && Hops(c, i, k) == q;
      if m < MAX_HOPS {
        ReachesOne(c, i, q, Hops(c, i, m));
      } else {
        HopsJoin(c, i, k, m - k);
        HopsStay(c, q, m - k);
      }
    }
  }

  lemma CollapsedStill(c0: Code, c: Code, c': Code, i: nat)
    requires i < |c| == |c'| && c' == c[i := c'[i]]
    ensures forall k :: 0 <= k < |c| && k != i && Collapsed(c0, c, k) ==> Collapsed(c0, c', k)
  {
    forall k | 0 <= k < |c| && k != i && Collapsed(c0, c, k) ensures Collapsed(c0, c', k) {
      assert Hop(c', k) == Hop(c, k);
    }
  }

  predicate InRange(offset: int) {
    -OFFSET_SJ <= offset <= MAX_ARG_SJ - OFFSET_SJ
  }

  /** The jumps of luaK_finish, rewritten in order and in place; false is the error that an
      offset does not fit. */
  method FinishJumps(code: array<Instr>) returns (ok: bool)
    requires WellTargeted(code[..])
    modifies code
    ensures ok ==> SameJumps(old(code[..]), code[..]) && NoLonger(old(code[..]), code[..]) && WellTargeted(code[..])
    ensures ok ==> forall i :: 0 <= i < code.Length && code[i].Jmp? ==>
              InRange(code[i].sj) && Collapsed(old(code[..]), code[..], i)
    ensures !ok ==> code.Length > OFFSET_SJ
  {
    for i := 0 to code.Length
      invariant SameJumps(old(code[..]), code[..]) && NoLonger(old(code[..]), code[..]) && WellTargeted(code[..])
      invariant forall k :: 0 <= k < i && code[k].Jmp? ==> InRange(code[k].sj) && Collapsed(old(code[..]), code[..], k)
    {
      if code[i].Jmp? {
        ghost var c := code[..];
        var target, m := FinalTarget(code[..], i);
        var offset := target - (i + 1);
        if !InRange(offset) {
          return false;
        }
        code[i] := Jmp(offset);
        assert code[..] == c[i := Jmp(offset)];
        ShortcutSame(c, code[..], i, m);
        SameJumpsTrans(old(code[..]), c, code[..]);
        CollapsedNow(old(code[..]), c, code[..], i, m);
        CollapsedStill(old(code[..]), c, code[..], i);
        assert WellTargeted(code[..]) by {
          forall k | 0 <= k < |code[..]| && code[..][k].Jmp? ensures 0 <= Hop(code[..], k) < |code[..]| {
            assert k != i ==> code[..][k] == c[k];
          }
        }
      }
    }
    return true;
  }

  // ---------------------------------------------------------------------------------------------
  // What a run does

  /** What an instruction other than a jump does to the state and to the flow of control. */
  datatype Flow<+S> =
    | Go(d: int, s: S)      // on by d: the next instruction, a skip, a loop
    | Take(s: S)            // take the jump that follows
    | Halt

  /** The meaning of every instruction: it sees its successor, but not the offset of a jump. */
  type Meaning<!S> = (Instr, Option<Instr>, S) -> Flow<S>

  function Successor(c: Code, pc: int): Option<Instr> {
    if 0 <= pc + 1 < |c| && !c[pc + 1].Jmp? then Some(c[pc + 1]) else None
  }

  /** The instruction at q, which is not a jump: where control goes and with which state. */
  function After<S>(m: Meaning<S>, c: Code, q: int, s: S): Option<(int, S)>
    requires 0 <= q < |c|
  {
    match m(c[q], Successor(c, q), s)
    case Go(d, s') => Some((q + 1 + d, s'))
    case Take(s') => if IsJump(c, q + 1) then Some((Hop(c, q + 1), s')) else None
    case Halt => None
  }

  /** The first n instructions other than jumps that a run from pc executes, each with the state
      it starts from; fewer if the run halts, leaves the code or jumps forever. */
  ghost function Observed<S>(m: Meaning<S>, c: Code, pc: int, s: S, n: nat): seq<(int, S)>
    decreases n, 0
  {
    var q := Resolve(c, pc);
    if n == 0 || q.None? || !(0 <= q.value < |c|) then []
    else [(q.value, s)] + ObservedFrom(m, c, After(m, c, q.value, s), n - 1)
  }

  ghost function ObservedFrom<S>(m: Meaning<S>, c: Code, next: Option<(int, S)>, n: nat): seq<(int, S)>
    decreases n, 1
  {
    if next.None? then [] else Observed(m, c, next.value.0, next.value.1, n)
  }

  /** One hop does not change where a chain leads. */
  lemma ResolveHop(c: Code, pc: int)
    ensures Resolve(c, Hop(c, pc)) == Resolve(c, pc)
  {
    var q, q' := Resolve(c, pc), Resolve(c, Hop(c, pc));
    if q.Some? {
      var n: nat :| Hops(c, pc, n) == q.value;
      if n == 0 {
        assert Hops(c, Hop(c, pc), 0) == q.value;
      } else {
        assert Hops(c, Hop(c, pc), n - 1) == q.value;
      }
      ResolveIs(c, Hop(c, pc), q.value);
    }
    if q'.Some? {
      var n: nat :| Hops(c, Hop(c, pc), n) == q'.value;
      assert Hops(c, pc, n + 1) == q'.value;
      ResolveIs(c, pc, q'.value);
    }
  }

  /** A run depends on the pc only through the instruction it leads to. */
  lemma ObservedResolve<S>(m: Meaning<S>, c: Code, pc: int, pc': int, s: S, n: nat)
    requires Resolve(c, pc') == Resolve(c, pc)
    ensures Observed(m, c, pc', s, n) == Observed(m, c, pc, s, n)
  {
  }

  /** One instruction leads both codes to the same place with the same state. */
  lemma AfterSame<S>(m: Meaning<S>, c: Code, c': Code, q: int, s: S)
    requires SameJumps(c, c') && 0 <= q < |c| && !c[q].Jmp?
    ensures var a, a' := After(m, c, q, s), After(m, c', q, s);
            && (a.Some? <==> a'.Some?)
            && (a.Some? ==> a'.value.1 == a.value.1 && Resolve(c', a'.value.0) == Resolve(c, a.value.0))
  {
    assert c'[q] == c[q] && Successor(c', q) == Successor(c, q);
    match m(c[q], Successor(c, q), s)
    case Go(d, _) =>
      SameResolve(c, c', q + 1 + d);
    case Take(_) =>
      SameResolve(c, c', q + 1);
      ResolveHop(c, q + 1);
      ResolveHop(c', q + 1);
    case Halt =>
  }

  /** Whatever the other instructions mean, the finished code runs as the original does. */
  lemma {:induction false} FinishPreserves<S>(m: Meaning<S>, c: Code, c': Code, pc: int, s: S, n: nat)
    requires SameJumps(c, c')
    ensures Observed(m, c', pc, s, n) == Observed(m, c, pc, s, n)
    decreases n, 0
  {
    SameResolve(c, c', pc);
    var q := Resolve(c, pc);
    if n > 0 && q.Some? && 0 <= q.value < |c| {
      AfterSame(m, c, c', q.value, s);
      FinishPreservesFrom(m, c, c', After(m, c, q.value, s), After(m, c', q.value, s), n - 1);
    }
  }

  lemma {:induction false} FinishPreservesFrom<S>(m: Meaning<S>, c: Code, c': Code, a: Option<(int, S)>,
                                                  a': Option<(int, S)>, n: nat)
    requires SameJumps(c, c') && (a.Some? <==> a'.Some?)
    requires a.Some? ==> a'.value.1 == a.value.1 && Resolve(c', a'.value.0) == Resolve(c, a.value.0)
    ensures ObservedFrom(m, c', a', n) == ObservedFrom(m, c, a, n)
    decreases n, 1
  {
    if a.Some? {
      FinishPreserves(m, c, c', a.value.0, a.value.1, n);
      SameResolve(c, c', a.value.0);
      ObservedResolve(m, c', a.value.0, a'.value.0, a.value.1, n);
    }
  }
}
