/**
 Coroutines: the hand-over of control between threads, step by step, while a coroutine is driven
 on its resumer's own stack, is being promoted, or runs on a stack of its own behind channels.
 */
module Coroutine {

  type Tid = nat

  /** Argument and result lists, as far as the hand-over is concerned. */
  type Vals = int

  datatype Status = Suspended | Running | Normal | Dead

  datatype Kind = YieldMsg | ReturnMsg | ErrorMsg

  /** Where a thread is in the protocol. */
  datatype Loc =
    | Fresh                                       // created, not started
    | Run                                         // executing its own code
    | Parked                                      // yielded synchronously: nothing is on a stack
    | InSync(co: Tid)                             // inside resumeSync, driving co
    | SendArgs(co: Tid, v: Vals)                  // about to send on co's resume channel
    | WaitMsg(co: Tid)                            // receiving from co's yield channel
    | Settle(co: Tid, kind: Kind, v: Vals)        // received; the status fields are still to be set
    | SendMsg(kind: Kind, v: Vals)                // promoted: about to send on its yield channel
    | WaitResume                                  // promoted: receiving from its resume channel
    | Done

  /** got is what the thread's last call of resume or yield, or its body, was given. */
  datatype Thread = Thread(status: Status, at: Loc, promoted: bool, syncActive: bool, nCcalls: nat, got: Vals)

  datatype State = State(ts: seq<Thread>, maxCCalls: nat)

  const MAIN: Tid := 0

  function Start(maxCCalls: nat, nCcalls: nat): State {
    State([Thread(Running, Run, false, false, nCcalls, 0)], maxCCalls)
  }

  // ---------------------------------------------------------------------------------------------
  // The steps

  datatype Action =
    | Create(who: Tid)
    | Resume(who: Tid, co: Tid, v: Vals, depth: nat)      // depth: the resumer's C calls at this point
    | HandArgs(who: Tid, co: Tid)
    | SyncOut(who: Tid, co: Tid, kind: Kind, v: Vals)     // yield, return or error, unwinding to resumeSync
    | Promote(who: Tid, co: Tid)
    | ChanOut(co: Tid, kind: Kind, v: Vals)              // yield, return or error of a promoted coroutine
    | Deliver(who: Tid, co: Tid)
    | Set(who: Tid)
    | Close(who: Tid, co: Tid)                           // no variables to close

  predicate Known(s: State, t: Tid) {
    t < |s.ts|
  }

  predicate Enabled(s: State, a: Action) {
    match a
    case Create(who) => Known(s, who) && s.ts[who].at == Run
    case Resume(who, co, _, depth) => Known(s, who) && Known(s, co) && s.ts[who].at == Run && depth >= s.ts[who].nCcalls
    case HandArgs(who, co) =>
      Known(s, who) && Known(s, co) && s.ts[who].at.SendArgs? && s.ts[who].at.co == co && s.ts[co].at == WaitResume
    case SyncOut(who, co, _, _) =>
      Known(s, who) && Known(s, co) && s.ts[co].at == Run && s.ts[co].syncActive && s.ts[who].at == InSync(co)
    case Promote(who, co) =>
      Known(s, who) && Known(s, co) && s.ts[co].at == Run && s.ts[co].syncActive && s.ts[who].at == InSync(co)
    case ChanOut(co, _, _) => Known(s, co) && co != MAIN && s.ts[co].at == Run && !s.ts[co].syncActive
    case Deliver(who, co) => Known(s, who) && Known(s, co) && s.ts[co].at.SendMsg? && s.ts[who].at == WaitMsg(co)
    case Set(who) => Known(s, who) && s.ts[who].at.Settle? && Known(s, s.ts[who].at.co)
    case Close(who, co) => Known(s, who) && Known(s, co) && s.ts[who].at == Run
  }

  function After(kind: Kind): Status {
    if kind == YieldMsg then Suspended else Dead
  }

  function With(s: State, t: Tid, x: Thread): State
    requires Known(s, t)
  {
    s.(ts := s.ts[t := x])
  }

  function Next(s: State, a: Action): State
    requires Enabled(s, a)
  {
    match a
    case Create(_) => s.(ts := s.ts + [Thread(Suspended, Fresh, false, false, 0, 0)])
    case Resume(who, co, v, depth) =>
      var L, c := s.ts[who], s.ts[co];
      if c.status != Suspended then s  // cannot resume dead, or non-suspended, coroutine
      else if depth >= s.maxCCalls then With(s, who, L.(status := Running))         // C stack overflow
      else
        var c' := c.(status := Running, nCcalls := depth + 1);
        if c.promoted then With(With(s, co, c'), who, L.(status := Normal, at := SendArgs(co, v)))
        else With(With(s, co, c'.(syncActive := true, at := Run, got := v)), who,
                  L.(status := Normal, at := InSync(co)))
    case HandArgs(who, co) =>
      With(With(s, co, s.ts[co].(at := Run, got := s.ts[who].at.v)), who, s.ts[who].(at := WaitMsg(co)))
    case SyncOut(who, co, kind, v) =>
      With(With(s, co, s.ts[co].(syncActive := false, status := After(kind),
                                 at := if kind == YieldMsg then Parked else Done)),
           who, s.ts[who].(status := Running, at := Run, got := v))
    case Promote(who, co) =>
      With(With(s, co, s.ts[co].(syncActive := false, promoted := true)), who, s.ts[who].(at := WaitMsg(co)))
    case ChanOut(co, kind, v) => With(s, co, s.ts[co].(at := SendMsg(kind, v)))
    case Deliver(who, co) =>
      var m := s.ts[co].at;
      With(With(s, co, s.ts[co].(at := if m.kind == YieldMsg then WaitResume else Done)), who,
           s.ts[who].(at := Settle(co, m.kind, m.v)))
    case Set(who) =>
      var m := s.ts[who].at;
      var s1 := With(s, who, s.ts[who].(status := Running, at := Run, got := m.v));
      With(s1, m.co, s1.ts[m.co].(status := After(m.kind)))
    case Close(_, co) =>
      var c := s.ts[co];
      if c.status == Running || c.status == Normal then s                // cannot close it
      else With(s, co, c.(status := Dead, at := Done))
  }

  // ---------------------------------------------------------------------------------------------
  // What every step keeps

  predicate Distinct(chain: seq<Tid>) {
    forall i, j :: 0 <= i < j < |chain| ==> chain[i] != chain[j]
  }

  /** Waiting for a coroutine, in one way or another. */
  predicate Waiting(l: Loc) {
    l.InSync? || l.WaitMsg? || l.SendArgs? || l.Settle?
  }

  /** L waits for the coroutine co in the way in which co is driven, and the two ends of the
      hand-over fit. */
  predicate Link(L: Thread, co: Tid, t: Thread) {
    && L.status == Normal && L.nCcalls < t.nCcalls
    && match L.at
       case InSync(c) => c == co && t.syncActive && !t.promoted && (t.at == Run || Waiting(t.at))
       case WaitMsg(c) => c == co && t.promoted && !t.syncActive && (t.at == Run || t.at.SendMsg? || Waiting(t.at))
       case SendArgs(c, _) => c == co && t.promoted && !t.syncActive && t.at == WaitResume
       case Settle(c, k, _) =>
         c == co && t.promoted && !t.syncActive && t.at == if k == YieldMsg then WaitResume else Done
       case Fresh => false
       case Run => false
       case Parked => false
       case SendMsg(_, _) => false
       case WaitResume => false
       case Done => false
  }

  /** A thread outside the chain: waiting to be resumed in the way it will be resumed, or finished. */
  predicate Idle(t: Thread) {
    && !t.syncActive
    && match t.status
       case Suspended => if t.promoted then t.at == WaitResume else t.at == Fresh || t.at == Parked
       case Dead => t.at == Done
       case Running => false
       case Normal => false
  }

  function Last(chain: seq<Tid>): Tid
    requires chain != []
  {
    chain[|chain| - 1]
  }

  /** chain is the resumer chain from main to the running thread; every other thread is idle.
      (Comparing with true keeps the verifier from taking the conjunction apart wherever it is only
      passed on.) */
  ghost predicate Inv(s: State, chain: seq<Tid>) {
    var n := |chain|;
    (&& n > 0 && chain[0] == MAIN && Distinct(chain)
    && (forall i :: 0 <= i < n ==> Known(s, chain[i]))
    && (forall i :: 0 <= i < n - 1 ==> LinkAt(s, chain, i))
    && (forall i :: 0 < i < n ==> s.ts[chain[i]].nCcalls <= s.maxCCalls)
    && s.ts[chain[n - 1]].status == Running && !Waiting(s.ts[chain[n - 1]].at)
    && !s.ts[MAIN].syncActive && !s.ts[MAIN].promoted && (n == 1 ==> s.ts[MAIN].at == Run)
    && (forall t: nat :: Known(s, t) && t !in chain ==> Idle(s.ts[t]))) == true
  }

  ghost predicate LinkAt(s: State, chain: seq<Tid>, i: nat)
    requires i + 1 < |chain|
  {
    Known(s, chain[i]) && Known(s, chain[i + 1]) && Link(s.ts[chain[i]], chain[i + 1], s.ts[chain[i + 1]])
  }

  /** Only the end of the chain executes its own code, or sends. */
  lemma ActiveIsLast(s: State, chain: seq<Tid>, t: Tid)
    requires Inv(s, chain) && Known(s, t) && (s.ts[t].at == Run || s.ts[t].at.SendMsg?)
    ensures t == Last(chain)
  {
    forall i | 0 <= i < |chain| - 1 ensures Waiting(s.ts[chain[i]].at) { assert LinkAt(s, chain, i); }
    assert t in chain;
  }

  /** A thread that waits for co comes just before it. */
  lemma WaiterBefore(s: State, chain: seq<Tid>, w: Tid) returns (i: nat)
    requires Inv(s, chain) && Known(s, w) && Waiting(s.ts[w].at)
    ensures i + 1 < |chain| && chain[i] == w && chain[i + 1] == s.ts[w].at.co && LinkAt(s, chain, i)
    ensures !Waiting(s.ts[s.ts[w].at.co].at) ==> i + 2 == |chain|
  {
    assert w in chain;
    i :| 0 <= i < |chain| && chain[i] == w;
    assert LinkAt(s, chain, i);
    if i + 2 < |chain| { assert LinkAt(s, chain, i + 1); }
  }

  /** The chain after a step. */
  ghost function ChainAfter(s: State, a: Action, chain: seq<Tid>): seq<Tid>
    requires Enabled(s, a) && chain != []
  {
    match a
    case Resume(_, co, _, depth) => if s.ts[co].status == Suspended && depth < s.maxCCalls then chain + [co] else chain
    case SyncOut(_, _, _, _) => chain[..|chain| - 1]
    case Set(_) => chain[..|chain| - 1]
    case Create(_) => chain
    case HandArgs(_, _) => chain
    case Promote(_, _) => chain
    case ChanOut(_, _, _) => chain
    case Deliver(_, _) => chain
    case Close(_, _) => chain
  }

  /** Two threads next to each other that did not change are still linked. */
  lemma LinkFrame(s: State, chain: seq<Tid>, s': State, chain': seq<Tid>, i: nat)
    requires i + 1 < |chain| && i + 1 < |chain'| && chain'[i] == chain[i] && chain'[i + 1] == chain[i + 1]
             && LinkAt(s, chain, i)
    requires |s'.ts| >= |s.ts| && s'.ts[chain[i]] == s.ts[chain[i]] && s'.ts[chain[i + 1]] == s.ts[chain[i + 1]]
    ensures LinkAt(s', chain', i)
  {
  }

  /** s' differs from s only in threads a and b, and no thread is lost. */
  predicate Only(s: State, s': State, a: Tid, b: Tid) {
    |s'.ts| == |s.ts| && s'.maxCCalls == s.maxCCalls && forall t :: 0 <= t < |s.ts| && t != a && t != b ==>
        s'.ts[t] == s.ts[t]
  }

  /** The end of the chain changed and nothing else: the chain stays, or loses its end. */
  lemma EndChanged(s: State, chain: seq<Tid>, s': State, chain': seq<Tid>)
    requires Inv(s, chain) && |chain| > 1
    requires Only(s, s', Last(chain), chain[|chain| - 2]) && (chain' == chain || chain' == chain[..|chain| - 1])
    requires var n := |chain'|; s'.ts[chain'[n - 1]].status == Running && !Waiting(s'.ts[chain'[n - 1]].at)
    requires chain' == chain ==> LinkAt(s', chain, |chain| - 2)
    requires chain' != chain ==> Idle(s'.ts[Last(chain)]) && s'.ts[Last(chain')].at == Run
    requires s'.ts[chain[|chain| - 2]].nCcalls == s.ts[chain[|chain| - 2]].nCcalls
             && s'.ts[Last(chain)].nCcalls == s.ts[Last(chain)].nCcalls
    requires var L, L' := s.ts[chain[|chain| - 2]], s'.ts[chain[|chain| - 2]];
             L'.promoted == L.promoted && L'.syncActive == L.syncActive
    requires |chain| == 2 || LinkPrev(s', chain, |chain| - 3)
    ensures Inv(s', chain')
  {
    var n := |chain|;
    forall i | 0 <= i < |chain'| - 1 ensures LinkAt(s', chain', i) {
      if i < n - 3 {
        assert chain[i] != chain[n - 2] && chain[i + 1] != chain[n - 2];
        assert LinkAt(s, chain, i);
        LinkFrame(s, chain, s', chain', i);
      }
    }
    OthersIdle(s, chain, s', chain');
  }

  lemma OthersIdle(s: State, chain: seq<Tid>, s': State, chain': seq<Tid>)
    requires |chain| > 1 && forall t: nat :: Known(s, t) && t !in chain ==> Idle(s.ts[t])
    requires Only(s, s', Last(chain), chain[|chain| - 2]) && (chain' == chain || chain' == chain[..|chain| - 1])
    requires Known(s, Last(chain)) && (chain' != chain ==> Idle(s'.ts[Last(chain)]))
    ensures forall t: nat :: Known(s', t) && t !in chain' ==> Idle(s'.ts[t])
  {
    assert chain == chain[..|chain| - 1] + [Last(chain)];
  }

  /** One more thread at the end of the chain. */
  lemma Extended(s: State, chain: seq<Tid>, s': State, co: Tid)
    requires Inv(s, chain) && Known(s, co) && co !in chain && Only(s, s', Last(chain), co)
    requires LinkAt(s', chain + [co], |chain| - 1) && (|chain| == 1 || LinkPrev(s', chain, |chain| - 2))
    requires s'.ts[co].status == Running && !Waiting(s'.ts[co].at) && s'.ts[co].nCcalls <= s'.maxCCalls
    requires var L, L' := s.ts[Last(chain)], s'.ts[Last(chain)];
             L'.promoted == L.promoted && L'.syncActive == L.syncActive && L'.nCcalls == L.nCcalls
    ensures Inv(s', chain + [co])
  {
    var chain', n := chain + [co], |chain|;
    forall i | 0 <= i < n ensures LinkAt(s', chain', i) {
      if i < n - 2 {
        assert LinkAt(s, chain, i);
        LinkFrame(s, chain, s', chain', i);
      }
    }
  }

  ghost predicate LinkPrev(s: State, chain: seq<Tid>, i: int) {
    0 <= i && i + 1 < |chain| && LinkAt(s, chain, i)
  }

  lemma CreateKeeps(s: State, a: Action, chain: seq<Tid>)
    requires Inv(s, chain) && a.Create? && Enabled(s, a)
    ensures Inv(Next(s, a), chain)
  {
    var s' := Next(s, a);
    forall i | 0 <= i < |chain| - 1 ensures LinkAt(s', chain, i) {
      assert LinkAt(s, chain, i);
      LinkFrame(s, chain, s', chain, i);
    }
  }

  lemma ResumeKeeps(s: State, a: Action, chain: seq<Tid>)
    requires Inv(s, chain) && a.Resume? && Enabled(s, a)
    ensures Inv(Next(s, a), ChainAfter(s, a, chain))
  {
    var s', n := Next(s, a), |chain|;
    ActiveIsLast(s, chain, a.who);
    if s.ts[a.co].status == Suspended {
      if a.depth >= s.maxCCalls {
        assert s'.ts == s.ts;
      } else {
        SuspendedOutside(s, chain, a.co);
        if n > 1 { assert LinkAt(s, chain, n - 2); }
        Extended(s, chain, s', a.co);
      }
    }
  }

  lemma SuspendedOutside(s: State, chain: seq<Tid>, co: Tid)
    requires Inv(s, chain) && Known(s, co) && (s.ts[co].status == Suspended || s.ts[co].status == Dead)
    ensures co !in chain
  {
    forall i | 0 <= i < |chain| ensures s.ts[chain[i]].status == Normal || s.ts[chain[i]].status == Running {
      if i < |chain| - 1 { assert LinkAt(s, chain, i); }
    }
  }

  lemma CloseKeeps(s: State, a: Action, chain: seq<Tid>)
    requires Inv(s, chain) && a.Close? && Enabled(s, a)
    ensures Inv(Next(s, a), chain)
  {
    var s' := Next(s, a);
    if s.ts[a.co].status == Suspended || s.ts[a.co].status == Dead {
      SuspendedOutside(s, chain, a.co);
      forall i | 0 <= i < |chain| - 1 ensures LinkAt(s', chain, i) {
        assert LinkAt(s, chain, i);
        LinkFrame(s, chain, s', chain, i);
      }
    }
  }

  lemma ChanOutKeeps(s: State, a: Action, chain: seq<Tid>)
    requires Inv(s, chain) && a.ChanOut? && Enabled(s, a)
    ensures Inv(Next(s, a), chain)
  {
    var s', n := Next(s, a), |chain|;
    ActiveIsLast(s, chain, a.co);
    assert n > 1;
    assert LinkAt(s, chain, n - 2);
    if n > 2 { assert LinkAt(s, chain, n - 3); }
    EndChanged(s, chain, s', chain);
  }

  /** Where the two ends of a hand-over are. */
  lemma EndsOf(s: State, chain: seq<Tid>, who: Tid)
    requires Inv(s, chain) && Known(s, who) && Waiting(s.ts[who].at) && Known(s, s.ts[who].at.co)
             && !Waiting(s.ts[s.ts[who].at.co].at)
    ensures |chain| > 1 && chain[|chain| - 2] == who && Last(chain) == s.ts[who].at.co && LinkAt(s, chain, |chain| - 2)
            && who != Last(chain)
    ensures |chain| == 2 || LinkPrev(s, chain, |chain| - 3)
  {
    var i := WaiterBefore(s, chain, who);
    if |chain| > 2 { assert LinkAt(s, chain, |chain| - 3); }
  }

  lemma HandArgsKeeps(s: State, a: Action, chain: seq<Tid>)
    requires Inv(s, chain) && a.HandArgs? && Enabled(s, a)
    ensures Inv(Next(s, a), chain)
  {
    EndsOf(s, chain, a.who);
    EndChanged(s, chain, Next(s, a), chain);
  }

  lemma PromoteKeeps(s: State, a: Action, chain: seq<Tid>)
    requires Inv(s, chain) && a.Promote? && Enabled(s, a)
    ensures Inv(Next(s, a), chain)
  {
    EndsOf(s, chain, a.who);
    EndChanged(s, chain, Next(s, a), chain);
  }

  lemma DeliverKeeps(s: State, a: Action, chain: seq<Tid>)
    requires Inv(s, chain) && a.Deliver? && Enabled(s, a)
    ensures Inv(Next(s, a), chain)
  {
    EndsOf(s, chain, a.who);
    EndChanged(s, chain, Next(s, a), chain);
  }

  lemma SyncOutKeeps(s: State, a: Action, chain: seq<Tid>)
    requires Inv(s, chain) && a.SyncOut? && Enabled(s, a)
    ensures |chain| > 1 && Inv(Next(s, a), chain[..|chain| - 1])
  {
    EndsOf(s, chain, a.who);
    EndChanged(s, chain, Next(s, a), chain[..|chain| - 1]);
  }

  lemma SettlingEnds(s: State, a: Action, chain: seq<Tid>)
    requires Inv(s, chain) && a.Set? && Enabled(s, a)
    ensures !Waiting(s.ts[s.ts[a.who].at.co].at)
  {
    var i := WaiterBefore(s, chain, a.who);
  }

  lemma SetKeeps(s: State, a: Action, chain: seq<Tid>)
    requires Inv(s, chain) && a.Set? && Enabled(s, a)
    ensures |chain| > 1 && Inv(Next(s, a), chain[..|chain| - 1])
  {
    SettlingEnds(s, a, chain);
    EndsOf(s, chain, a.who);
    EndChanged(s, chain, Next(s, a), chain[..|chain| - 1]);
  }

  /** Every step keeps the invariant. */
  lemma StepKeeps(s: State, a: Action, chain: seq<Tid>)
    requires Inv(s, chain) && Enabled(s, a)
    ensures Inv(Next(s, a), ChainAfter(s, a, chain))
  {
    match a
    case Create(_) => CreateKeeps(s, a, chain);
    case Resume(_, _, _, _) => ResumeKeeps(s, a, chain);
    case ChanOut(_, _, _) => ChanOutKeeps(s, a, chain);
    case HandArgs(_, _) => HandArgsKeeps(s, a, chain);
    case Promote(_, _) => PromoteKeeps(s, a, chain);
    case Deliver(_, _) => DeliverKeeps(s, a, chain);
    case SyncOut(_, _, _, _) => SyncOutKeeps(s, a, chain);
    case Set(_) => SetKeeps(s, a, chain);
    case Close(_, _) => CloseKeeps(s, a, chain);
  }

  // ---------------------------------------------------------------------------------------------
  // Whole runs

  ghost predicate Runnable(s: State, acts: seq<Action>)
    decreases |acts|
  {
    acts == [] || (Enabled(s, acts[0]) && Runnable(Next(s, acts[0]), acts[1..]))
  }

  ghost function Final(s: State, acts: seq<Action>): State
    requires Runnable(s, acts)
    decreases |acts|
  {
    if acts == [] then s else Final(Next(s, acts[0]), acts[1..])
  }

  lemma {:induction false} RunKeeps(s: State, acts: seq<Action>, chain: seq<Tid>) returns (chain': seq<Tid>)
    requires Inv(s, chain) && Runnable(s, acts)
    ensures Inv(Final(s, acts), chain')
    decreases |acts|
  {
    chain' := chain;
    if acts != [] {
      StepKeeps(s, acts[0], chain);
      chain' := RunKeeps(Next(s, acts[0]), acts[1..], ChainAfter(s, acts[0], chain));
    }
  }

  /** In every state of every run there is exactly one running thread; the normal threads are
      exactly the resumers between main and it. */
  lemma OneRunning(maxCCalls: nat, nCcalls: nat, acts: seq<Action>) returns (chain: seq<Tid>)
    requires Runnable(Start(maxCCalls, nCcalls), acts)
    ensures var s := Final(Start(maxCCalls, nCcalls), acts);
            && Inv(s, chain) && chain[0] == MAIN
            && (forall t: nat :: Known(s, t) ==> (s.ts[t].status == Running <==> t == Last(chain)))
            && (forall t: nat :: Known(s, t) ==> (s.ts[t].status == Normal <==> t in chain[..|chain| - 1]))
  {
    chain := RunKeeps(Start(maxCCalls, nCcalls), acts, [MAIN]);
    StatusesAre(Final(Start(maxCCalls, nCcalls), acts), chain);
  }

  lemma StatusesAre(s: State, chain: seq<Tid>)
    requires Inv(s, chain)
    ensures forall t: nat :: Known(s, t) ==> (s.ts[t].status == Running <==> t == Last(chain))
    ensures forall t: nat :: Known(s, t) ==> (s.ts[t].status == Normal <==> t in chain[..|chain| - 1])
  {
    forall i | 0 <= i < |chain| - 1 ensures s.ts[chain[i]].status == Normal { assert LinkAt(s, chain, i); }
    assert chain == chain[..|chain| - 1] + [Last(chain)];
  }

  predicate IsDead(s: State, t: Tid) {
    Known(s, t) && s.ts[t].status == Dead && s.ts[t].at == Done
  }

  /** A dead thread stays dead and never executes again. */
  lemma DeadStep(s: State, a: Action, chain: seq<Tid>, t: Tid)
    requires Inv(s, chain) && Enabled(s, a) && IsDead(s, t)
    ensures IsDead(Next(s, a), t)
  {
    SuspendedOutside(s, chain, t);
    if a.Set? {
      SettlingEnds(s, a, chain);
      EndsOf(s, chain, a.who);
    } else if a.Resume? {
      ActiveIsLast(s, chain, a.who);
    } else if a.ChanOut? {
      ActiveIsLast(s, chain, a.co);
    } else if !a.Create? && !a.Close? {
      EndsOf(s, chain, a.who);
      DeadHandover(s, a, chain, t);
    }
  }

  lemma DeadHandover(s: State, a: Action, chain: seq<Tid>, t: Tid)
    requires Inv(s, chain) && Enabled(s, a) && IsDead(s, t) && t !in chain
    requires (a.SyncOut? || a.Promote? || a.HandArgs? || a.Deliver?)
    requires |chain| > 1 && chain[|chain| - 2] == a.who && chain[|chain| - 1] == a.co
    ensures IsDead(Next(s, a), t)
  {
    assert a.who in chain && a.co in chain;
  }

  lemma {:induction false} DeadForever(s: State, acts: seq<Action>, chain: seq<Tid>, t: Tid)
    requires Inv(s, chain) && Runnable(s, acts) && Known(s, t) && s.ts[t].status == Dead
    ensures IsDead(s, t) && IsDead(Final(s, acts), t)
    decreases |acts|
  {
    SuspendedOutside(s, chain, t);
    if acts != [] {
      DeadStep(s, acts[0], chain, t);
      StepKeeps(s, acts[0], chain);
      DeadForever(Next(s, acts[0]), acts[1..], ChainAfter(s, acts[0], chain), t);
    }
  }

  /** No hand-over gets stuck: either the running thread executes its own code, or the next step of
      the hand-over is enabled. */
  lemma NoDeadlock(s: State, chain: seq<Tid>) returns (a: Action)
    requires Inv(s, chain)
    ensures s.ts[Last(chain)].at == Run || (Enabled(s, a) && !a.Create? && !a.Resume? && !a.Close?)
  {
    var n := |chain|;
    a := Create(MAIN);
    if n > 1 {
      var L, co := chain[n - 2], chain[n - 1];
      assert LinkAt(s, chain, n - 2);
      a := if s.ts[L].at.SendArgs? then HandArgs(L, co) else if s.ts[L].at.WaitMsg? then Deliver(L, co) else Set(L);
    }
  }

  /** Nested resumes are bounded by the limit on C calls. */
  lemma {:induction false} DepthBound(s: State, chain: seq<Tid>, i: nat)
    requires Inv(s, chain) && i < |chain|
    ensures s.ts[chain[i]].nCcalls >= s.ts[MAIN].nCcalls + i
    decreases i
  {
    if i > 0 {
      assert LinkAt(s, chain, i - 1);
      DepthBound(s, chain, i - 1);
    }
  }

  lemma ChainBound(s: State, chain: seq<Tid>)
    requires Inv(s, chain)
    ensures |chain| == 1 || s.ts[MAIN].nCcalls + |chain| - 1 <= s.maxCCalls
  {
    DepthBound(s, chain, |chain| - 1);
  }

  // ---------------------------------------------------------------------------------------------
  // The coroutines of section 2.6 of the Lua 5.4 Reference Manual

  /** The chain of active coroutines, the finished ones, and what each thread was last given. */
  datatype Abstract = Abstract(chain: seq<Tid>, dead: set<Tid>, got: seq<Vals>)

  datatype Label =
    | NewThread
    | ResumeOf(t: Tid, v: Vals)
    | SuspendWith(v: Vals, ends: bool)     // yield(v), or the end of the body with results or an error v
    | CloseOf(t: Tid)
    | Silent

  predicate Can(x: Abstract, l: Label) {
    match l
    case NewThread => true
    case ResumeOf(t, _) => t < |x.got| && t !in x.chain && t !in x.dead
    case SuspendWith(_, _) => |x.chain| > 1 && x.chain[|x.chain| - 2] < |x.got|
    case CloseOf(t) => t < |x.got| && t !in x.chain
    case Silent => true
  }

  /** resume makes the thread run and gives it the arguments; yield, return and errors make the
      resumer run and give it the values. */
  function Does(x: Abstract, l: Label): Abstract
    requires Can(x, l)
  {
    match l
    case NewThread => x.(got := x.got + [0])
    case ResumeOf(t, v) => Abstract(x.chain + [t], x.dead, x.got[t := v])
    case SuspendWith(v, ends) =>
      var n := |x.chain|;
      Abstract(x.chain[..n - 1], if ends then x.dead + {x.chain[n - 1]} else x.dead, x.got[x.chain[n - 2] := v])
    case CloseOf(t) => x.(dead := x.dead + {t})
    case Silent => x
  }

  /** What a step of a driver is, seen from Lua: a yield or an end happens when the coroutine's code
      executes it, with the values that it passes there. */
  function LabelOf(s: State, a: Action): Label
    requires Enabled(s, a)
  {
    match a
    case Create(_) => NewThread
    case Resume(_, co, v, depth) =>
      if s.ts[co].status == Suspended && depth < s.maxCCalls then ResumeOf(co, v) else Silent
    case SyncOut(_, _, kind, v) => SuspendWith(v, kind != YieldMsg)
    case ChanOut(_, kind, v) => SuspendWith(v, kind != YieldMsg)
    case Close(_, co) => if s.ts[co].status == Suspended || s.ts[co].status == Dead then CloseOf(co) else Silent
    case HandArgs(_, _) => Silent
    case Promote(_, _) => Silent
    case Deliver(_, _) => Silent
    case Set(_) => Silent
  }

  /** Arguments that are still to be sent count as given. */
  function Given(s: State, chain: seq<Tid>, t: Tid): Vals
    requires Known(s, t)
  {
    var n := |chain|;
    if n > 1 && chain[n - 1] == t && Known(s, chain[n - 2]) && s.ts[chain[n - 2]].at.SendArgs? then
      s.ts[chain[n - 2]].at.v
    else s.ts[t].got
  }

  /** The coroutines, but for a message on its way out. */
  ghost function Base(s: State, chain: seq<Tid>): Abstract {
    Abstract(chain, set t: nat | t < |s.ts| && s.ts[t].status == Dead,
             seq(|s.ts|, t requires 0 <= t < |s.ts| => Given(s, chain, t)))
  }

  /** The message on its way from the end of the chain to its resumer: Silent if there is none. */
  function Message(s: State, chain: seq<Tid>): Label {
    var n := |chain|;
    if n < 2 || !Known(s, chain[n - 1]) || !Known(s, chain[n - 2]) then Silent
    else
      var L, t := s.ts[chain[n - 2]].at, s.ts[chain[n - 1]].at;
      if t.SendMsg? then SuspendWith(t.v, t.kind != YieldMsg)
      else if L.Settle? then SuspendWith(L.v, L.kind != YieldMsg)
      else Silent
  }

  /** A message on its way counts as delivered. */
  ghost function View(s: State, chain: seq<Tid>): Abstract {
    Does(Base(s, chain), Message(s, chain))
  }

  /** While the end of the chain executes its own code nothing is on its way. */
  lemma Settled(s: State, chain: seq<Tid>)
    requires Inv(s, chain) && s.ts[Last(chain)].at == Run
    ensures View(s, chain) == Base(s, chain)
    ensures forall t: nat :: Known(s, t) ==> Given(s, chain, t) == s.ts[t].got
  {
    if |chain| > 1 { assert LinkAt(s, chain, |chain| - 2); }
  }

  ghost predicate Refines(s: State, a: Action, chain: seq<Tid>)
    requires Enabled(s, a) && chain != []
  {
    Can(View(s, chain), LabelOf(s, a))
      && View(Next(s, a), ChainAfter(s, a, chain)) == Does(View(s, chain), LabelOf(s, a))
  }

  lemma CreateRefines(s: State, a: Action, chain: seq<Tid>)
    requires Inv(s, chain) && a.Create? && Enabled(s, a)
    ensures Refines(s, a, chain)
  {
    var s' := Next(s, a);
    ActiveIsLast(s, chain, a.who);
    CreateKeeps(s, a, chain);
    Settled(s, chain);
    Settled(s', chain);
    assert Base(s', chain).got == Base(s, chain).got + [0];
    assert Base(s', chain).dead == Base(s, chain).dead;
  }

  lemma ResumeRefines(s: State, a: Action, chain: seq<Tid>)
    requires Inv(s, chain) && a.Resume? && Enabled(s, a)
    ensures Refines(s, a, chain)
  {
    ActiveIsLast(s, chain, a.who);
    Settled(s, chain);
    if s.ts[a.co].status == Suspended {
      if a.depth >= s.maxCCalls {
        assert Next(s, a).ts == s.ts;
      } else {
        SuspendedOutside(s, chain, a.co);
        ResumedBase(s, a, chain);
      }
    }
  }

  /** A coroutine is resumed. */
  lemma ResumedBase(s: State, a: Action, chain: seq<Tid>)
    requires Inv(s, chain) && a.Resume? && Enabled(s, a) && a.who == Last(chain) && a.co !in chain
    requires s.ts[a.co].status == Suspended && a.depth < s.maxCCalls
    ensures var x, s', chain' := Base(s, chain), Next(s, a), ChainAfter(s, a, chain);
            Base(s', chain') == x.(chain := chain', got := x.got[a.co := a.v]) && Message(s', chain') == Silent
  {
    var s', chain' := Next(s, a), ChainAfter(s, a, chain);
    var x, y := Base(s, chain), Base(s', chain');
    Settled(s, chain);
    assert chain'[|chain'| - 2] == a.who;
    assert y.got == x.got[a.co := a.v];
    assert y.dead == x.dead;
  }

  lemma HandArgsRefines(s: State, a: Action, chain: seq<Tid>)
    requires Inv(s, chain) && a.HandArgs? && Enabled(s, a)
    ensures Refines(s, a, chain)
  {
    EndsOf(s, chain, a.who);
    assert Base(Next(s, a), chain).got == Base(s, chain).got;
    assert Base(Next(s, a), chain).dead == Base(s, chain).dead;
  }

  /** Steps that only move a message, or change what drives a coroutine. */
  lemma InnerSame(s: State, a: Action, chain: seq<Tid>)
    requires Inv(s, chain) && (a.Promote? || a.Deliver?) && Enabled(s, a)
    ensures Base(Next(s, a), chain) == Base(s, chain) && Message(Next(s, a), chain) == Message(s, chain)
  {
    EndsOf(s, chain, a.who);
    InnerBase(s, a, chain);
  }

  lemma InnerBase(s: State, a: Action, chain: seq<Tid>)
    requires Inv(s, chain) && (a.Promote? || a.Deliver?) && Enabled(s, a)
    requires |chain| > 1 && chain[|chain| - 2] == a.who
    ensures Base(Next(s, a), chain) == Base(s, chain)
  {
    assert Base(Next(s, a), chain).got == Base(s, chain).got;
    assert Base(Next(s, a), chain).dead == Base(s, chain).dead;
  }

  /** The message sets out. */
  lemma ChanOutRefines(s: State, a: Action, chain: seq<Tid>)
    requires Inv(s, chain) && a.ChanOut? && Enabled(s, a)
    ensures Refines(s, a, chain)
  {
    ActiveIsLast(s, chain, a.co);
    assert |chain| > 1;
    assert LinkAt(s, chain, |chain| - 2);
    assert Base(Next(s, a), chain).got == Base(s, chain).got;
    assert Base(Next(s, a), chain).dead == Base(s, chain).dead;
    assert Message(Next(s, a), chain) == LabelOf(s, a) && Message(s, chain) == Silent;
  }

  /** A coroutine gives v to its resumer. */
  lemma OutSame(s: State, chain: seq<Tid>, s': State, who: Tid, v: Vals, ends: bool)
    requires Inv(s, chain) && |chain| > 1 && chain[|chain| - 2] == who && Inv(s', chain[..|chain| - 1])
    requires Only(s, s', who, Last(chain)) && !s.ts[who].at.SendArgs?
    requires s'.ts[who].at == Run && s'.ts[who].got == v && s'.ts[Last(chain)].got == s.ts[Last(chain)].got
    requires s'.ts[Last(chain)].status == if ends then Dead else Suspended
    ensures Can(Base(s, chain), SuspendWith(v, ends))
    ensures View(s', chain[..|chain| - 1]) == Does(Base(s, chain), SuspendWith(v, ends))
  {
    var chain' := chain[..|chain| - 1];
    var x, y := Base(s, chain), Base(s', chain');
    StatusesAre(s, chain);
    StatusesAre(s', chain');
    Settled(s', chain');
    assert y.got == x.got[who := v];
    assert y.dead == if ends then x.dead + {Last(chain)} else x.dead;
  }

  lemma CloseRefines(s: State, a: Action, chain: seq<Tid>)
    requires Inv(s, chain) && a.Close? && Enabled(s, a)
    ensures Refines(s, a, chain)
  {
    var s' := Next(s, a);
    ActiveIsLast(s, chain, a.who);
    CloseKeeps(s, a, chain);
    Settled(s, chain);
    if s.ts[a.co].status == Suspended || s.ts[a.co].status == Dead {
      SuspendedOutside(s, chain, a.co);
      Settled(s', chain);
      assert Base(s', chain).got == Base(s, chain).got;
      assert Base(s', chain).dead == Base(s, chain).dead + {a.co};
    }
  }

  lemma SyncOutRefines(s: State, a: Action, chain: seq<Tid>)
    requires Inv(s, chain) && a.SyncOut? && Enabled(s, a)
    ensures Refines(s, a, chain)
  {
    SyncOutKeeps(s, a, chain);
    EndsOf(s, chain, a.who);
    Settled(s, chain);
    OutSame(s, chain, Next(s, a), a.who, a.v, a.kind != YieldMsg);
  }

  lemma SetRefines(s: State, a: Action, chain: seq<Tid>)
    requires Inv(s, chain) && a.Set? && Enabled(s, a)
    ensures Refines(s, a, chain)
  {
    SetKeeps(s, a, chain);
    SettlingEnds(s, a, chain);
    EndsOf(s, chain, a.who);
    OutSame(s, chain, Next(s, a), a.who, s.ts[a.who].at.v, s.ts[a.who].at.kind != YieldMsg);
  }

  /** Every step, of every driver, is the step of the manual's coroutines that its label says, with
      the values of the step itself. */
  lemma StepRefines(s: State, a: Action, chain: seq<Tid>)
    requires Inv(s, chain) && Enabled(s, a)
    ensures Can(View(s, chain), LabelOf(s, a))
    ensures View(Next(s, a), ChainAfter(s, a, chain)) == Does(View(s, chain), LabelOf(s, a))
  {
    match a
    case Create(_) => CreateRefines(s, a, chain);
    case Resume(_, _, _, _) => ResumeRefines(s, a, chain);
    case HandArgs(_, _) => HandArgsRefines(s, a, chain);
    case Promote(_, _) => InnerSame(s, a, chain);
    case Deliver(_, _) => InnerSame(s, a, chain);
    case ChanOut(_, _, _) => ChanOutRefines(s, a, chain);
    case SyncOut(_, _, _, _) => SyncOutRefines(s, a, chain);
    case Set(_) => SetRefines(s, a, chain);
    case Close(_, _) => CloseRefines(s, a, chain);
  }

  // ---------------------------------------------------------------------------------------------
  // What is given over whole runs

  /** A resume takes effect exactly for a thread that is neither dead nor in the chain, within the limit
      on C calls, and a close exactly for one that is not in the chain. */
  lemma TakesEffect(s: State, a: Action, chain: seq<Tid>)
    requires Inv(s, chain) && Enabled(s, a)
    ensures a.Resume? ==>
              (LabelOf(s, a) == ResumeOf(a.co, a.v) <==>
                 a.co !in chain && s.ts[a.co].status != Dead && a.depth < s.maxCCalls)
    ensures a.Close? ==> (LabelOf(s, a) == CloseOf(a.co) <==> a.co !in chain)
  {
    if a.Resume? || a.Close? {
      StatusesAre(s, chain);
      if a.co in chain {
        assert chain == chain[..|chain| - 1] + [Last(chain)];
      }
    }
  }

  ghost function Labels(s: State, acts: seq<Action>): seq<Label>
    requires Runnable(s, acts)
    decreases |acts|
  {
    if acts == [] then [] else [LabelOf(s, acts[0])] + Labels(Next(s, acts[0]), acts[1..])
  }

  ghost predicate Legal(x: Abstract, ls: seq<Label>)
    decreases |ls|
  {
    ls == [] || (Can(x, ls[0]) && Legal(Does(x, ls[0]), ls[1..]))
  }

  ghost function Replay(x: Abstract, ls: seq<Label>): Abstract
    requires Legal(x, ls)
    decreases |ls|
  {
    if ls == [] then x else Replay(Does(x, ls[0]), ls[1..])
  }

  lemma {:induction false} RunRefines(s: State, acts: seq<Action>, chain: seq<Tid>) returns (chain': seq<Tid>)
    requires Inv(s, chain) && Runnable(s, acts)
    ensures Inv(Final(s, acts), chain')
    ensures Legal(View(s, chain), Labels(s, acts))
            && View(Final(s, acts), chain') == Replay(View(s, chain), Labels(s, acts))
    decreases |acts|
  {
    chain' := chain;
    if acts != [] {
      StepKeeps(s, acts[0], chain);
      StepRefines(s, acts[0], chain);
      chain' := RunRefines(Next(s, acts[0]), acts[1..], ChainAfter(s, acts[0], chain));
    }
  }

  lemma StartView(maxCCalls: nat, nCcalls: nat)
    ensures Inv(Start(maxCCalls, nCcalls), [MAIN])
    ensures View(Start(maxCCalls, nCcalls), [MAIN]) == Abstract([MAIN], {}, [0])
  {
    assert View(Start(maxCCalls, nCcalls), [MAIN]).dead == {};
  }

  /** The threads hold what the abstract coroutines were given. */
  ghost predicate Agree(s: State, chain: seq<Tid>, y: Abstract) {
    && y.chain == chain && |y.got| == |s.ts|
    && forall t: nat :: Known(s, t) ==> s.ts[t].got == y.got[t] && (s.ts[t].status == Dead <==> t in y.dead)
  }

  lemma SettledView(s: State, chain: seq<Tid>)
    requires Inv(s, chain) && s.ts[Last(chain)].at == Run
    ensures Agree(s, chain, View(s, chain))
  {
    Settled(s, chain);
  }

  /** After every run, while some thread executes its own code, each thread holds what the manual's
      coroutines were given by the same resumes and yields, the running thread is theirs, and the
      finished ones are theirs. */
  lemma ValuesPassed(maxCCalls: nat, nCcalls: nat, acts: seq<Action>) returns (chain: seq<Tid>)
    requires Runnable(Start(maxCCalls, nCcalls), acts)
    ensures var s0 := Start(maxCCalls, nCcalls); var s, x := Final(s0, acts), Abstract([MAIN], {}, [0]);
            && Inv(s, chain) && Legal(x, Labels(s0, acts))
            && (s.ts[Last(chain)].at == Run ==> Agree(s, chain, Replay(x, Labels(s0, acts))))
  {
    var s0 := Start(maxCCalls, nCcalls);
    StartView(maxCCalls, nCcalls);
    chain := RunRefines(s0, acts, [MAIN]);
    var s := Final(s0, acts);
    if s.ts[Last(chain)].at == Run { SettledView(s, chain); }
  }
}
