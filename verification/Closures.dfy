/**
 Closures at run time: the descriptors of the compiler, wired by pushClosure to upvalues that stand
 for the variables of the stack.
 */
module Closures {
  import opened Options
  import opened Machine
  import U = Upvalues
  import opened Scope

  /** The variable in each slot, at the moment. */
  function VarIn(s: U.Cells): nat -> nat {
    (i: nat) => if i < |s.slot| then s.slot[i] else 0
  }

  /** The variables that the upvalues of a closure stand for. */
  function VarsOf(s: U.Cells, hs: seq<nat>): seq<nat>
    requires forall u :: 0 <= u < |hs| ==> hs[u] < |s.refs|
  {
    seq(|hs|, u requires 0 <= u < |hs| => s.refs[hs[u]])
  }

  predicate Live(s: U.Cells, hs: seq<nat>) {
    forall u :: 0 <= u < |hs| ==> hs[u] < |s.refs|
  }

  /** The descriptors can be followed from a frame. */
  predicate Within(ups: seq<UpvalDesc>, s: U.Cells, base: nat, encup: seq<nat>) {
    forall u :: 0 <= u < |ups| ==> if ups[u].inStack then base + ups[u].index < |s.slot| else ups[u].index < |encup|
  }

  /** More references to the same variables. */
  predicate MoreRefs(s: U.Cells, s': U.Cells) {
    s'.slot == s.slot && s'.store == s.store && s.refs <= s'.refs
  }

  /** The variable that a descriptor leads to. */
  function Wanted(d: UpvalDesc, s: U.Cells, base: nat, encup: seq<nat>): nat
    requires Live(s, encup) && if d.inStack then base + d.index < |s.slot| else d.index < |encup|
  {
    if d.inStack then s.slot[base + d.index] else s.refs[encup[d.index]]
  }

  /** The cells after one descriptor, and the handle that it gives. */
  function Captured(s: U.Cells, d: UpvalDesc, base: nat): (s': U.Cells)
    requires U.Wf(s) && (d.inStack ==> base + d.index < |s.slot|)
    ensures U.Wf(s') && MoreRefs(s, s')
  {
    if d.inStack then U.Apply(s, U.Op.Capture(base + d.index)).0 else s
  }

  function Handle(s: U.Cells, d: UpvalDesc, encup: seq<nat>): nat
    requires d.inStack || d.index < |encup|
  {
    if d.inStack then |s.refs| else encup[d.index]
  }

  /** The first n handles of a new closure, and the cells with the references captured for them. */
  function Pushed(ups: seq<UpvalDesc>, n: nat, s: U.Cells, base: nat, encup: seq<nat>): (r: (seq<nat>, U.Cells))
    requires U.Wf(s) && Live(s, encup) && Within(ups, s, base, encup) && n <= |ups|
    ensures U.Wf(r.1) && MoreRefs(s, r.1) && |r.0| == n && Live(r.1, r.0)
    ensures forall u :: 0 <= u < n ==> r.1.refs[r.0[u]] == Wanted(ups[u], s, base, encup)
  {
    if n == 0 then ([], s)
    else
      var (hs, s1) := Pushed(ups, n - 1, s, base, encup);
      (hs + [Handle(s1, ups[n - 1], encup)], Captured(s1, ups[n - 1], base))
  }

  /** pushClosure: each upvalue of the new closure is found for a slot, or is the enclosing one's. */
  method PushClosure(L: U.State, us: seq<U.Upvalue>, ups: seq<UpvalDesc>, base: nat, encup: seq<nat>, ghost s: U.Cells)
    returns (us': seq<U.Upvalue>, hs: seq<nat>)
    requires U.Rep(L, us, s) && Live(s, encup) && Within(ups, s, base, encup)
    modifies L
    ensures hs == Pushed(ups, |ups|, s, base, encup).0 && U.Rep(L, us', Pushed(ups, |ups|, s, base, encup).1)
    ensures forall u :: u in us' ==> u in us || fresh(u)
  {
    us', hs := us, [];
    ghost var s' := s;
    for i := 0 to |ups|
      invariant Pushed(ups, i, s, base, encup) == (hs, s') && U.Rep(L, us', s')
      invariant forall u :: u in us' ==> u in us || fresh(u)
    {
      var handle;
      us', handle := PushOne(L, us', ups[i], base, encup, s');
      hs, s' := hs + [handle], Captured(s', ups[i], base);
    }
  }

  method PushOne(L: U.State, us: seq<U.Upvalue>, d: UpvalDesc, base: nat, encup: seq<nat>, ghost s: U.Cells)
    returns (us': seq<U.Upvalue>, handle: nat)
    requires U.Rep(L, us, s) && if d.inStack then base + d.index < |s.slot| else d.index < |encup|
    modifies L
    ensures handle == Handle(s, d, encup) && U.Rep(L, us', Captured(s, d, base))
    ensures forall u :: u in us' ==> u in us || fresh(u)
  {
    us' := us;
    if d.inStack {
      us' := U.CaptureSlot(L, us, base + d.index, s);
      handle := |us|;
    } else {
      handle := encup[d.index];
    }
  }

  // ---------------------------------------------------------------------------------------------
  // Nested functions at work

  /** The handles of a function's closure, and where its registers start. */
  datatype Activation = Activation(hs: seq<nat>, base: nat)

  /** An operation on variables; or the innermost function at work makes the closure of the one
      inside it and calls it, with its registers from `base` on. */
  datatype Event = Use(op: U.Op) | Enter(base: nat)

  /** frames is what the activations mean: the variables of their upvalues, and the variable that
      was in each slot when they made the next closure. */
  datatype World = World(s: U.Cells, acts: seq<Activation>, frames: seq<Frame<nat>>)

  predicate Possible(w: World, funcs: seq<Func>, e: Event) {
    && U.Wf(w.s)
    && match e
       case Use(op) => U.Fits(w.s, op)
       case Enter(_) =>
         && 0 < |w.acts| == |w.frames| < |funcs|
         && var a := w.acts[|w.acts| - 1];
         Live(w.s, a.hs) && Within(funcs[|w.acts|].upvalues, w.s, a.base, a.hs)
  }

  function After(w: World, funcs: seq<Func>, e: Event): World
    requires Possible(w, funcs, e)
  {
    match e
    case Use(op) => w.(s := U.Apply(w.s, op).0)
    case Enter(base) =>
      var n, a := |w.acts|, w.acts[|w.acts| - 1];
      var (hs, s') := Pushed(funcs[n].upvalues, |funcs[n].upvalues|, w.s, a.base, a.hs);
      World(s', w.acts + [Activation(hs, base)],
            w.frames[n - 1 := w.frames[n - 1].(find := VarIn(w.s))] + [Frame(VarsOf(s', hs), base, VarIn(s'))])
  }

  /** The frames describe the activations, each closure wired in the frame around it. */
  ghost predicate Chain(w: World, funcs: seq<Func>) {
    && U.Wf(w.s) && 0 < |w.acts| == |w.frames| <= |funcs|
    && (forall i :: 0 <= i < |w.acts| ==> Described(w, i))
    && Nested(funcs[..|w.acts|], w.frames)
  }

  ghost predicate Described(w: World, i: nat)
    requires i < |w.acts| == |w.frames|
  {
    Live(w.s, w.acts[i].hs) && w.frames[i].upvals == VarsOf(w.s, w.acts[i].hs) && w.frames[i].base == w.acts[i].base
  }

  lemma UseKeeps(w: World, funcs: seq<Func>, op: U.Op)
    requires Chain(w, funcs) && Possible(w, funcs, Use(op))
    ensures Chain(After(w, funcs, Use(op)), funcs)
  {
    var w' := After(w, funcs, Use(op));
    assert w.s.refs <= w'.s.refs;
    forall i | 0 <= i < |w'.acts| ensures Described(w', i) { assert Described(w, i); }
  }

  lemma EnterKeeps(w: World, funcs: seq<Func>, base: nat)
    requires Chain(w, funcs) && Possible(w, funcs, Enter(base))
    ensures Chain(After(w, funcs, Enter(base)), funcs)
  {
    var n, w' := |w.acts|, After(w, funcs, Enter(base));
    forall i | 0 <= i < n + 1 ensures Described(w', i) { if i < n { assert Described(w, i); } }
    var fs := funcs[..n + 1];
    forall i | 0 < i < |fs| ensures MadeIn(fs, w'.frames, i) {
      if i < n {
        assert MadeIn(funcs[..n], w.frames, i);
      } else {
        EnterWires(w, funcs, base);
      }
    }
  }

  lemma EnterWires(w: World, funcs: seq<Func>, base: nat)
    requires Chain(w, funcs) && Possible(w, funcs, Enter(base))
    ensures var n, w' := |w.acts|, After(w, funcs, Enter(base));
            Wired(funcs[n].upvalues, w'.frames[n - 1], w'.frames[n].upvals)
  {
    assert Described(w, |w.acts| - 1);
  }

  ghost predicate AllPossible(w: World, funcs: seq<Func>, es: seq<Event>)
    decreases |es|
  {
    es == [] || (Possible(w, funcs, es[0]) && AllPossible(After(w, funcs, es[0]), funcs, es[1..]))
  }

  ghost function Final(w: World, funcs: seq<Func>, es: seq<Event>): World
    requires AllPossible(w, funcs, es)
    decreases |es|
  {
    if es == [] then w else Final(After(w, funcs, es[0]), funcs, es[1..])
  }

  lemma {:induction false} ChainKept(w: World, funcs: seq<Func>, es: seq<Event>)
    requires Chain(w, funcs) && AllPossible(w, funcs, es)
    ensures Chain(Final(w, funcs, es), funcs)
    decreases |es|
  {
    if es != [] {
      match es[0] {
        case Use(op) => UseKeeps(w, funcs, op);
        case Enter(base) => EnterKeeps(w, funcs, base);
      }
      ChainKept(After(w, funcs, es[0]), funcs, es[1..]);
    }
  }

  /** Upvalue u of the function at depth i stands for the variable c. */
  ghost predicate StandsFor(w: World, i: nat, u: nat, c: nat) {
    i < |w.acts| && u < |w.acts[i].hs| && w.acts[i].hs[u] < |w.s.refs| && w.s.refs[w.acts[i].hs[u]] == c
  }

  /** After any events, every upvalue of every function at work stands for the variable that its name
      means: the one that was in the declaration's register when the closure inside was made. */
  lemma NameIsVariable(w: World, funcs: seq<Func>, vars: seq<VarDesc>, nactvar: nat, es: seq<Event>, i: nat, u: nat)
    requires Chain(w, funcs) && AllPossible(w, funcs, es)
    requires var n := |Final(w, funcs, es).acts|;
             n <= |funcs| && Ok(vars, nactvar, funcs[..n]) && 0 < i < n && u < |funcs[i].upvalues|
    ensures var w' := Final(w, funcs, es); var m := Means(vars, funcs[..|w'.acts|], i - 1, funcs[i].upvalues[u].name);
            && Chain(w', funcs) && m != Global
            && (m.Declared? ==> m.fn < i && HasVar(vars, funcs[m.fn], m.v)
                                && var f := w'.frames[m.fn];
                                   StandsFor(w', i, u, f.find(f.base + VarOf(vars, funcs[m.fn], m.v).ridx)))
            && (m.External? ==> m.up < |w'.frames[0].upvals| && StandsFor(w', i, u, w'.frames[0].upvals[m.up]))
  {
    ChainKept(w, funcs, es);
    var w' := Final(w, funcs, es);
    NameAtRunTime(vars, nactvar, funcs[..|w'.acts|], w'.frames, i, u);
    assert Described(w', i);
  }

  /** The events with the run-time structures: they represent the cells throughout, so that reading
      and writing an upvalue reads and writes its variable. */
  method Play(L: U.State, us: seq<U.Upvalue>, funcs: seq<Func>, acts: seq<Activation>, es: seq<Event>, ghost w: World)
    returns (us': seq<U.Upvalue>, acts': seq<Activation>, out: seq<Option<Value>>)
    requires U.Rep(L, us, w.s) && acts == w.acts && AllPossible(w, funcs, es)
    modifies L, L.stack, set u | u in us
    ensures U.Rep(L, us', Final(w, funcs, es).s) && acts' == Final(w, funcs, es).acts && out == Read(w, funcs, es)
    decreases |es|
  {
    us', acts', out := us, acts, [];
    if es == [] {
      return;
    }
    var o := None;
    match es[0] {
      case Use(op) =>
        us', o := U.Do(L, us, op, w.s);
      case Enter(base) =>
        var a, hs := acts[|acts| - 1], [];
        us', hs := PushClosure(L, us, funcs[|acts|].upvalues, a.base, a.hs, w.s);
        acts' := acts + [Activation(hs, base)];
    }
    us', acts', out := Play(L, us', funcs, acts', es[1..], After(w, funcs, es[0]));
    out := [o] + out;
  }

  /** What the events read: for an upvalue, the value of its variable. */
  ghost function Read(w: World, funcs: seq<Func>, es: seq<Event>): seq<Option<Value>>
    requires AllPossible(w, funcs, es)
    decreases |es|
  {
    if es == [] then []
    else
      [match es[0] case Use(op) => U.Apply(w.s, op).1 case Enter(_) => None]
        + Read(After(w, funcs, es[0]), funcs, es[1..])
  }
}
