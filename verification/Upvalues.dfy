/**
 Run-time upvalues: shared references to variables that alias a stack slot while they are open
 and own their value once closed, against a store with one cell for each variable.
 */
module Upvalues {
  import opened Options
  import opened Machine

  // ---------------------------------------------------------------------------------------------
  // One cell for each variable

  /** The variable that lives in each slot, the value of each variable, and the variable that each
      captured reference stands for. */
  datatype Cells = Cells(slot: seq<nat>, store: seq<Value>, refs: seq<nat>)

  datatype Op =
    | Write(i: nat, v: Value)       // assign to the local in slot i
    | Read(i: nat)
    | Capture(i: nat)               // a closure captures slot i: one more reference
    | SetRef(h: nat, v: Value)      // assign through reference h
    | GetRef(h: nat)
    | Close(level: nat)             // the variables in slots from level on end

  predicate Wf(s: Cells) {
    && (forall i :: 0 <= i < |s.slot| ==> s.slot[i] < |s.store|)
    && (forall i, j :: 0 <= i < j < |s.slot| ==> s.slot[i] != s.slot[j])
    && (forall h :: 0 <= h < |s.refs| ==> s.refs[h] < |s.store|)
  }

  predicate Fits(s: Cells, op: Op) {
    match op
    case Write(i, _) => i < |s.slot|
    case Read(i) => i < |s.slot|
    case Capture(i) => i < |s.slot|
    case SetRef(h, _) => h < |s.refs|
    case GetRef(h) => h < |s.refs|
    case Close(_) => true
  }

  /** From level on, every slot holds a new variable, which starts with what the slot contains. */
  function Renewed(s: Cells, level: nat): (s': Cells)
    requires Wf(s)
    ensures Wf(s') && s'.refs == s.refs && |s'.slot| == |s.slot| && |s.store| <= |s'.store|
    ensures forall c :: 0 <= c < |s.store| ==> s'.store[c] == s.store[c]
    ensures forall i :: 0 <= i < |s.slot| && i < level ==> s'.slot[i] == s.slot[i]
    ensures forall i :: level <= i < |s.slot| ==> s'.slot[i] >= |s.store|
    ensures forall i :: 0 <= i < |s.slot| ==> s'.store[s'.slot[i]] == s.store[s.slot[i]]
  {
    var n := |s.store|;
    s.(slot := seq(|s.slot|, i requires 0 <= i < |s.slot| => if i < level then s.slot[i] else n + i),
       store := s.store + seq(|s.slot|, i requires 0 <= i < |s.slot| => s.store[s.slot[i]]))
  }

  function Apply(s: Cells, op: Op): (r: (Cells, Option<Value>))
    requires Wf(s) && Fits(s, op)
    ensures Wf(r.0) && |r.0.slot| == |s.slot|
    ensures r.1.Some? <==> op.Read? || op.GetRef?
  {
    match op
    case Write(i, v) => (s.(store := s.store[s.slot[i] := v]), None)
    case Read(i) => (s, Some(s.store[s.slot[i]]))
    case Capture(i) => (s.(refs := s.refs + [s.slot[i]]), None)
    case SetRef(h, v) => (s.(store := s.store[s.refs[h] := v]), None)
    case GetRef(h) => (s, Some(s.store[s.refs[h]]))
    case Close(level) => (Renewed(s, level), None)
  }

  function Start(size: nat): (s: Cells)
    ensures Wf(s)
  {
    Cells(seq(size, i requires 0 <= i < size => i), seq(size, _ => Nil), [])
  }

  predicate AllFit(s: Cells, ops: seq<Op>)
    requires Wf(s)
    decreases |ops|
  {
    ops == [] || (Fits(s, ops[0]) && AllFit(Apply(s, ops[0]).0, ops[1..]))
  }

  /** What every operation of a run returns. */
  function Outputs(s: Cells, ops: seq<Op>): (out: seq<Option<Value>>)
    requires Wf(s) && AllFit(s, ops)
    ensures |out| == |ops|
    decreases |ops|
  {
    if ops == [] then [] else var r := Apply(s, ops[0]); [r.1] + Outputs(r.0, ops[1..])
  }

  // ---------------------------------------------------------------------------------------------
  // The run-time structures

  class Upvalue {
    const l: State
    var idx: int        // stack index while open, -1 once closed
    var v: Value

    constructor (l: State, idx: int)
      ensures this.l == l && this.idx == idx
    {
      this.l, this.idx, v := l, idx, Nil;
    }

    predicate IsOpen()
      reads this
    {
      idx >= 0
    }

    predicate Bounded()
      reads this, l
    {
      idx < l.stack.Length
    }

    method Get() returns (x: Value)
      requires Bounded()
      ensures x == if idx >= 0 then l.stack[idx] else v
    {
      if idx >= 0 {
        return l.stack[idx];
      }
      return v;
    }

    method Set(x: Value)
      requires Bounded()
      modifies this`v, l.stack
      ensures if idx >= 0 then v == old(v) && l.stack[..] == old(l.stack[..])[idx := x]
              else v == x && l.stack[..] == old(l.stack[..])
    {
      if idx >= 0 {
        l.stack[idx] := x;
        return;
      }
      v := x;
    }

    method Detach()
      requires Bounded()
      modifies this
      ensures idx < 0
      ensures if old(idx) >= 0 then idx == -1 && v == l.stack[old(idx)] else idx == old(idx) && v == old(v)
    {
      if idx >= 0 {
        v := l.stack[idx];
        idx := -1;
      }
    }
  }

  /** The upvalues among the first n that are open below the level, in order. */
  ghost function Below(us: seq<Upvalue>, idxs: seq<int>, level: nat, n: nat): seq<Upvalue>
    requires n <= |us| == |idxs|
  {
    if n == 0 then [] else Below(us, idxs, level, n - 1) + if idxs[n - 1] < level then [us[n - 1]] else []
  }

  lemma Filtered(L: State, all: seq<Upvalue>, idxs: seq<int>, vs: seq<Value>, level: nat)
    requires |all| == |idxs| == |vs| && NoDup(all) && forall j, k :: 0 <= j < k < |idxs| ==> idxs[j] != idxs[k]
    requires forall k :: 0 <= k < |all| ==>
             all[k].l == L && 0 <= idxs[k] < L.stack.Length && L.Handled(all[k], level, idxs[k], vs[k])
    requires L.openuv == Below(all, idxs, level, |all|)
    ensures L.Valid()
  {
    BelowMembers(all, idxs, level, |all|);
    forall j, k | 0 <= j < k < |L.openuv| ensures L.openuv[j].idx != L.openuv[k].idx {
      assert L.openuv[j] in L.openuv && L.openuv[k] in L.openuv;
    }
  }

  ghost predicate NoDup(us: seq<Upvalue>) {
    forall j, k :: 0 <= j < k < |us| ==> us[j] != us[k]
  }

  /** The filter loses nothing, adds nothing and repeats nothing. */
  lemma {:induction false} BelowMembers(us: seq<Upvalue>, idxs: seq<int>, level: nat, n: nat)
    requires n <= |us| == |idxs|
    requires NoDup(us)
    ensures forall u :: u in Below(us, idxs, level, n) <==> exists k :: 0 <= k < n && us[k] == u && idxs[k] < level
    ensures NoDup(Below(us, idxs, level, n))
    decreases n
  {
    if n > 0 {
      BelowMembers(us, idxs, level, n - 1);
      var b, b' := Below(us, idxs, level, n - 1), Below(us, idxs, level, n);
      forall u ensures u in b' <==> exists k :: 0 <= k < n && us[k] == u && idxs[k] < level {
        assert u in b' <==> u in b || (u == us[n - 1] && idxs[n - 1] < level);
      }
      assert us[n - 1] !in b;
      forall j, k | 0 <= j < k < |b'| ensures b'[j] != b'[k] {
        assert b'[j] == b[j] && b[j] in b;
        assert b'[k] == if k < |b| then b[k] else us[n - 1];
      }
    }
  }

  class State {
    const stack: array<Value>
    var openuv: seq<Upvalue>

    constructor (size: nat)
      ensures stack.Length == size && openuv == [] && fresh(stack)
      ensures forall i :: 0 <= i < size ==> stack[i] == Nil
    {
      stack := new Value[size](_ => Nil);
      openuv := [];
    }

    /** Every listed upvalue is open on a slot of its own. */
    ghost predicate Valid()
      reads this, openuv
    {
      && (forall u :: u in openuv ==> u.l == this && 0 <= u.idx < stack.Length)
      && (forall j, k :: 0 <= j < k < |openuv| ==> openuv[j].idx != openuv[k].idx)
    }

    /** findupval: the open upvalue of the slot, a new one if there is none. */
    method FindUpval(level: nat) returns (uv: Upvalue)
      requires Valid() && level < stack.Length
      modifies this
      ensures Valid() && uv.idx == level && uv.l == this && uv in openuv
      ensures if exists u :: u in old(openuv) && old(u.idx) == level
              then openuv == old(openuv)
              else fresh(uv) && openuv == old(openuv) + [uv]
    {
      for i := 0 to |openuv|
        invariant openuv == old(openuv) && forall k :: 0 <= k < i ==> openuv[k].idx != level
      {
        if openuv[i].IsOpen() && openuv[i].idx == level {
          return openuv[i];
        }
      }
      uv := new Upvalue(this, level);
      openuv := openuv + [uv];
    }

    /** closeUpvals: the list is filtered in place, reading ahead of where it writes. */
    method CloseUpvals(level: nat)
      requires Valid()
      modifies this, openuv
      ensures Valid()
      ensures openuv == Below(old(openuv), old(Levels()), level, |old(openuv)|)
      ensures forall k :: 0 <= k < |old(openuv)| ==>
                Handled(old(openuv)[k], level, old(openuv[k].idx), old(openuv[k].v))
    {
      ghost var all, idxs, vs := openuv, Levels(), Owned();
      var kept := Filter(level, all, idxs, vs);
      openuv := openuv[..kept];
      Filtered(this, all, idxs, vs, level);
    }

    /** The loop of closeUpvals. */
    method Filter(level: nat, ghost all: seq<Upvalue>, ghost idxs: seq<int>, ghost vs: seq<Value>) returns (kept: nat)
      requires all == openuv && idxs == Levels() && vs == Owned() && NoDup(all)
      requires forall k :: 0 <= k < |openuv| ==> openuv[k].l == this && 0 <= openuv[k].idx < stack.Length
      modifies this, openuv
      ensures kept <= |openuv| && openuv[..kept] == Below(all, idxs, level, |all|)
      ensures forall k :: 0 <= k < |all| ==> Handled(all[k], level, idxs[k], vs[k])
    {
      var len := |openuv|;
      kept := 0;
      for i := 0 to len
        invariant 0 <= kept <= i && |openuv| == len && openuv[i..] == all[i..]
        invariant openuv[..kept] == Below(all, idxs, level, i)
        invariant forall k :: 0 <= k < len ==>
                    if k < i then Handled(all[k], level, idxs[k], vs[k]) else all[k].idx == idxs[k] && all[k].v == vs[k]
      {
        kept := Sift(level, i, kept, all);
      }
    }

    /** One round of the filter. */
    method Sift(level: nat, i: nat, kept: nat, ghost all: seq<Upvalue>) returns (kept': nat)
      requires kept <= i < |openuv| == |all| && openuv[i..] == all[i..]
      requires openuv[i].l == this && 0 <= openuv[i].idx < stack.Length
      modifies this, openuv[i]
      ensures |openuv| == |all| && openuv[i + 1..] == all[i + 1..] && kept' <= i + 1
      ensures openuv[..kept'] == old(openuv[..kept]) + if old(all[i].idx) < level then [all[i]] else []
      ensures Handled(all[i], level, old(all[i].idx), old(all[i].v))
    {
      var uv := openuv[i];
      assert uv == all[i];
      kept' := kept;
      if uv.IsOpen() && uv.idx >= level {
        uv.Detach();
      } else {
        openuv := openuv[kept := uv];
        kept' := kept + 1;
      }
    }

    ghost function Levels(): (ls: seq<int>)
      reads this, openuv
      ensures |ls| == |openuv| && forall k :: 0 <= k < |ls| ==> ls[k] == openuv[k].idx
    {
      seq(|openuv|, k requires 0 <= k < |openuv| reads this, openuv => openuv[k].idx)
    }

    ghost function Owned(): (vs: seq<Value>)
      reads this, openuv
      ensures |vs| == |openuv| && forall k :: 0 <= k < |vs| ==> vs[k] == openuv[k].v
    {
      seq(|openuv|, k requires 0 <= k < |openuv| reads this, openuv => openuv[k].v)
    }

    /** What closing does to an upvalue that was open on slot i. */
    ghost predicate Handled(u: Upvalue, level: nat, i: int, v: Value)
      reads u, stack
    {
      if i < level then u.idx == i && u.v == v
      else u.idx == -1 && 0 <= i < stack.Length && u.v == stack[i]
    }
  }

  // ---------------------------------------------------------------------------------------------
  // Refinement

  /** The reference u stands for the variable c. */
  ghost predicate Stands(L: State, u: Upvalue, s: Cells, c: nat)
    reads L, u
  {
    && u.l == L && c < |s.store|
    && if u.idx >= 0 then u.idx < |s.slot| && s.slot[u.idx] == c && u in L.openuv
       else s.store[c] == u.v && c !in s.slot
  }

  /** The run-time structures represent s; two references are the same object exactly when they
      stand for the same variable. (Comparing with true keeps the verifier from taking the
      conjunction apart wherever it is only passed on.) */
  ghost predicate Rep(L: State, us: seq<Upvalue>, s: Cells)
    reads L, L.stack, L.openuv, us
  {
    (&& Wf(s) && L.Valid()
    && |s.slot| == L.stack.Length && (forall i :: 0 <= i < |s.slot| ==> s.store[s.slot[i]] == L.stack[i])
    && |us| == |s.refs| && (forall h :: 0 <= h < |us| ==> Stands(L, us[h], s, s.refs[h]))
    && (forall g, h :: 0 <= g < |us| && 0 <= h < |us| ==> (us[g] == us[h] <==> s.refs[g] == s.refs[h]))
    && (forall u :: u in L.openuv ==> u in us)) == true
  }

  method WriteSlot(L: State, us: seq<Upvalue>, i: nat, v: Value, ghost s: Cells)
    requires Rep(L, us, s) && i < |s.slot|
    modifies L.stack
    ensures Rep(L, us, Apply(s, Op.Write(i, v)).0)
  {
    L.stack[i] := v;
  }

  method SetThrough(L: State, us: seq<Upvalue>, h: nat, v: Value, ghost s: Cells)
    requires Rep(L, us, s) && h < |us|
    modifies L.stack, set u | u in us
    ensures Rep(L, us, Apply(s, Op.SetRef(h, v)).0)
  {
    us[h].Set(v);
    ghost var s' := Apply(s, Op.SetRef(h, v)).0;
    forall g | 0 <= g < |us| ensures Stands(L, us[g], s', s'.refs[g]) {
      assert us[g] == us[h] <==> s.refs[g] == s.refs[h];
    }
  }

  method CaptureSlot(L: State, us: seq<Upvalue>, i: nat, ghost s: Cells) returns (us': seq<Upvalue>)
    requires Rep(L, us, s) && i < |s.slot|
    modifies L
    ensures Rep(L, us', Apply(s, Op.Capture(i)).0)
    ensures us <= us' && |us'| == |us| + 1 && (us'[|us|] in us || fresh(us'[|us|]))
  {
    var uv := L.FindUpval(i);
    us' := us + [uv];
    ghost var s' := Apply(s, Op.Capture(i)).0;
    forall g, h | 0 <= g < |us'| && 0 <= h < |us'| ensures us'[g] == us'[h] <==> s'.refs[g] == s'.refs[h] {
    }
  }

  method CloseFrom(L: State, us: seq<Upvalue>, level: nat, ghost s: Cells)
    requires Rep(L, us, s)
    modifies L, set u | u in us
    ensures Rep(L, us, Apply(s, Op.Close(level)).0)
    ensures forall u :: u in us && u.idx >= 0 ==> u.idx < level
  {
    ghost var all, idxs, vs := L.openuv, L.Levels(), L.Owned();
    forall h | 0 <= h < |us|
      ensures if us[h].idx >= 0 then us[h] in all && s.slot[us[h].idx] == s.refs[h] else us[h] !in all
    {
      assert Stands(L, us[h], s, s.refs[h]);
    }
    assert forall u :: u in all ==> u in us;
    L.CloseUpvals(level);
    ClosedRep(L, us, s, level, all, idxs, vs);
    assert Apply(s, Op.Close(level)).0 == Renewed(s, level);
  }

  lemma ClosedRep(L: State, us: seq<Upvalue>, s: Cells, level: nat, all: seq<Upvalue>, idxs: seq<int>, vs: seq<Value>)
    requires Wf(s) && |s.slot| == L.stack.Length && |us| == |s.refs| && L.Valid()
    requires forall i :: 0 <= i < |s.slot| ==> s.store[s.slot[i]] == L.stack[i]
    requires |all| == |idxs| == |vs| && NoDup(all) && L.openuv == Below(all, idxs, level, |all|)
    requires forall k :: 0 <= k < |all| ==> 0 <= idxs[k] < |s.slot| && L.Handled(all[k], level, idxs[k], vs[k])
    requires forall h :: 0 <= h < |us| ==>
             us[h].l == L
             && if us[h] in all then Slotted(us[h], all, idxs, s, s.refs[h])
                else Stands(L, us[h], s, s.refs[h]) && us[h].idx < 0
    requires forall g, h :: 0 <= g < |us| && 0 <= h < |us| ==> (us[g] == us[h] <==> s.refs[g] == s.refs[h])
    requires forall u :: u in all ==> u in us
    ensures Rep(L, us, Renewed(s, level)) && forall u :: u in us ==> u.idx < level
  {
    Closed(L, us, s, level, all, idxs, vs);
  }

  lemma Closed(L: State, us: seq<Upvalue>, s: Cells, level: nat, all: seq<Upvalue>, idxs: seq<int>, vs: seq<Value>)
    requires Wf(s) && |s.slot| == L.stack.Length && |us| == |s.refs|
    requires forall i :: 0 <= i < |s.slot| ==> s.store[s.slot[i]] == L.stack[i]
    requires |all| == |idxs| == |vs| && NoDup(all) && L.openuv == Below(all, idxs, level, |all|)
    requires forall k :: 0 <= k < |all| ==> 0 <= idxs[k] < |s.slot| && L.Handled(all[k], level, idxs[k], vs[k])
    requires forall h :: 0 <= h < |us| ==>
             us[h].l == L
             && if us[h] in all then Slotted(us[h], all, idxs, s, s.refs[h])
                else Stands(L, us[h], s, s.refs[h]) && us[h].idx < 0
    ensures forall h :: 0 <= h < |us| ==> Stands(L, us[h], Renewed(s, level), s.refs[h]) && us[h].idx < level
    ensures forall u :: u in L.openuv ==> u in all
  {
    BelowMembers(all, idxs, level, |all|);
    forall h | 0 <= h < |us| ensures Stands(L, us[h], Renewed(s, level), s.refs[h]) && us[h].idx < level {
      if us[h] in all {
        var k :| 0 <= k < |all| && all[k] == us[h] && s.slot[idxs[k]] == s.refs[h];
        Moved(L, us[h], s, level, s.refs[h], idxs[k]);
      }
    }
  }

  ghost predicate Slotted(u: Upvalue, all: seq<Upvalue>, idxs: seq<int>, s: Cells, c: nat)
    requires |all| == |idxs|
  {
    exists k :: 0 <= k < |all| && all[k] == u && 0 <= idxs[k] < |s.slot| && s.slot[idxs[k]] == c
  }

  /** An upvalue that was open on slot i still stands for its variable. */
  lemma Moved(L: State, u: Upvalue, s: Cells, level: nat, c: nat, i: nat)
    requires Wf(s) && u.l == L && i < |s.slot| == L.stack.Length && s.slot[i] == c && s.store[c] == L.stack[i]
    requires exists v :: L.Handled(u, level, i, v)
    requires i < level ==> u in L.openuv
    ensures Stands(L, u, Renewed(s, level), c)
  {
  }

  method Do(L: State, us: seq<Upvalue>, op: Op, ghost s: Cells) returns (us': seq<Upvalue>, out: Option<Value>)
    requires Rep(L, us, s) && Fits(s, op)
    modifies L, L.stack, set u | u in us
    ensures Rep(L, us', Apply(s, op).0) && out == Apply(s, op).1
    ensures forall u :: u in us' ==> u in us || fresh(u)
  {
    us', out := us, None;
    match op {
      case Write(i, v) => WriteSlot(L, us, i, v, s);
      case Read(i) => out := Some(L.stack[i]);
      case Capture(i) => us' := CaptureSlot(L, us, i, s);
      case SetRef(h, v) => SetThrough(L, us, h, v, s);
      case GetRef(h) =>
        assert Stands(L, us[h], s, s.refs[h]);
        var x := us[h].Get();
        out := Some(x);
      case Close(level) => CloseFrom(L, us, level, s);
    }
  }

  /** Every run reads what the cells hold. */
  method Run(size: nat, ops: seq<Op>) returns (out: seq<Option<Value>>)
    requires AllFit(Start(size), ops)
    ensures out == Outputs(Start(size), ops)
  {
    var L := new State(size);
    out := RunOn(L, [], ops, Start(size));
  }

  method RunOn(L: State, us: seq<Upvalue>, ops: seq<Op>, ghost s: Cells) returns (out: seq<Option<Value>>)
    requires Rep(L, us, s) && AllFit(s, ops)
    modifies L, L.stack, set u | u in us
    ensures out == Outputs(s, ops)
    decreases |ops|
  {
    if ops == [] {
      return [];
    }
    var us', o := Do(L, us, ops[0], s);
    var rest := RunOn(L, us', ops[1..], Apply(s, ops[0]).0);
    out := [o] + rest;
  }
}
