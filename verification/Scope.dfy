/**
 Scoping: the compiler's active variables, blocks and upvalue lists, and the resolution of names
 through any number of nested functions.
 */
module Scope {

  datatype VarKind = Regular | ReadOnly | ToClose | CompileTime

  datatype VarDesc = VarDesc(name: string, kind: VarKind, ridx: nat)

  datatype UpvalDesc = UpvalDesc(name: string, inStack: bool, index: nat, kind: VarKind)

  datatype Block = Block(nactvar: nat, upval: bool)

  /** An open function: where its variables start in the shared list, how many are active, its
      upvalues, and its open blocks, innermost last. */
  datatype Func = Func(firstlocal: nat, nactvar: nat, upvalues: seq<UpvalDesc>, blocks: seq<Block>, needclose: bool)

  const MAX_VARS := 200
  const MAX_UPVALUES := 255

  // ---------------------------------------------------------------------------------------------
  // Names in one function

  /** The variable v of f is in the list. */
  predicate HasVar(vars: seq<VarDesc>, f: Func, v: int) {
    0 <= v < f.nactvar && f.firstlocal + v < |vars|
  }

  function VarOf(vars: seq<VarDesc>, f: Func, v: int): VarDesc
    requires HasVar(vars, f, v)
  {
    vars[f.firstlocal + v]
  }

  /** The innermost of the first n variables of f with the name, or -1. */
  function FindVar(vars: seq<VarDesc>, f: Func, n: nat, name: string): (v: int)
    requires n <= f.nactvar && f.firstlocal + n <= |vars|
    ensures -1 <= v < n && (v >= 0 ==> vars[f.firstlocal + v].name == name)
    ensures forall a :: f.firstlocal + v < a < f.firstlocal + n ==> vars[a].name != name
  {
    if n == 0 then -1 else if vars[f.firstlocal + n - 1].name == name then n - 1 else FindVar(vars, f, n - 1, name)
  }

  function LocalOf(vars: seq<VarDesc>, f: Func, name: string): int
    requires f.firstlocal + f.nactvar <= |vars|
  {
    FindVar(vars, f, f.nactvar, name)
  }

  predicate IsUp(f: Func, name: string, i: int) {
    0 <= i < |f.upvalues| && f.upvalues[i].name == name
  }

  predicate HasUp(f: Func, name: string) {
    exists i :: 0 <= i < |f.upvalues| && f.upvalues[i].name == name
  }

  /** The block that declares variable v: the innermost one that was entered with at most v
      variables active. */
  predicate Declares(f: Func, v: int, b: int) {
    0 <= b < |f.blocks| && f.blocks[b].nactvar <= v && forall c :: b < c < |f.blocks| ==> f.blocks[c].nactvar > v
  }

  ghost predicate Marked(f: Func, v: int) {
    exists b :: Declares(f, v, b) && f.blocks[b].upval
  }

  /** The registers below variable n: one for each variable that is not a compile-time constant. */
  function Level(vars: seq<VarDesc>, f: Func, n: nat): (r: nat)
    requires n <= f.nactvar && f.firstlocal + n <= |vars|
    ensures r <= n
  {
    if n == 0 then 0 else Level(vars, f, n - 1) + if vars[f.firstlocal + n - 1].kind == CompileTime then 0 else 1
  }

  // ---------------------------------------------------------------------------------------------
  // Names through all open functions

  /** What a name means: section 3.5 of the Lua 5.4 Reference Manual. */
  datatype Meaning = Declared(fn: nat, v: nat) | External(up: nat) | Global

  /** The innermost declaration visible in function i; the outermost function also has upvalues that
      it was given from outside. */
  function Means(vars: seq<VarDesc>, funcs: seq<Func>, i: nat, name: string): (m: Meaning)
    requires i < |funcs| && Within(vars, funcs)
    ensures m.Declared? ==> m.fn <= i && LocalOf(vars, funcs[m.fn], name) == m.v
    ensures m.Declared? && m.fn == i <==> LocalOf(vars, funcs[i], name) >= 0
  {
    var v := LocalOf(vars, funcs[i], name);
    if v >= 0 then Declared(i, v)
    else if i > 0 then Means(vars, funcs, i - 1, name)
    else var u := FirstUp(funcs[0].upvalues, name, 0); if u >= 0 then External(u) else Global
  }

  function FirstUp(ups: seq<UpvalDesc>, name: string, i: nat): (u: int)
    requires i <= |ups|
    ensures u == -1 || (i <= u < |ups| && ups[u].name == name)
    ensures u == -1 ==> forall k :: i <= k < |ups| ==> ups[k].name != name
    decreases |ups| - i
  {
    if i == |ups| then -1 else if ups[i].name == name then i else FirstUp(ups, name, i + 1)
  }

  /** Every function's variables are in the list. */
  predicate Within(vars: seq<VarDesc>, funcs: seq<Func>) {
    forall i :: 0 <= i < |funcs| ==> funcs[i].firstlocal + funcs[i].nactvar <= |vars|
  }

  /** Where following the descriptors outward ends. */
  datatype End = Register(fn: nat, r: nat) | Outside(up: nat) | Nowhere

  function Chase(funcs: seq<Func>, i: nat, u: nat): End
    requires i < |funcs|
  {
    if u >= |funcs[i].upvalues| then Nowhere
    else if i == 0 then Outside(u)
    else if funcs[i].upvalues[u].inStack then Register(i - 1, funcs[i].upvalues[u].index)
    else Chase(funcs, i - 1, funcs[i].upvalues[u].index)
  }

  // ---------------------------------------------------------------------------------------------
  // What the compiler keeps

  ghost predicate FuncOk(vars: seq<VarDesc>, f: Func) {
    (&& f.firstlocal + f.nactvar <= |vars| && f.nactvar <= MAX_VARS && |f.upvalues| <= MAX_UPVALUES
    && |f.blocks| > 0 && f.blocks[0].nactvar == 0
    && (forall b :: 0 <= b < |f.blocks| ==> f.blocks[b].nactvar <= f.nactvar)
    && (forall b, c :: 0 <= b < c < |f.blocks| ==> f.blocks[b].nactvar <= f.blocks[c].nactvar)
    && (forall v :: 0 <= v < f.nactvar ==> RegAt(vars, f, v))
    && (forall i, j :: 0 <= i < j < |f.upvalues| ==> f.upvalues[i].name != f.upvalues[j].name)) == true
  }

  /** Variable v is in the register after those of the variables before it. */
  predicate RegAt(vars: seq<VarDesc>, f: Func, v: nat)
    requires v < f.nactvar && f.firstlocal + v < |vars|
  {
    vars[f.firstlocal + v].kind != CompileTime ==> vars[f.firstlocal + v].ridx == Level(vars, f, v)
  }

  /** Variable v is in register r or above. */
  predicate RegFrom(vars: seq<VarDesc>, f: Func, v: nat, r: nat) {
    f.firstlocal + v < |vars| && (vars[f.firstlocal + v].kind != CompileTime ==> vars[f.firstlocal + v].ridx >= r)
  }

  /** Closing the registers from `level` up reaches every variable of f's innermost block, and the
      block is marked if any of them is captured. */
  ghost predicate Released(vars: seq<VarDesc>, f: Func, level: nat)
    requires |f.blocks| > 0
  {
    (var bl := f.blocks[|f.blocks| - 1];
     && (forall v :: bl.nactvar <= v < f.nactvar && Marked(f, v) ==> bl.upval)
     && (forall v :: bl.nactvar <= v < f.nactvar ==> RegFrom(vars, f, v, level))) == true // kept whole
  }

  /** An upvalue of the function inside `outer` captures the right thing: the visible local of its
      name, in a marked block, or, if there is none, the upvalue of its name. */
  ghost predicate Captures(vars: seq<VarDesc>, outer: Func, u: UpvalDesc)
    requires outer.firstlocal + outer.nactvar <= |vars|
  {
    var v := LocalOf(vars, outer, u.name);
    if u.inStack then
      v >= 0 && vars[outer.firstlocal + v].kind != CompileTime && u.index == vars[outer.firstlocal + v].ridx
      && u.kind == vars[outer.firstlocal + v].kind && Marked(outer, v)
    else v == -1 && IsUp(outer, u.name, u.index) && u.kind == outer.upvalues[u.index].kind
  }

  ghost predicate UpsOk(vars: seq<VarDesc>, outer: Func, f: Func)
    requires outer.firstlocal + outer.nactvar <= |vars|
  {
    forall k :: 0 <= k < |f.upvalues| ==> Captures(vars, outer, f.upvalues[k])
  }

  ghost predicate Ok(vars: seq<VarDesc>, nactvar: nat, funcs: seq<Func>) {
    (&& nactvar <= |vars| && Within(vars, funcs)
    && (forall i {:trigger FuncOk(vars, funcs[i])} :: 0 <= i < |funcs| ==>
        FuncOk(vars, funcs[i]) && funcs[i].firstlocal + funcs[i].nactvar <= nactvar)
    && (forall i :: 0 < i < |funcs| ==> UpsAt(vars, funcs, i))
    && (forall i, j :: 0 <= i < j < |funcs| ==> Apart(funcs, nactvar, i, j))
    && (forall i :: 0 <= i < |funcs| ==> RoomAt(funcs, nactvar, i))) == true
  }

  /** The variables of function i come before those of function j. */
  predicate Apart(funcs: seq<Func>, nactvar: nat, i: nat, j: nat)
    requires i < |funcs| && j < |funcs|
  {
    funcs[i].firstlocal + funcs[i].nactvar <= funcs[j].firstlocal <= nactvar
  }

  ghost predicate UpsAt(vars: seq<VarDesc>, funcs: seq<Func>, i: nat)
    requires 0 < i < |funcs|
  {
    funcs[i - 1].firstlocal + funcs[i - 1].nactvar <= |vars| && UpsOk(vars, funcs[i - 1], funcs[i])
  }

  /** Function i has at most MAX_VARS variables, those not yet active included. */
  predicate RoomAt(funcs: seq<Func>, nactvar: nat, i: nat)
    requires i < |funcs|
  {
    (if i + 1 < |funcs| then funcs[i + 1].firstlocal else nactvar) - funcs[i].firstlocal <= MAX_VARS
  }

  /** The descriptors lead to the declaration that the name means just outside the function. */
  lemma {:induction false} ChaseMeans(vars: seq<VarDesc>, nactvar: nat, funcs: seq<Func>, i: nat, u: nat)
    requires Ok(vars, nactvar, funcs) && Within(vars, funcs) && 0 < i < |funcs| && u < |funcs[i].upvalues|
    ensures var m := Means(vars, funcs, i - 1, funcs[i].upvalues[u].name);
            && m != Global
            && (m.Declared? ==>
                m.fn < i && HasVar(vars, funcs[m.fn], m.v)
                && Chase(funcs, i, u) == Register(m.fn, VarOf(vars, funcs[m.fn], m.v).ridx)
                                && VarOf(vars, funcs[m.fn], m.v).kind != CompileTime && Marked(funcs[m.fn], m.v))
            && (m.External? ==> Chase(funcs, i, u) == Outside(m.up))
    decreases i
  {
    var d := funcs[i].upvalues[u];
    assert UpsAt(vars, funcs, i) && Captures(vars, funcs[i - 1], d);
    if !d.inStack {
      if i - 1 > 0 {
        ChaseMeans(vars, nactvar, funcs, i - 1, d.index);
      } else {
        var k := FirstUp(funcs[0].upvalues, d.name, 0);
        assert FuncOk(vars, funcs[0]) && k == d.index;
      }
    }
  }

  // ---------------------------------------------------------------------------------------------
  // One function grows

  /** f' is f with more upvalues and more marks. */
  ghost predicate Grows(f: Func, f': Func) {
    && f'.firstlocal == f.firstlocal && f'.nactvar == f.nactvar
    && |f.upvalues| <= |f'.upvalues| && (forall k :: 0 <= k < |f.upvalues| ==> f'.upvalues[k] == f.upvalues[k])
    && |f'.blocks| == |f.blocks|
    && (forall b :: 0 <= b < |f.blocks| ==>
        f'.blocks[b].nactvar == f.blocks[b].nactvar && (f.blocks[b].upval ==> f'.blocks[b].upval))
  }

  lemma SameLocals(vars: seq<VarDesc>, f: Func, f': Func, n: nat, name: string)
    requires n <= f.nactvar == f'.nactvar && f.firstlocal == f'.firstlocal && f.firstlocal + n <= |vars|
    ensures FindVar(vars, f', n, name) == FindVar(vars, f, n, name) && Level(vars, f', n) == Level(vars, f, n)
  {
    if n > 0 { SameLocals(vars, f, f', n - 1, name); }
  }

  lemma CapturesGrows(vars: seq<VarDesc>, f: Func, f': Func, u: UpvalDesc)
    requires f.firstlocal + f.nactvar <= |vars| && Grows(f, f') && Captures(vars, f, u)
    ensures Captures(vars, f', u)
  {
    SameLocals(vars, f, f', f.nactvar, u.name);
    var v := LocalOf(vars, f, u.name);
    if u.inStack {
      var b :| Declares(f, v, b) && f.blocks[b].upval;
      assert Declares(f', v, b);
    }
  }

  lemma OkGrows(vars: seq<VarDesc>, nactvar: nat, funcs: seq<Func>, i: nat, f': Func)
    requires Ok(vars, nactvar, funcs) && i < |funcs| && Grows(funcs[i], f') && FuncOk(vars, f')
    requires i > 0 ==> UpsOk(vars, funcs[i - 1], f')
    ensures Ok(vars, nactvar, funcs[i := f'])
  {
    var fs' := funcs[i := f'];
    forall k | 0 <= k < |fs'| ensures FuncOk(vars, fs'[k]) && fs'[k].firstlocal + fs'[k].nactvar <= nactvar {
      assert FuncOk(vars, funcs[k]);
    }
    forall k, j | 0 <= k < j < |fs'| ensures Apart(fs', nactvar, k, j) { assert Apart(funcs, nactvar, k, j); }
    forall k | 0 <= k < |fs'| ensures RoomAt(fs', nactvar, k) { assert RoomAt(funcs, nactvar, k); }
    forall k | 0 < k < |fs'| ensures UpsAt(vars, fs', k) {
      assert UpsAt(vars, funcs, k);
      if k == i + 1 { UpsGrows(vars, funcs[i], f', funcs[k]); }
    }
  }

  lemma UpsGrows(vars: seq<VarDesc>, f: Func, f': Func, inner: Func)
    requires f.firstlocal + f.nactvar <= |vars| && Grows(f, f') && UpsOk(vars, f, inner)
    ensures UpsOk(vars, f', inner)
  {
    forall j | 0 <= j < |inner.upvalues| ensures Captures(vars, f', inner.upvalues[j]) {
      CapturesGrows(vars, f, f', inner.upvalues[j]);
    }
  }

  // ---------------------------------------------------------------------------------------------
  // The innermost function changes

  lemma {:induction false} SameVars(vars: seq<VarDesc>, vars': seq<VarDesc>, f: Func, n: nat, name: string)
    requires n <= f.nactvar && f.firstlocal + n <= |vars| && f.firstlocal + n <= |vars'|
    requires forall a :: f.firstlocal <= a < f.firstlocal + n ==> vars'[a] == vars[a]
    ensures FindVar(vars', f, n, name) == FindVar(vars, f, n, name) && Level(vars', f, n) == Level(vars, f, n)
    decreases n
  {
    if n > 0 { SameVars(vars, vars', f, n - 1, name); }
  }

  lemma FuncFrame(vars: seq<VarDesc>, vars': seq<VarDesc>, f: Func)
    requires FuncOk(vars, f) && f.firstlocal + f.nactvar <= |vars'|
    requires forall a :: f.firstlocal <= a < f.firstlocal + f.nactvar ==> vars'[a] == vars[a]
    ensures FuncOk(vars', f)
  {
    forall v | 0 <= v < f.nactvar ensures RegAt(vars', f, v) {
      SameVars(vars, vars', f, v, "");
      assert RegAt(vars, f, v);
    }
  }

  lemma UpsFrame(vars: seq<VarDesc>, vars': seq<VarDesc>, outer: Func, f: Func)
    requires outer.firstlocal + outer.nactvar <= |vars| && outer.firstlocal + outer.nactvar <= |vars'|
             && UpsOk(vars, outer, f)
    requires forall a :: outer.firstlocal <= a < outer.firstlocal + outer.nactvar ==> vars'[a] == vars[a]
    ensures UpsOk(vars', outer, f)
  {
    forall k | 0 <= k < |f.upvalues| ensures Captures(vars', outer, f.upvalues[k]) {
      assert Captures(vars, outer, f.upvalues[k]);
      SameVars(vars, vars', outer, outer.nactvar, f.upvalues[k].name);
    }
  }

  /** The innermost function and its variables may change, as long as it stays in order itself and
      keeps its upvalues. */
  lemma OkLast(vars: seq<VarDesc>, nactvar: nat, funcs: seq<Func>, vars': seq<VarDesc>, nactvar': nat, f': Func)
    requires Ok(vars, nactvar, funcs) && |funcs| > 0
    requires var f := funcs[|funcs| - 1];
             && f'.firstlocal == f.firstlocal && f'.upvalues == f.upvalues && FuncOk(vars', f')
             && (forall a :: 0 <= a < f.firstlocal ==> a < |vars| && a < |vars'| && vars'[a] == vars[a])
             && f.firstlocal + f'.nactvar <= nactvar' <= |vars'| && nactvar' - f.firstlocal <= MAX_VARS
    ensures Ok(vars', nactvar', funcs[|funcs| - 1 := f'])
  {
    var last := |funcs| - 1;
    var funcs' := funcs[last := f'];
    forall i | 0 <= i < last ensures FuncOk(vars', funcs'[i]) {
      assert FuncOk(vars, funcs[i]) && Apart(funcs, nactvar, i, last);
      FuncFrame(vars, vars', funcs[i]);
    }
    forall i, j | 0 <= i < j < |funcs'| ensures Apart(funcs', nactvar', i, j) {
      assert Apart(funcs, nactvar, i, j);
      if j < last { assert Apart(funcs, nactvar, j, last); }
    }
    forall i | 0 <= i < last ensures funcs'[i].firstlocal + funcs'[i].nactvar <= nactvar' {
      assert Apart(funcs, nactvar, i, last);
    }
    forall i | 0 <= i < |funcs'| ensures RoomAt(funcs', nactvar', i) { assert RoomAt(funcs, nactvar, i); }
    forall i | 0 < i < |funcs'| ensures UpsAt(vars', funcs', i) {
      assert UpsAt(vars, funcs, i) && Apart(funcs, nactvar, i - 1, last);
      assert UpsOk(vars, funcs[i - 1], funcs'[i]);
      UpsFrame(vars, vars', funcs[i - 1], funcs'[i]);
    }
  }

  // ---------------------------------------------------------------------------------------------
  // The compiler

  datatype Exp = Void | LocalVar(vidx: nat, ridx: nat) | ConstVar(idx: nat) | Upval(idx: nat)

  /** f with the block that declares v marked. */
  ghost predicate MarkedIn(f: Func, f': Func, v: int) {
    && f' == f.(blocks := f'.blocks, needclose := true) && |f'.blocks| == |f.blocks|
    && forall b :: 0 <= b < |f.blocks| ==>
       f'.blocks[b] == if Declares(f, v, b) then f.blocks[b].(upval := true) else f.blocks[b]
  }

  /** f with an upvalue for the name, unless it has one. */
  ghost predicate Provided(f: Func, f': Func, name: string) {
    if HasUp(f, name) then f' == f
    else |f'.upvalues| == |f.upvalues| + 1 && f' == f.(upvalues := f.upvalues + [f'.upvalues[|f.upvalues|]])
         && f'.upvalues[|f.upvalues|].name == name
  }

  /** The functions between the declaration in function j and the use in function i have an upvalue
      each, the declaring block is marked, and nothing else changed. */
  ghost predicate Threaded(funcs: seq<Func>, funcs': seq<Func>, j: int, v: int, i: nat, name: string) {
    && |funcs'| == |funcs|
    && (forall k :: 0 <= k < |funcs| && (k < j || k > i) ==> funcs'[k] == funcs[k])
    && (forall k :: 0 <= k < |funcs| && j < k <= i ==> Provided(funcs[k], funcs'[k], name))
    && (0 <= j < |funcs| ==>
        if v < 0 then funcs'[j] == funcs[j] else funcs'[j] == funcs[j] || MarkedIn(funcs[j], funcs'[j], v))
  }

  /** The answer to a name used in function i. */
  ghost predicate Resolved(vars: seq<VarDesc>, funcs: seq<Func>, funcs': seq<Func>, i: nat, name: string, base: bool,
                           e: Exp)
    requires i < |funcs| && Within(vars, funcs)
  {
    (match Means(vars, funcs, i, name)
    case Global => e == Void && funcs' == funcs
    case External(u) =>
      e.Upval? && |funcs'| == |funcs| && Chase(funcs', i, e.idx) == Outside(u) && IsUp(funcs'[i], name, e.idx)
        && Threaded(funcs, funcs', 0, -1, i, name)
    case Declared(j, v) =>
      && j < |funcs| && HasVar(vars, funcs[j], v)
      && var d := VarOf(vars, funcs[j], v);
      if d.kind == CompileTime then e == ConstVar(funcs[j].firstlocal + v) && funcs' == funcs
      else if j == i then
        && e == LocalVar(v, d.ridx)
        && if base then funcs' == funcs else
             && |funcs'| == |funcs| && funcs' == funcs[i := funcs'[i]]
             && MarkedIn(funcs[i], funcs'[i], v) && Marked(funcs'[i], v)
      else
        && e.Upval? && |funcs'| == |funcs| && Chase(funcs', i, e.idx) == Register(j, d.ridx)
        && Threaded(funcs, funcs', j, v, i, name)
        && IsUp(funcs'[i], name, e.idx) && Marked(funcs'[j], v)) == true
  }

  /** Some function up to i would need an upvalue for the name and has no room for it. */
  ghost predicate Crowded(funcs: seq<Func>, i: nat, n: string) {
    exists k :: 0 < k <= i && k < |funcs| && |funcs[k].upvalues| == MAX_UPVALUES && !HasUp(funcs[k], n)
  }

  lemma Opened(vars: seq<VarDesc>, nactvar: nat, funcs: seq<Func>, f: Func)
    requires Ok(vars, nactvar, funcs) && |funcs| > 0 && f == Func(nactvar, 0, [], [Block(0, false)], false)
    ensures Ok(vars, nactvar, funcs + [f])
  {
    var funcs' := funcs + [f];
    forall i | 0 <= i < |funcs'|
      ensures FuncOk(vars, funcs'[i]) && funcs'[i].firstlocal + funcs'[i].nactvar <= nactvar {
      if i < |funcs| { assert FuncOk(vars, funcs[i]); }
    }
    forall i, j | 0 <= i < j < |funcs'| ensures Apart(funcs', nactvar, i, j) {
      assert FuncOk(vars, funcs[i]);
      if j < |funcs| { assert Apart(funcs, nactvar, i, j); }
    }
    forall i | 0 <= i < |funcs'| ensures RoomAt(funcs', nactvar, i) {
      if i < |funcs| { assert RoomAt(funcs, nactvar, i); }
    }
    forall i | 0 < i < |funcs'| ensures UpsAt(vars, funcs', i) { if i < |funcs| { assert UpsAt(vars, funcs, i); } }
  }

  lemma Shut(vars: seq<VarDesc>, nactvar: nat, funcs: seq<Func>)
    requires Ok(vars, nactvar, funcs) && |funcs| > 1
    ensures Ok(vars, funcs[|funcs| - 1].firstlocal, funcs[..|funcs| - 1])
  {
    var last := |funcs| - 1;
    var funcs' := funcs[..last];
    forall i | 0 <= i < last ensures FuncOk(vars, funcs'[i]) && Apart(funcs, nactvar, i, last) {
      assert FuncOk(vars, funcs[i]);
    }
    forall i, j | 0 <= i < j < last ensures Apart(funcs', funcs[last].firstlocal, i, j) {
      assert Apart(funcs, nactvar, i, j) && Apart(funcs, nactvar, j, last);
    }
    forall i | 0 <= i < |funcs'| ensures RoomAt(funcs', funcs[last].firstlocal, i) { assert RoomAt(funcs, nactvar, i); }
    forall i | 0 < i < |funcs'| ensures UpsAt(vars, funcs', i) { assert UpsAt(vars, funcs, i); }
  }

  /** One more active variable, with the right register if it has one. */
  lemma Activated(vars: seq<VarDesc>, vars': seq<VarDesc>, f: Func, f': Func)
    requires FuncOk(vars, f) && f' == f.(nactvar := f.nactvar + 1) && f'.nactvar <= MAX_VARS
             && f.firstlocal + f'.nactvar <= |vars'|
    requires forall a :: f.firstlocal <= a < f.firstlocal + f.nactvar ==> a < |vars| && vars'[a] == vars[a]
    requires var d := vars'[f.firstlocal + f.nactvar]; d.kind != CompileTime ==> d.ridx == Level(vars, f, f.nactvar)
    ensures FuncOk(vars', f')
  {
    forall v | 0 <= v < f'.nactvar ensures RegAt(vars', f', v) { ActivatedAt(vars, vars', f, f', v); }
  }

  lemma ActivatedAt(vars: seq<VarDesc>, vars': seq<VarDesc>, f: Func, f': Func, v: nat)
    requires FuncOk(vars, f) && f'.nactvar == f.nactvar + 1 && f'.firstlocal == f.firstlocal
             && f.firstlocal + f'.nactvar <= |vars'|
    requires forall a :: f.firstlocal <= a < f.firstlocal + f.nactvar ==> a < |vars| && vars'[a] == vars[a]
    requires var d := vars'[f.firstlocal + f.nactvar]; d.kind != CompileTime ==> d.ridx == Level(vars, f, f.nactvar)
    requires v < f'.nactvar
    ensures RegAt(vars', f', v)
  {
    LevelMore(vars, vars', f, f', v);
    if v < f.nactvar { assert RegAt(vars, f, v); }
  }

  lemma {:induction false} LevelMore(vars: seq<VarDesc>, vars': seq<VarDesc>, f: Func, f': Func, n: nat)
    requires n <= f.nactvar && n <= f'.nactvar && f.firstlocal == f'.firstlocal && f.firstlocal + n <= |vars|
             && f.firstlocal + n <= |vars'|
    requires forall a :: f.firstlocal <= a < f.firstlocal + n ==> vars'[a] == vars[a]
    ensures Level(vars', f', n) == Level(vars, f, n)
    decreases n
  {
    if n > 0 { LevelMore(vars, vars', f, f', n - 1); }
  }

  lemma Left(vars: seq<VarDesc>, f: Func, f': Func, level: nat)
    requires FuncOk(vars, f) && |f.blocks| > 1
    requires var bl := f.blocks[|f.blocks| - 1];
             f' == f.(nactvar := bl.nactvar, blocks := f.blocks[..|f.blocks| - 1])
               && level == Level(vars, f, bl.nactvar)
    ensures FuncOk(vars, f') && Released(vars, f, level)
  {
    var bl := f.blocks[|f.blocks| - 1];
    forall v | 0 <= v < f'.nactvar ensures RegAt(vars, f', v) {
      LevelMore(vars, vars, f, f', v);
      assert RegAt(vars, f, v);
    }
    forall v | bl.nactvar <= v < f.nactvar ensures RegFrom(vars, f, v, level) {
      LevelUp(vars, f, bl.nactvar, v);
      assert RegAt(vars, f, v);
    }
    forall v | bl.nactvar <= v < f.nactvar && Marked(f, v) ensures bl.upval {
      var b :| Declares(f, v, b) && f.blocks[b].upval;
      assert f.blocks[|f.blocks| - 1].nactvar <= v;
    }
  }

  // Registers

  /** The variables of f below n that take a register. */
  function Occupied(vars: seq<VarDesc>, f: Func, n: nat): set<nat>
    requires n <= f.nactvar && f.firstlocal + n <= |vars|
  {
    set v: nat | v < n && TakesRegister(vars, f, v)
  }

  predicate TakesRegister(vars: seq<VarDesc>, f: Func, v: nat) {
    f.firstlocal + v < |vars| && vars[f.firstlocal + v].kind != CompileTime
  }

  lemma {:induction false} LevelCounts(vars: seq<VarDesc>, f: Func, n: nat)
    requires n <= f.nactvar && f.firstlocal + n <= |vars|
    ensures Level(vars, f, n) == |Occupied(vars, f, n)|
    decreases n
  {
    if n == 0 {
      assert Occupied(vars, f, 0) == {};
    } else {
      LevelCounts(vars, f, n - 1);
      var before, v := Occupied(vars, f, n - 1), n - 1;
      assert Occupied(vars, f, n) ==
             if vars[f.firstlocal + v].kind != CompileTime then before + {v} else before;
    }
  }

  /** The register of variable v is below r; compile-time constants have none. */
  predicate RegBelow(vars: seq<VarDesc>, f: Func, v: nat, r: nat) {
    f.firstlocal + v < |vars| && (vars[f.firstlocal + v].kind != CompileTime ==> vars[f.firstlocal + v].ridx < r)
  }

  /** r parts the registers of the variables below n from those of the rest. */
  ghost predicate Parts(vars: seq<VarDesc>, f: Func, n: nat, r: nat) {
    (&& (forall v: nat :: v < n && v < f.nactvar ==> RegBelow(vars, f, v, r))
     && (forall v: nat :: n <= v < f.nactvar ==> RegFrom(vars, f, v, r))) == true
  }

  /** In a function in order, the active variables have their registers in strictly increasing order,
      and the level of n, the number of registers below it, is between those before n and the rest. */
  lemma {:induction false} RegistersInOrder(vars: seq<VarDesc>, f: Func, n: nat)
    requires FuncOk(vars, f) && f.firstlocal + f.nactvar <= |vars| && n <= f.nactvar
    ensures forall v, w :: v in Occupied(vars, f, f.nactvar) && w in Occupied(vars, f, f.nactvar) && v < w ==>
              VarOf(vars, f, v).ridx < VarOf(vars, f, w).ridx
    ensures Parts(vars, f, n, |Occupied(vars, f, n)|)
  {
    LevelCounts(vars, f, n);
    forall v, w | v in Occupied(vars, f, f.nactvar) && w in Occupied(vars, f, f.nactvar) && v < w
      ensures VarOf(vars, f, v).ridx < VarOf(vars, f, w).ridx {
      assert RegAt(vars, f, v) && RegAt(vars, f, w);
      LevelUp(vars, f, v + 1, w);
    }
    forall v: nat | v < n ensures RegBelow(vars, f, v, |Occupied(vars, f, n)|) {
      assert RegAt(vars, f, v);
      LevelUp(vars, f, v + 1, n);
    }
    forall v: nat | n <= v < f.nactvar ensures RegFrom(vars, f, v, |Occupied(vars, f, n)|) {
      assert RegAt(vars, f, v);
      LevelUp(vars, f, n, v);
    }
  }

  lemma {:induction false} LevelUp(vars: seq<VarDesc>, f: Func, n: nat, m: nat)
    requires n <= m <= f.nactvar && f.firstlocal + m <= |vars|
    ensures Level(vars, f, n) <= Level(vars, f, m)
    decreases m
  {
    if n < m { LevelUp(vars, f, n, m - 1); }
  }

  /** e is the enclosing function's own view of the name, as something to capture. */
  ghost predicate Capturable(vars: seq<VarDesc>, outer: Func, n: string, e: Exp) {
    && outer.firstlocal + outer.nactvar <= |vars|
    && var v := LocalOf(vars, outer, n);
    match e
    case LocalVar(w, r) => v == w && vars[outer.firstlocal + v].kind != CompileTime
      && r == vars[outer.firstlocal + v].ridx && Marked(outer, v)
    case Upval(idx) => v == -1 && IsUp(outer, n, idx)
    case Void => false
    case ConstVar(_) => false
  }

  function Descriptor(vars: seq<VarDesc>, outer: Func, n: string, e: Exp): UpvalDesc
    requires outer.firstlocal + outer.nactvar <= |vars|
    requires e.LocalVar? ==> e.vidx < outer.nactvar
    requires e.Upval? ==> e.idx < |outer.upvalues|
    requires e.LocalVar? || e.Upval?
  {
    if e.LocalVar? then UpvalDesc(n, true, e.ridx, vars[outer.firstlocal + e.vidx].kind)
    else UpvalDesc(n, false, e.idx, outer.upvalues[e.idx].kind)
  }

  lemma NewOk(vars: seq<VarDesc>, nactvar: nat, funcs: seq<Func>, i: nat, n: string, e: Exp)
    requires Ok(vars, nactvar, funcs) && 0 < i < |funcs| && !HasUp(funcs[i], n) && Capturable(vars, funcs[i - 1], n, e)
    requires |funcs[i].upvalues| < MAX_UPVALUES
    ensures Ok(vars, nactvar, funcs[i := funcs[i].(upvalues := funcs[i].upvalues
                                                   + [Descriptor(vars, funcs[i - 1], n, e)])])
  {
    var f, d := funcs[i], Descriptor(vars, funcs[i - 1], n, e);
    var f' := f.(upvalues := f.upvalues + [d]);
    assert FuncOk(vars, f) && UpsAt(vars, funcs, i);
    forall w | 0 <= w < f'.nactvar ensures RegAt(vars, f', w) {
      SameLocals(vars, f, f', w, "");
      assert RegAt(vars, f, w);
    }
    assert Captures(vars, funcs[i - 1], d);
    OkGrows(vars, nactvar, funcs, i, f');
  }

  /** An upvalue that is already there is the right one, all the way out. */
  lemma Existing(vars: seq<VarDesc>, nactvar: nat, funcs: seq<Func>, i: nat, n: string, idx: nat, base: bool)
    requires Ok(vars, nactvar, funcs) && Within(vars, funcs) && i < |funcs| && idx == FirstUp(funcs[i].upvalues, n, 0)
             && LocalOf(vars, funcs[i], n) == -1
    ensures Resolved(vars, funcs, funcs, i, n, base, Upval(idx))
  {
    if i > 0 {
      ChaseMeans(vars, nactvar, funcs, i, idx);
      ProvidedAll(vars, nactvar, funcs, i, n, idx);
    }
  }

  lemma {:induction false} ProvidedAll(vars: seq<VarDesc>, nactvar: nat, funcs: seq<Func>, i: nat, n: string, idx: nat)
    requires Ok(vars, nactvar, funcs) && Within(vars, funcs) && i < |funcs| && IsUp(funcs[i], n, idx)
             && LocalOf(vars, funcs[i], n) == -1
    ensures var m := Means(vars, funcs, i, n);
            forall k :: (if m.Declared? then m.fn else 0) < k <= i ==> HasUp(funcs[k], n)
    decreases i
  {
    assert HasUp(funcs[i], n);
    if i > 0 {
      assert UpsAt(vars, funcs, i) && Captures(vars, funcs[i - 1], funcs[i].upvalues[idx]);
      if !funcs[i].upvalues[idx].inStack { ProvidedAll(vars, nactvar, funcs, i - 1, n, funcs[i].upvalues[idx].index); }
    }
  }

  lemma {:induction false} ChaseFrame(funcs: seq<Func>, funcs': seq<Func>, i: nat, u: nat)
    requires i < |funcs| && i < |funcs'| && forall k :: 0 <= k <= i ==> funcs'[k] == funcs[k]
    ensures Chase(funcs', i, u) == Chase(funcs, i, u)
    decreases i
  {
    if u < |funcs[i].upvalues| && i > 0 && !funcs[i].upvalues[u].inStack {
      ChaseFrame(funcs, funcs', i - 1, funcs[i].upvalues[u].index);
    }
  }

  /** A constant or a global of the enclosing function is one here too. */
  lemma Passed(vars: seq<VarDesc>, funcs: seq<Func>, funcs1: seq<Func>, i: nat, n: string, base: bool, e: Exp)
    requires 0 < i < |funcs| && Within(vars, funcs) && (e.Void? || e.ConstVar?) && LocalOf(vars, funcs[i], n) == -1
    requires Resolved(vars, funcs, funcs1, i - 1, n, false, e)
    ensures Resolved(vars, funcs, funcs1, i, n, base, e)
  {
  }

  /** The answer from the enclosing function is something to capture, and the function itself is as
      it was. */
  lemma Untouched(vars: seq<VarDesc>, funcs: seq<Func>, funcs1: seq<Func>, i: nat, n: string, e: Exp)
    requires 0 < i < |funcs| && Within(vars, funcs) && (e.LocalVar? || e.Upval?)
    requires Resolved(vars, funcs, funcs1, i - 1, n, false, e)
    ensures |funcs1| == |funcs| && funcs1[i] == funcs[i] && Capturable(vars, funcs1[i - 1], n, e)
  {
    var f, f1 := funcs[i - 1], funcs1[i - 1];
    assert f1.firstlocal == f.firstlocal && f1.nactvar == f.nactvar;
    SameLocals(vars, f, f1, f.nactvar, n);
  }

  /** The new upvalue completes the way out. */
  lemma Fetched(vars: seq<VarDesc>, funcs: seq<Func>, funcs1: seq<Func>, funcs2: seq<Func>, i: nat, n: string,
                base: bool, e1: Exp, u: nat)
    requires 0 < i < |funcs| && Within(vars, funcs) && (e1.LocalVar? || e1.Upval?) && LocalOf(vars, funcs[i], n) == -1
    requires Resolved(vars, funcs, funcs1, i - 1, n, false, e1)
    requires |funcs1| == |funcs| && funcs1[i] == funcs[i] && !HasUp(funcs[i], n) && u == |funcs[i].upvalues|
    requires Capturable(vars, funcs1[i - 1], n, e1)
    requires funcs2 == funcs1[i := funcs1[i].(upvalues := funcs1[i].upvalues
                                              + [Descriptor(vars, funcs1[i - 1], n, e1)])]
    ensures Resolved(vars, funcs, funcs2, i, n, base, Upval(u))
  {
    if e1.Upval? { ChaseFrame(funcs1, funcs2, i - 1, e1.idx); }
    assert Provided(funcs[i], funcs2[i], n);
  }

  lemma MarkOk(vars: seq<VarDesc>, nactvar: nat, funcs: seq<Func>, i: nat, f': Func, v: nat, b: nat)
    requires Ok(vars, nactvar, funcs) && i < |funcs| && Declares(funcs[i], v, b)
    requires f' == funcs[i].(blocks := funcs[i].blocks[b := funcs[i].blocks[b].(upval := true)], needclose := true)
    ensures Ok(vars, nactvar, funcs[i := f']) && Grows(funcs[i], f') && Marked(f', v) && MarkedIn(funcs[i], f', v)
  {
    var f := funcs[i];
    assert FuncOk(vars, f);
    forall w | 0 <= w < f'.nactvar ensures RegAt(vars, f', w) {
      SameLocals(vars, f, f', w, "");
      assert RegAt(vars, f, w);
    }
    if i > 0 { assert UpsAt(vars, funcs, i); }
    OkGrows(vars, nactvar, funcs, i, f');
    assert Declares(f', v, b);
    forall c | 0 <= c < |f.blocks| && Declares(f, v, c) ensures c == b { }
  }

  class Compiler {
    var actvar: seq<VarDesc>
    var nactvar: nat
    var funcs: seq<Func>

    constructor ()
      ensures Valid() && |funcs| == 1 && funcs[0].nactvar == 0 && nactvar == 0
    {
      actvar, nactvar := [], 0;
      funcs := [Func(0, 0, [UpvalDesc("_ENV", true, 0, Regular)], [Block(0, false)], false)];
    }

    ghost predicate Valid()
      reads this
    {
      Ok(actvar, nactvar, funcs) && |funcs| > 0
    }

    /** reglevel: the first register above the first n variables of the function. */
    method RegLevel(i: nat, n: nat) returns (r: nat)
      requires Valid() && i < |funcs| && n <= funcs[i].nactvar
      ensures r == Level(actvar, funcs[i], n)
      ensures r == |Occupied(actvar, funcs[i], n)| && Parts(actvar, funcs[i], n, r)
    {
      var f, k := funcs[i], n;
      assert FuncOk(actvar, f);
      LevelCounts(actvar, f, n);
      RegistersInOrder(actvar, f, n);
      while k > 0
        invariant 0 <= k <= n && Level(actvar, f, k) == Level(actvar, f, n)
      {
        k := k - 1;
        assert RegAt(actvar, f, k);
        if actvar[f.firstlocal + k].kind != CompileTime {
          return actvar[f.firstlocal + k].ridx + 1;
        }
      }
      return 0;
    }

    /** newLocalVar: a variable that is not active yet. */
    method NewLocalVar(name: string, kind: VarKind) returns (ok: bool)
      requires Valid()
      modifies this`actvar, this`nactvar
      ensures ok <==> old(nactvar) + 1 - funcs[|funcs| - 1].firstlocal <= MAX_VARS
      ensures ok ==> Valid() && nactvar == old(nactvar) + 1 && actvar[old(nactvar)] == VarDesc(name, kind, 0)
      ensures ok ==> forall a :: 0 <= a < old(nactvar) ==> actvar[a] == old(actvar)[a]
      ensures !ok ==> actvar == old(actvar) && nactvar == old(nactvar)
    {
      var f := funcs[|funcs| - 1];
      assert FuncOk(actvar, f);
      if nactvar + 1 - f.firstlocal > MAX_VARS {
        return false;
      }
      var vd := VarDesc(name, kind, 0);
      ghost var vars, n := actvar, nactvar;
      if nactvar < |actvar| {
        actvar := actvar[nactvar := vd];
      } else {
        actvar := actvar + [vd];
      }
      nactvar := nactvar + 1;
      FuncFrame(vars, actvar, f);
      OkLast(vars, n, funcs, actvar, nactvar, f);
      assert funcs[|funcs| - 1 := f] == funcs;
      ok := true;
    }

    /** adjustLocalVars for one variable: it becomes active, in the next register. */
    method AdjustLocalVar()
      requires Valid()
      requires var f := funcs[|funcs| - 1];
               f.firstlocal + f.nactvar < nactvar && actvar[f.firstlocal + f.nactvar].kind != CompileTime
      modifies this`actvar, this`funcs
      ensures Valid() && |actvar| == |old(actvar)|
      ensures var f := old(funcs)[|old(funcs)| - 1]; var a := f.firstlocal + f.nactvar;
              && funcs == old(funcs)[|old(funcs)| - 1 := f.(nactvar := f.nactvar + 1)]
              && actvar == old(actvar)[a := old(actvar)[a].(ridx := Level(old(actvar), f, f.nactvar))]
              && actvar[a].ridx == |Occupied(old(actvar), f, f.nactvar)|
              && Parts(old(actvar), f, f.nactvar, actvar[a].ridx)
    {
      var last := |funcs| - 1;
      var f := funcs[last];
      assert FuncOk(actvar, f) && RoomAt(funcs, nactvar, last);
      var a := f.firstlocal + f.nactvar;
      var r := RegLevel(last, f.nactvar);
      ghost var vars := actvar;
      actvar := actvar[a := actvar[a].(ridx := r)];
      var f' := f.(nactvar := f.nactvar + 1);
      Activated(vars, actvar, f, f');
      OkLast(vars, nactvar, funcs, actvar, nactvar, f');
      funcs := funcs[last := f'];
    }

    /** A compile-time constant, declared last by a local statement, becomes active without a register. */
    method AdjustConstant()
      requires Valid()
      requires var f := funcs[|funcs| - 1];
               f.firstlocal + f.nactvar < nactvar && actvar[f.firstlocal + f.nactvar].kind == CompileTime
      modifies this`funcs
      ensures Valid()
      ensures var f := old(funcs)[|old(funcs)| - 1];
              funcs == old(funcs)[|old(funcs)| - 1 := f.(nactvar := f.nactvar + 1)]
    {
      var last := |funcs| - 1;
      var f := funcs[last];
      assert FuncOk(actvar, f) && RoomAt(funcs, nactvar, last);
      var f' := f.(nactvar := f.nactvar + 1);
      Activated(actvar, actvar, f, f');
      OkLast(actvar, nactvar, funcs, actvar, nactvar, f');
      funcs := funcs[last := f'];
    }

    method EnterBlock()
      requires Valid()
      modifies this`funcs
      ensures Valid()
      ensures var f := old(funcs)[|old(funcs)| - 1];
              funcs == old(funcs)[|old(funcs)| - 1 := f.(blocks := f.blocks + [Block(f.nactvar, false)])]
    {
      var last := |funcs| - 1;
      var f := funcs[last];
      assert FuncOk(actvar, f) && RoomAt(funcs, nactvar, last);
      var f' := f.(blocks := f.blocks + [Block(f.nactvar, false)]);
      forall w | 0 <= w < f'.nactvar ensures RegAt(actvar, f', w) {
        SameLocals(actvar, f, f', w, "");
        assert RegAt(actvar, f, w);
      }
      OkLast(actvar, nactvar, funcs, actvar, nactvar, f');
      funcs := funcs[last := f'];
    }

    /** leaveBlock: the block's variables end, and if one of them was captured they are closed from
        the block's first register on. */
    method LeaveBlock() returns (close: bool, level: nat)
      requires Valid()
      requires var f := funcs[|funcs| - 1]; |f.blocks| > 1 && nactvar == f.firstlocal + f.nactvar
      modifies this`funcs, this`nactvar
      ensures Valid()
      ensures var f := old(funcs)[|old(funcs)| - 1]; var bl := f.blocks[|f.blocks| - 1];
              && funcs == old(funcs)[|old(funcs)| - 1 := f.(nactvar := bl.nactvar,
                                                            blocks := f.blocks[..|f.blocks| - 1])]
              && nactvar == f.firstlocal + bl.nactvar && close == bl.upval
              && Released(actvar, f, level) && Parts(actvar, f, bl.nactvar, level)
    {
      var last := |funcs| - 1;
      var f := funcs[last];
      assert FuncOk(actvar, f) && RoomAt(funcs, nactvar, last);
      var bl := f.blocks[|f.blocks| - 1];
      level := RegLevel(last, bl.nactvar);
      close := bl.upval;
      var f' := f.(nactvar := bl.nactvar, blocks := f.blocks[..|f.blocks| - 1]);
      Left(actvar, f, f', level);
      OkLast(actvar, nactvar, funcs, actvar, f.firstlocal + bl.nactvar, f');
      nactvar := nactvar - (f.nactvar - bl.nactvar);
      funcs := funcs[last := f'];
    }

    method OpenFunc()
      requires Valid()
      modifies this`funcs
      ensures Valid() && funcs == old(funcs) + [Func(nactvar, 0, [], [Block(0, false)], false)]
    {
      Opened(actvar, nactvar, funcs, Func(nactvar, 0, [], [Block(0, false)], false));
      funcs := funcs + [Func(nactvar, 0, [], [Block(0, false)], false)];
    }

    /** closeFunc: the function's upvalue descriptors are final. */
    method CloseFunc() returns (upvalues: seq<UpvalDesc>)
      requires Valid() && |funcs| > 1
      requires var f := funcs[|funcs| - 1]; |f.blocks| == 1 && nactvar == f.firstlocal + f.nactvar
      modifies this`funcs, this`nactvar
      ensures Valid() && funcs == old(funcs)[..|old(funcs)| - 1]
      ensures var f := old(funcs)[|old(funcs)| - 1]; upvalues == f.upvalues && nactvar == f.firstlocal
      ensures forall k :: 0 <= k < |upvalues| ==> Captures(actvar, funcs[|funcs| - 1], upvalues[k])
    {
      var last := |funcs| - 1;
      upvalues := funcs[last].upvalues;
      assert UpsAt(actvar, funcs, last);
      Shut(actvar, nactvar, funcs);
      nactvar := funcs[last].firstlocal;
      funcs := funcs[..last];
    }

    method SearchVar(i: nat, n: string) returns (v: int)
      requires Valid() && i < |funcs|
      ensures v == LocalOf(actvar, funcs[i], n)
    {
      var f := funcs[i];
      assert FuncOk(actvar, f);
      v := f.nactvar - 1;
      while v >= 0
        invariant -1 <= v < f.nactvar && FindVar(actvar, f, v + 1, n) == LocalOf(actvar, f, n)
      {
        if actvar[f.firstlocal + v].name == n {
          return;
        }
        v := v - 1;
      }
    }

    method SearchUpvalue(i: nat, n: string) returns (u: int)
      requires i < |funcs|
      ensures u == FirstUp(funcs[i].upvalues, n, 0)
    {
      u := 0;
      while u < |funcs[i].upvalues|
        invariant 0 <= u <= |funcs[i].upvalues| && FirstUp(funcs[i].upvalues, n, u) == FirstUp(funcs[i].upvalues, n, 0)
      {
        if funcs[i].upvalues[u].name == n {
          return;
        }
        u := u + 1;
      }
      u := -1;
    }

    method MarkUpval(i: nat, v: nat)
      requires Valid() && i < |funcs| && v < funcs[i].nactvar
      modifies this`funcs
      ensures Valid() && |funcs| == |old(funcs)| && funcs == old(funcs)[i := funcs[i]]
              && MarkedIn(old(funcs)[i], funcs[i], v) && Marked(funcs[i], v)
      ensures Grows(old(funcs)[i], funcs[i])
    {
      var f := funcs[i];
      assert FuncOk(actvar, f);
      var b := |f.blocks| - 1;
      while f.blocks[b].nactvar > v
        invariant 0 <= b < |f.blocks| && forall c :: b < c < |f.blocks| ==> f.blocks[c].nactvar > v
        decreases b
      {
        b := b - 1;
      }
      assert Declares(f, v, b);
      ghost var f' := f.(blocks := f.blocks[b := f.blocks[b].(upval := true)], needclose := true);
      MarkOk(actvar, nactvar, funcs, i, f', v, b);
      funcs := funcs[i := f.(blocks := f.blocks[b := f.blocks[b].(upval := true)], needclose := true)];
    }

    /** newUpvalue: the function's next upvalue, captured from the enclosing function as e says. */
    method NewUpvalue(i: nat, n: string, e: Exp) returns (ok: bool, u: nat)
      requires Valid() && 0 < i < |funcs| && !HasUp(funcs[i], n) && Capturable(actvar, funcs[i - 1], n, e)
      modifies this`funcs
      ensures ok <==> |old(funcs)[i].upvalues| < MAX_UPVALUES
      ensures ok ==> Valid() && |funcs| == |old(funcs)| && u == |old(funcs)[i].upvalues|
                     && funcs == old(funcs)[i := old(funcs)[i].(upvalues := old(funcs)[i].upvalues
                                                                + [Descriptor(actvar, old(funcs)[i - 1], n, e)])]
    {
      u := |funcs[i].upvalues|;
      if u + 1 > MAX_UPVALUES {
        return false, u;
      }
      var d := Descriptor(actvar, funcs[i - 1], n, e);
      NewOk(actvar, nactvar, funcs, i, n, e);
      funcs := funcs[i := funcs[i].(upvalues := funcs[i].upvalues + [d])];
      ok := true;
    }

    /** singleVarAux: what the name n means in function i, threading upvalues through the functions
        between its declaration and i. */
    method SingleVarAux(i: nat, n: string, base: bool) returns (ok: bool, e: Exp)
      requires Valid() && i < |funcs|
      modifies this`funcs
      ensures ok ==> Valid() && Resolved(actvar, old(funcs), funcs, i, n, base, e)
      ensures !ok ==> Crowded(old(funcs), i, n)
      decreases i, 1
    {
      e := Void;
      var v := SearchVar(i, n);
      if v >= 0 {
        e := Here(i, n, v, base);
        return true, e;
      }
      var idx := SearchUpvalue(i, n);
      if idx >= 0 {
        Existing(actvar, nactvar, funcs, i, n, idx, base);
        return true, Upval(idx);
      }
      if i == 0 {
        return true, Void;
      }
      ok, e := Enclosing(i, n, base);
    }

    /** The name is neither a local nor an upvalue of the function: the enclosing one is asked. */
    method Enclosing(i: nat, n: string, base: bool) returns (ok: bool, e: Exp)
      requires Valid() && 0 < i < |funcs| && LocalOf(actvar, funcs[i], n) == -1 && !HasUp(funcs[i], n)
      modifies this`funcs
      ensures ok ==> Valid() && Resolved(actvar, old(funcs), funcs, i, n, base, e)
      ensures !ok ==> Crowded(old(funcs), i, n)
      decreases i, 0
    {
      ok, e := SingleVarAux(i - 1, n, false);
      if !ok {
        return;
      }
      if e.Void? || e.ConstVar? {
        Passed(actvar, old(funcs), funcs, i, n, base, e);
        return;
      }
      Untouched(actvar, old(funcs), funcs, i, n, e);
      ok, e := Fetch(i, n, base, e, old(funcs));
    }

    /** The name is a local of the function itself; used from a function inside, it is captured. */
    method Here(i: nat, n: string, v: nat, base: bool) returns (e: Exp)
      requires Valid() && i < |funcs| && v == LocalOf(actvar, funcs[i], n)
      modifies this`funcs
      ensures Valid() && Resolved(actvar, old(funcs), funcs, i, n, base, e)
    {
      var d := actvar[funcs[i].firstlocal + v];
      if d.kind == CompileTime {
        return ConstVar(funcs[i].firstlocal + v);
      }
      if !base {
        MarkUpval(i, v);
      }
      return LocalVar(v, d.ridx);
    }

    /** The last part of singleVarAux: one more upvalue, for what the enclosing function found. */
    method Fetch(i: nat, n: string, base: bool, e1: Exp, ghost funcs0: seq<Func>) returns (ok: bool, e: Exp)
      requires Valid() && 0 < i < |funcs| == |funcs0| && Within(actvar, funcs0) && (e1.LocalVar? || e1.Upval?)
      requires Resolved(actvar, funcs0, funcs, i - 1, n, false, e1) && LocalOf(actvar, funcs0[i], n) == -1
      requires funcs[i] == funcs0[i] && !HasUp(funcs[i], n) && Capturable(actvar, funcs[i - 1], n, e1)
      modifies this`funcs
      ensures ok ==> Valid() && Resolved(actvar, funcs0, funcs, i, n, base, e)
      ensures !ok ==> |funcs0[i].upvalues| == MAX_UPVALUES
    {
      ghost var funcs1 := funcs;
      assert FuncOk(actvar, funcs[i]);
      var u;
      ok, u := NewUpvalue(i, n, e1);
      e := Upval(u);
      if ok { Fetched(actvar, funcs0, funcs1, funcs, i, n, base, e1, u); }
    }
  }

  // ---------------------------------------------------------------------------------------------
  // At run time

  /** A function at work: the upvalues of its closure, where its registers start, and the upvalue
      that findupval gives for each stack slot. */
  datatype Frame<C> = Frame(upvals: seq<C>, base: nat, find: nat -> C)

  predicate Wired<C(==)>(ups: seq<UpvalDesc>, fr: Frame<C>, upvals: seq<C>) {
    && |upvals| == |ups|
    && forall u :: 0 <= u < |ups| ==>
         if ups[u].inStack then upvals[u] == fr.find(fr.base + ups[u].index)
         else ups[u].index < |fr.upvals| && upvals[u] == fr.upvals[ups[u].index]
  }

  /** One frame for each nested function, the closure of each made in the frame around it. */
  ghost predicate Nested<C(!new)>(funcs: seq<Func>, frames: seq<Frame<C>>) {
    && |frames| == |funcs| > 0 && |frames[0].upvals| == |funcs[0].upvalues|
    && forall i :: 0 < i < |funcs| ==> MadeIn(funcs, frames, i)
  }

  ghost predicate MadeIn<C(!new)>(funcs: seq<Func>, frames: seq<Frame<C>>, i: nat)
    requires 0 < i < |funcs| == |frames|
  {
    Wired(funcs[i].upvalues, frames[i - 1], frames[i].upvals)
  }

  /** Upvalue u of the closure in frame i is the one of the register, in the frame of the function
      that has it, or the one given from outside. */
  ghost predicate Aliases<C(!new)>(frames: seq<Frame<C>>, i: nat, u: nat, end: End)
    requires i < |frames| && u < |frames[i].upvals|
  {
    match end
    case Register(j, r) => j < i && frames[i].upvals[u] == frames[j].find(frames[j].base + r)
    case Outside(k) => k < |frames[0].upvals| && frames[i].upvals[u] == frames[0].upvals[k]
    case Nowhere => false
  }

  /** The upvalue at the end of the descriptors is the one that the closure has. */
  lemma {:induction false} ClosureFollows<C(!new)>(funcs: seq<Func>, frames: seq<Frame<C>>, i: nat, u: nat)
    requires Nested(funcs, frames) && i < |funcs| && u < |funcs[i].upvalues|
    ensures u < |frames[i].upvals|
    ensures Aliases(frames, i, u, Chase(funcs, i, u))
    decreases i
  {
    if i > 0 {
      assert MadeIn(funcs, frames, i);
      if !funcs[i].upvalues[u].inStack {
        if i > 1 { assert MadeIn(funcs, frames, i - 1); }
        ClosureFollows(funcs, frames, i - 1, funcs[i].upvalues[u].index);
      }
    }
  }

  /** Every upvalue of every closure aliases the stack slot of the variable that its name means. */
  lemma NameAtRunTime<C(!new)>(vars: seq<VarDesc>, nactvar: nat, funcs: seq<Func>, frames: seq<Frame<C>>, i: nat,
                               u: nat)
    requires Ok(vars, nactvar, funcs) && Nested(funcs, frames) && 0 < i < |funcs| && u < |funcs[i].upvalues|
    ensures u < |frames[i].upvals|
    ensures var m := Means(vars, funcs, i - 1, funcs[i].upvalues[u].name);
            && m != Global
            && (m.Declared? ==> HasVar(vars, funcs[m.fn], m.v)
                                && Aliases(frames, i, u, Register(m.fn, VarOf(vars, funcs[m.fn], m.v).ridx)))
            && (m.External? ==> Aliases(frames, i, u, Outside(m.up)))
  {
    ChaseMeans(vars, nactvar, funcs, i, u);
    ClosureFollows(funcs, frames, i, u);
  }
}
