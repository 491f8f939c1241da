/**
 Any number of jump lists threaded through one code, under any sequence of emissions, joins and
 patches.
 */
module JumpLists {
  import opened Results
  import opened Machine
  import opened Descriptor
  import opened CodeGen

  datatype Op =
    | NewJump                       // luaK_jump: a list of one
    | Plain(i: Instr)               // any other instruction
    | Join(a: nat, b: nat)          // luaK_concat: list b is appended to list a and is empty afterwards
    | Land(a: nat)                  // luaK_patchtohere: list a is patched to the next pc and is empty afterwards

  predicate Applicable(op: Op, n: nat) {
    match op
    case NewJump => true
    case Plain(i) => !i.Jmp?
    case Join(a, b) => a < n && b < n && a != b
    case Land(a) => a < n
  }

  /** The number of lists once the first k operations were applied. */
  function Lists(ops: seq<Op>, k: nat): nat
    requires k <= |ops|
  {
    if k == 0 then 0 else Lists(ops, k - 1) + if ops[k - 1].NewJump? then 1 else 0
  }

  ghost predicate Apart(lists: seq<seq<int>>) {
    forall i, j :: 0 <= i < j < |lists| ==> Members(lists[i]) !! Members(lists[j])
  }

  ghost predicate Listed(lists: seq<seq<int>>, p: int) {
    exists i :: 0 <= i < |lists| && p in lists[i]
  }

  /** The lists as the sequences they are meant to be, where every patched jump is to lead, and the
      number of instructions. */
  datatype Picture = Picture(lists: seq<seq<int>>, landed: map<int, int>, n: nat)

  ghost function After(pic: Picture, op: Op): Picture
    requires Applicable(op, |pic.lists|)
  {
    var lists := pic.lists;
    match op
    case NewJump => pic.(lists := lists + [[pic.n]], n := pic.n + 1)
    case Plain(_) => pic.(n := pic.n + 1)
    case Join(a, b) => pic.(lists := lists[a := lists[a] + lists[b]][b := []])
    case Land(a) => pic.(lists := lists[a := []], landed := pic.landed + map p | p in lists[a] :: pic.n)
  }

  ghost predicate AllApplicable(ops: seq<Op>) {
    forall k :: 0 <= k < |ops| ==> Applicable(ops[k], Lists(ops, k))
  }

  /** What the first k operations are to give. */
  ghost function Drawn(ops: seq<Op>, k: nat): (pic: Picture)
    requires k <= |ops| && AllApplicable(ops)
    ensures |pic.lists| == Lists(ops, k)
  {
    if k == 0 then Picture([], map[], 0) else After(Drawn(ops, k - 1), ops[k - 1])
  }

  /** Every head starts an acyclic list as in the picture, no two lists share a jump, every jump is
      in one of them or leads where it was patched to. */
  ghost predicate Threaded(c: Code, heads: seq<int>, pic: Picture) {
    && |heads| == |pic.lists| && |c| == pic.n
    && (forall i :: 0 <= i < |heads| ==> IsList(c, heads[i], pic.lists[i]))
    && Apart(pic.lists)
    && (forall p :: 0 <= p < |c| && c[p].Jmp? ==> (p in pic.landed <==> !Listed(pic.lists, p)))
    && (forall p :: p in pic.landed ==> Finally(c, p, pic.landed[p]))
  }

  predicate Finally(c: Code, p: int, target: int) {
    0 <= p < |c| && c[p] == Jmp(target - (p + 1))
  }

  lemma Grow(c: Code, c': Code, heads: seq<int>, pic: Picture, i: Instr)
    requires Threaded(c, heads, pic) && c' == c + [i] && (i.Jmp? ==> i == Jmp(NO_JUMP))
    ensures !i.Jmp? ==> Threaded(c', heads, After(pic, Plain(i)))
    ensures i.Jmp? ==> Threaded(c', heads + [|c|], After(pic, NewJump))
  {
    forall k | 0 <= k < |heads| ensures IsList(c', heads[k], pic.lists[k]) {
      ListStable(c, c', heads[k], pic.lists[k]);
    }
    forall p | p in pic.landed ensures Finally(c', p, pic.landed[p]) { assert Finally(c, p, pic.landed[p]); }
    if i.Jmp? {
      var ls := pic.lists + [[|c| as int]];
      assert LinksAt(c', [|c| as int], 0);
      assert Apart(ls) by {
        forall a, b | 0 <= a < b < |ls| ensures Members(ls[a]) !! Members(ls[b]) {
          assert IsList(c, heads[a], pic.lists[a]);
        }
      }
      forall p | 0 <= p < |c'| && c'[p].Jmp? ensures p in pic.landed <==> !Listed(ls, p) {
        if p == |c| {
          assert p in ls[|pic.lists|];
        } else if p !in pic.landed {
          var k :| 0 <= k < |pic.lists| && p in pic.lists[k];
          assert p in ls[k];
        }
      }
    }
  }

  lemma Joined(c: Code, c': Code, heads: seq<int>, pic: Picture, a: nat, b: nat, l: int)
    requires Threaded(c, heads, pic) && a < |heads| && b < |heads| && a != b
    requires Relinked(c, c', Members(pic.lists[a])) && IsList(c', l, pic.lists[a] + pic.lists[b])
    ensures Threaded(c', heads[a := l][b := NO_JUMP], After(pic, Join(a, b)))
  {
    var lists := pic.lists;
    var hs, ls := heads[a := l][b := NO_JUMP], lists[a := lists[a] + lists[b]][b := []];
    forall k | 0 <= k < |hs| ensures IsList(c', hs[k], ls[k]) {
      if k != a && k != b {
        forall j | j in lists[k] ensures j < |c'| && c'[j] == c[j] {
          assert IsList(c, heads[k], lists[k]) && j in Members(lists[k]);
          assert if k < a then Members(lists[k]) !! Members(lists[a]) else Members(lists[a]) !! Members(lists[k]);
        }
        ListStable(c, c', heads[k], lists[k]);
      }
    }
    ApartJoined(lists, a, b);
    forall p | 0 <= p < |c'| && c'[p].Jmp? ensures p in pic.landed <==> !Listed(ls, p) {
      assert c[p].Jmp?;
      ListedJoined(lists, a, b, p);
    }
    forall p | p in pic.landed ensures Finally(c', p, pic.landed[p]) {
      assert Finally(c, p, pic.landed[p]);
      if p in lists[a] { assert Listed(lists, p); }
    }
  }

  lemma ListedJoined(lists: seq<seq<int>>, a: nat, b: nat, p: int)
    requires a < |lists| && b < |lists| && a != b
    ensures Listed(lists[a := lists[a] + lists[b]][b := []], p) <==> Listed(lists, p)
  {
    var ls := lists[a := lists[a] + lists[b]][b := []];
    if Listed(lists, p) {
      var k :| 0 <= k < |lists| && p in lists[k];
      assert p in ls[if k == b then a else k];
    }
    if Listed(ls, p) {
      var k :| 0 <= k < |ls| && p in ls[k];
      assert p in lists[k] || p in lists[b];
    }
  }

  lemma ApartJoined(lists: seq<seq<int>>, a: nat, b: nat)
    requires a < |lists| && b < |lists| && a != b && Apart(lists)
    ensures Apart(lists[a := lists[a] + lists[b]][b := []])
  {
    var ls := lists[a := lists[a] + lists[b]][b := []];
    forall i, j | 0 <= i < j < |ls| ensures Members(ls[i]) !! Members(ls[j]) {
      if i == a || j == a {
        var k := if i == a then j else i;
        assert forall p :: p in ls[a] <==> p in lists[a] || p in lists[b];
        assert k != b ==> Two(lists, k, a) && Two(lists, k, b);
      }
    }
  }

  ghost predicate Two(lists: seq<seq<int>>, i: nat, j: nat)
    requires i < |lists| && j < |lists|
  {
    Members(lists[i]) !! Members(lists[j])
  }

  lemma Landed(c: Code, c': Code, heads: seq<int>, pic: Picture, a: nat)
    requires Threaded(c, heads, pic) && a < |heads|
    requires Patched(c, c', Members(pic.lists[a]), |c|, NO_REG, |c|)
    ensures Threaded(c', heads[a := NO_JUMP], After(pic, Land(a)))
  {
    var lists, pic' := pic.lists, After(pic, Land(a));
    var hs, ls := heads[a := NO_JUMP], lists[a := []];
    forall k | 0 <= k < |hs| ensures IsList(c', hs[k], ls[k]) {
      if k != a {
        forall j | j in lists[k] ensures j < |c'| && c'[j] == c[j] {
          assert IsList(c, heads[k], lists[k]) && j in Members(lists[k]);
          assert if k < a then Members(lists[k]) !! Members(lists[a]) else Members(lists[a]) !! Members(lists[k]);
        }
        ListStable(c, c', heads[k], lists[k]);
      }
    }
    assert IsList(c, heads[a], lists[a]);
    forall p | 0 <= p < |c'| && c'[p].Jmp? ensures p in pic'.landed <==> !Listed(ls, p) {
      assert c[p].Jmp?;
      ListedLanded(lists, a, p);
    }
    forall p | p in pic'.landed ensures Finally(c', p, pic'.landed[p]) {
      if p !in lists[a] { assert Finally(c, p, pic.landed[p]); }
    }
  }

  lemma ListedLanded(lists: seq<seq<int>>, a: nat, p: int)
    requires a < |lists| && Apart(lists)
    ensures Listed(lists[a := []], p) <==> Listed(lists, p) && p !in lists[a]
  {
    var ls := lists[a := []];
    if Listed(ls, p) {
      var k :| 0 <= k < |ls| && p in ls[k];
      assert p in lists[k] && p in Members(lists[k]);
      assert if k < a then Two(lists, k, a) else Two(lists, a, k);
      assert p !in Members(lists[a]);
    }
    if Listed(lists, p) && p !in lists[a] {
      var k :| 0 <= k < |lists| && p in lists[k];
      assert p in ls[k];
    }
  }

  /** Any sequence of operations, on a new function. */
  method Run(fs: FuncState, ops: seq<Op>) returns (st: Status, heads: seq<int>)
    requires fs.Valid() && fs.code == [] && AllApplicable(ops)
    modifies fs
    ensures st.Failed? ==> fs.AtLimit()
    ensures st.Ok? ==> Threaded(fs.code, heads, Drawn(ops, |ops|))
  {
    heads := [];
    for k := 0 to |ops|
      invariant Threaded(fs.code, heads, Drawn(ops, k))
    {
      heads :- Apply(fs, ops[k], heads, Drawn(ops, k));
    }
    st := Ok;
  }

  method Apply(fs: FuncState, op: Op, heads0: seq<int>, ghost pic: Picture) returns (st: Status, heads: seq<int>)
    requires Threaded(fs.code, heads0, pic) && Applicable(op, |heads0|)
    modifies fs
    ensures st.Failed? ==> fs.AtLimit()
    ensures st.Ok? ==> Threaded(fs.code, heads, After(pic, op))
  {
    heads := heads0;
    ghost var c, lists := fs.code, pic.lists;
    match op {
      case NewJump =>
        var pc := fs.Emit(Jmp(NO_JUMP));
        heads := heads + [pc];
        Grow(c, fs.code, heads0, pic, Jmp(NO_JUMP));
      case Plain(i) =>
        var _ := fs.Emit(i);
        Grow(c, fs.code, heads0, pic, i);
      case Join(a, b) =>
        assert Two(lists, a, b) by { assert if a < b then Two(lists, a, b) else Two(lists, b, a); }
        var l :- fs.Concat(heads[a], heads[b], lists[a], lists[b]);
        heads := heads[a := l][b := NO_JUMP];
        Joined(c, fs.code, heads0, pic, a, b, l);
      case Land(a) =>
        :- fs.PatchToHere(heads[a], lists[a]);
        heads := heads[a := NO_JUMP];
        Landed(c, fs.code, heads0, pic, a);
    }
    st := Ok;
  }
}
