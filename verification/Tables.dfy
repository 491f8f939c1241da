/**
 Tables: an array part for 1..n, a hash part, and the insertion order of the hash keys, in which
 deleted keys stay behind as dead nodes; against a finite map over normalised keys.
 */
module Tables {
  import opened Options
  import opened Machine

  datatype Entry = Entry(key: Value, val: Value)

  /** The three parts of a table. */
  datatype Rep = Rep(arr: seq<Value>, hash: map<Value, Entry>, keys: seq<Value>)

  /** Half the greatest 64-bit integer. */
  const HALF_MAX := 0x3FFF_FFFF_FFFF_FFFF

  // ---------------------------------------------------------------------------------------------
  // Keys and lookups

  /** normKey: a float with an exact integer value is that integer; nil and NaN are no keys. */
  function Norm(v: Value): Option<Value> {
    match v
    case Nil => None
    case Flt(f) =>
      if f.NaN? then None
      else if ExactInt(f).Some? then Some(Int(ExactInt(f).value))
      else Some(v)
    case False => Some(v)
    case True => Some(v)
    case Int(_) => Some(v)
    case Str(_) => Some(v)
    case Obj(_) => Some(v)
  }

  // Which values are keys, and which of them are the same key

  predicate IsKey(v: Value) {
    v != Nil && v != Flt(NaN)
  }

  /** An integer has 64 bits. */
  predicate IsWord(v: Value) {
    v.Int? ==> -2 * HALF_MAX - 2 <= v.i <= 2 * HALF_MAX + 1
  }

  lemma KeyNorm(v: Value)
    ensures Norm(v).Some? <==> IsKey(v)
    ensures Norm(v).Some? ==> RawEqual(Norm(v).value, v)
  {
  }

  /** Keys are the same exactly if the values are equal, an integer and a float included; of these the
      key is the integer. */
  lemma SameKey(v: Value, w: Value)
    requires IsKey(v) && IsKey(w) && IsWord(v) && IsWord(w)
    ensures Norm(v) == Norm(w) <==> RawEqual(v, w)
    ensures RawEqual(v, w) && w.Int? ==> Norm(v) == Some(w)
  {
    NormWord(v);
    NormWord(w);
  }

  lemma NormWord(v: Value)
    requires IsKey(v) && IsWord(v)
    ensures Norm(v).value.Int? ==> IsNumber(v) && AsFloat(v) == Finite(Norm(v).value.i as real)
    ensures !Norm(v).value.Int? ==> Norm(v) == Some(v)
    ensures Norm(v).value.Flt? ==> forall i: int :: v != Int(i) && (IsWord(Int(i)) ==> v != Flt(Finite(i as real)))
  {
    if v.Flt? && v.f.Finite? {
      forall i: int | IsWord(Int(i)) && v == Flt(Finite(i as real)) ensures Norm(v) == Some(Int(i)) {
        assert v.f.r.Floor == i;
      }
    }
  }

  predicate InArr(s: Rep, k: Value) {
    k.Int? && 1 <= k.i <= |s.arr|
  }

  function HashGet(s: Rep, k: Value): Value {
    if k in s.hash then s.hash[k].val else Nil
  }

  /** The value under a normalised key. */
  function Get(s: Rep, k: Value): Value {
    if InArr(s, k) then s.arr[k.i - 1] else HashGet(s, k)
  }

  predicate NoDup(ks: seq<Value>) {
    forall i, j :: 0 <= i < j < |ks| ==> ks[i] != ks[j]
  }

  /** The key list is the hash's domain without repetition, and every key is normalised. */
  predicate Listed(s: Rep) {
    && NoDup(s.keys)
    && (forall k :: k in s.keys ==> k in s.hash)
    && (forall k :: k in s.hash ==> k in s.keys && Norm(k) == Some(k) && s.hash[k].key == k)
  }

  /** No integer key up to n is live in the hash part. */
  predicate Clear(s: Rep, n: int) {
    forall k :: k in s.hash && k.Int? && 1 <= k.i <= n ==> s.hash[k].val == Nil
  }

  predicate Valid(s: Rep) {
    Listed(s) && Clear(s, |s.arr| + 1)
  }

  // ---------------------------------------------------------------------------------------------
  // The finite map that a table stands for

  ghost function Contents(s: Rep): map<Value, Value> {
    map k | k in Slots(s) && Get(s, k) != Nil :: Get(s, k)
  }

  ghost function Slots(s: Rep): set<Value> {
    s.hash.Keys + set i | 1 <= i <= |s.arr| :: Int(i)
  }

  lemma ContentsGet(s: Rep, k: Value)
    ensures Get(s, k) == if k in Contents(s) then Contents(s)[k] else Nil
  {
  }

  /** nil deletes. */
  function Updated(m: map<Value, Value>, key: Value, val: Value): map<Value, Value> {
    match Norm(key)
    case None => m
    case Some(k) => if val == Nil then m - {k} else m[k := val]
  }

  // ---------------------------------------------------------------------------------------------
  // Assignment, as functions of the parts

  function HashDel(s: Rep, k: Value): Rep {
    if k in s.hash then s.(hash := s.hash[k := s.hash[k].(val := Nil)]) else s
  }

  function HashSet(s: Rep, k: Value, key: Value, val: Value): Rep {
    if val == Nil then HashDel(s, k)
    else s.(hash := s.hash[k := Entry(key, val)], keys := if k in s.hash then s.keys else s.keys + [k])
  }

  /** The live integer keys of the hash part. */
  ghost function LiveKeys(s: Rep): set<Value> {
    set k | k in s.hash && s.hash[k].val != Nil
  }

  predicate Absorbable(s: Rep) {
    HashGet(s, Int(|s.arr| + 1)) != Nil
  }

  function AbsorbOne(s: Rep): Rep {
    HashDel(s.(arr := s.arr + [HashGet(s, Int(|s.arr| + 1))]), Int(|s.arr| + 1))
  }

  lemma AbsorbShrinks(s: Rep)
    requires Absorbable(s)
    ensures LiveKeys(AbsorbOne(s)) < LiveKeys(s)
  {
    var k := Int(|s.arr| + 1);
    assert k in LiveKeys(s) && k !in LiveKeys(AbsorbOne(s));
  }

  function Absorb(s: Rep): Rep
    decreases LiveKeys(s)
  {
    if Absorbable(s) then AbsorbShrinks(s); Absorb(AbsorbOne(s)) else s
  }

  function SetInt(s: Rep, k: int, val: Value): Rep {
    if 1 <= k <= |s.arr| then s.(arr := s.arr[k - 1 := val])
    else if k == |s.arr| + 1 && val != Nil then Absorb(s.(arr := s.arr + [val]))
    else HashSet(s, Int(k), Int(k), val)
  }

  function Set(s: Rep, key: Value, val: Value): Rep {
    match Norm(key)
    case None => s
    case Some(k) => if k.Int? then SetInt(s, k.i, val) else HashSet(s, k, key, val)
  }

  // ---------------------------------------------------------------------------------------------
  // Refinement

  lemma HashSetListed(s: Rep, k: Value, val: Value)
    requires Listed(s) && Norm(k) == Some(k)
    ensures Listed(HashSet(s, k, k, val))
    ensures forall q :: HashGet(HashSet(s, k, k, val), q) == if q == k then val else HashGet(s, q)
  {
  }

  /** Absorbing moves keys without changing any value, and ends with the next key not live. */
  lemma {:induction false} AbsorbGet(s: Rep)
    requires Listed(s) && Clear(s, |s.arr|)
    ensures Valid(Absorb(s)) && forall q :: Get(Absorb(s), q) == Get(s, q)
    decreases LiveKeys(s)
  {
    if Absorbable(s) {
      AbsorbShrinks(s);
      var s1, k := AbsorbOne(s), Int(|s.arr| + 1);
      assert Listed(s1) && Clear(s1, |s1.arr|);
      AbsorbGet(s1);
      assert forall q :: Get(s1, q) == Get(s, q);
    }
  }

  lemma SetIntGet(s: Rep, k: int, val: Value)
    requires Valid(s)
    ensures Valid(SetInt(s, k, val))
    ensures forall q :: Get(SetInt(s, k, val), q) == if q == Int(k) then val else Get(s, q)
  {
    if 1 <= k <= |s.arr| {
    } else if k == |s.arr| + 1 && val != Nil {
      AbsorbGet(s.(arr := s.arr + [val]));
    } else {
      HashSetListed(s, Int(k), val);
    }
  }

  /** A table refines its finite map, for every key and value. */
  lemma SetRefines(s: Rep, key: Value, val: Value)
    requires Valid(s)
    ensures Valid(Set(s, key, val))
    ensures Contents(Set(s, key, val)) == Updated(Contents(s), key, val)
  {
    var k := Norm(key);
    if k.Some? {
      var s' := Set(s, key, val);
      if k.value.Int? {
        SetIntGet(s, k.value.i, val);
      } else {
        HashSetListed(s, k.value, val);
      }
      assert forall q :: Get(s', q) == if q == k.value then val else Get(s, q);
      ContentsUpdated(s, s', k.value, val);
    }
  }

  lemma ContentsUpdated(s: Rep, s': Rep, k: Value, val: Value)
    requires forall q :: Get(s', q) == if q == k then val else Get(s, q)
    ensures Contents(s') == if val == Nil then Contents(s) - {k} else Contents(s)[k := val]
  {
    var m := if val == Nil then Contents(s) - {k} else Contents(s)[k := val];
    forall q ensures (q in Contents(s') <==> q in m) && (q in m ==> Contents(s')[q] == m[q]) {
      ContentsGet(s, q);
      ContentsGet(s', q);
    }
  }

  // ---------------------------------------------------------------------------------------------
  // Borders and positions

  /** A border: section 3.4.7 of the Lua 5.4 Reference Manual. */
  predicate Border(s: Rep, n: int) {
    n >= 0 && (n == 0 || Get(s, Int(n)) != Nil) && Get(s, Int(n + 1)) == Nil
  }

  /** Traversal order: the array slots, then the hash keys in insertion order. */
  function Positions(s: Rep): nat {
    |s.arr| + |s.keys|
  }

  function KeyAt(s: Rep, p: nat): Value
    requires p < Positions(s)
  {
    if p < |s.arr| then Int(p + 1) else s.keys[p - |s.arr|]
  }

  predicate LiveAt(s: Rep, p: nat)
    requires p < Positions(s)
  {
    if p < |s.arr| then s.arr[p] != Nil else HashGet(s, s.keys[p - |s.arr|]) != Nil
  }

  /** The key v has its place at p: a hash slot shadowed by the array part does not count. */
  predicate Placed(s: Rep, p: int, v: Value) {
    0 <= p < Positions(s) && KeyAt(s, p) == v && (p >= |s.arr| ==> !InArr(s, v))
  }

  ghost predicate IsPlaced(s: Rep, key: Value) {
    Norm(key).Some? && exists q :: Placed(s, q, Norm(key).value)
  }

  /** Every live key has one place. */
  lemma LivePlace(s: Rep, p: nat)
    requires Valid(s) && p < Positions(s) && LiveAt(s, p)
    ensures Placed(s, p, KeyAt(s, p)) && Get(s, KeyAt(s, p)) != Nil
  {
    if p >= |s.arr| {
      assert s.keys[p - |s.arr|] in s.keys;
    }
  }

  lemma OnePlace(s: Rep, p: int, q: int, v: Value)
    requires Listed(s) && Placed(s, p, v) && Placed(s, q, v)
    ensures p == q
  {
  }

  lemma LiveHasPlace(s: Rep, k: Value) returns (p: nat)
    requires Valid(s) && Get(s, k) != Nil
    ensures Placed(s, p, k) && LiveAt(s, p)
  {
    if InArr(s, k) {
      p := k.i - 1;
    } else {
      assert k in s.keys;
      var j :| 0 <= j < |s.keys| && s.keys[j] == k;
      p := |s.arr| + j;
    }
  }

  /** From position p on, the first live key is nk; without ok there is none. */
  ghost predicate Following(s: Rep, p: nat, nk: Value, nv: Value, ok: bool) {
    if ok then exists q :: p <= q < Positions(s) && First(s, p, q) && nk == KeyAt(s, q) && nv == Get(s, nk) && nv != Nil
    else forall q :: p <= q < Positions(s) ==> !LiveAt(s, q)
  }

  ghost predicate First(s: Rep, p: nat, q: nat)
    requires q < Positions(s)
  {
    LiveAt(s, q) && forall j :: p <= j < q ==> !LiveAt(s, j)
  }

  // ---------------------------------------------------------------------------------------------
  // The table

  class Table {
    var arr: seq<Value>
    var hash: map<Value, Entry>
    var keys: seq<Value>

    constructor ()
      ensures Parts() == Rep([], map[], []) && Valid(Parts()) && Contents(Parts()) == map[]
    {
      arr, hash, keys := [], map[], [];
    }

    function Parts(): Rep
      reads this
    {
      Rep(arr, hash, keys)
    }

    method RawGetInt(k: int) returns (v: Value)
      ensures v == Get(Parts(), Int(k))
    {
      if 1 <= k <= |arr| {
        return arr[k - 1];
      }
      if Int(k) in hash {
        return hash[Int(k)].val;
      }
      return Nil;
    }

    method RawGet(key: Value) returns (v: Value)
      ensures v == if Norm(key).Some? then Get(Parts(), Norm(key).value) else Nil
      ensures Valid(Parts()) && Norm(key).Some? ==>
                v == if Norm(key).value in Contents(Parts()) then Contents(Parts())[Norm(key).value] else Nil
    {
      if Norm(key).Some? { ContentsGet(Parts(), Norm(key).value); }
      if key.Int? {
        v := RawGetInt(key.i);
        return;
      }
      if key.Flt? && ExactInt(key.f).Some? {
        v := RawGetInt(ExactInt(key.f).value);
        return;
      }
      var nk := Norm(key);
      if nk.None? || nk.value !in hash {
        return Nil;
      }
      return hash[nk.value].val;
    }

    method DeleteHash(k: Value)
      modifies this`hash
      ensures Parts() == HashDel(old(Parts()), k)
    {
      if k in hash {
        hash := hash[k := hash[k].(val := Nil)];
      }
    }

    method AssignHash(k: Value, key: Value, val: Value)
      modifies this`hash, this`keys
      ensures Parts() == HashSet(old(Parts()), k, key, val)
    {
      if val == Nil {
        DeleteHash(k);
        return;
      }
      if k !in hash {
        keys := keys + [k];
      }
      hash := hash[k := Entry(key, val)];
    }

    /** absorbFromHash: the keys that now continue the array part move into it. */
    method AbsorbFromHash()
      modifies this`arr, this`hash
      ensures Parts() == Absorb(old(Parts()))
    {
      while true
        invariant Absorb(Parts()) == Absorb(old(Parts())) && keys == old(keys)
        decreases LiveKeys(Parts())
      {
        var nk := Int(|arr| + 1);
        if nk !in hash || hash[nk].val == Nil {
          return;
        }
        AbsorbShrinks(Parts());
        arr := arr + [hash[nk].val];
        DeleteHash(nk);
      }
    }

    method RawSetInt(k: int, val: Value)
      modifies this
      ensures Parts() == SetInt(old(Parts()), k, val)
    {
      if 1 <= k <= |arr| {
        arr := arr[k - 1 := val];
        return;
      }
      if k == |arr| + 1 && val != Nil {
        arr := arr + [val];
        AbsorbFromHash();
        return;
      }
      AssignHash(Int(k), Int(k), val);
    }

    /** rawset; a nil or NaN key is ignored here, its callers raise the error. */
    method RawSet(key: Value, val: Value)
      modifies this
      ensures Parts() == Set(old(Parts()), key, val)
      ensures old(Valid(Parts())) ==> Valid(Parts()) && Contents(Parts()) == Updated(old(Contents(Parts())), key, val)
    {
      if Valid(Parts()) { SetRefines(Parts(), key, val); }
      if key.Int? {
        RawSetInt(key.i, val);
        return;
      }
      if key.Flt? && ExactInt(key.f).Some? {
        RawSetInt(ExactInt(key.f).value, val);
        return;
      }
      var nk := Norm(key);
      if nk.None? {
        return;
      }
      AssignHash(nk.value, key, val);
    }

    /** length: always a border; for a valid table one within the array part, so that the search
        beyond it, whose indices are unbounded here, is never made. */
    method Length() returns (n: int)
      ensures Border(Parts(), n)
      ensures Valid(Parts()) ==> 0 <= n <= |arr|
    {
      var len := |arr|;
      if len > 0 && arr[len - 1] == Nil {
        var lo, hi := 0, len;
        while hi - lo > 1
          invariant 0 <= lo < hi <= len && arr[hi - 1] == Nil && (lo == 0 || arr[lo - 1] != Nil)
        {
          var m := (lo + hi) / 2;
          if arr[m - 1] == Nil {
            hi := m;
          } else {
            lo := m;
          }
        }
        return lo;
      }
      var v := RawGetInt(len + 1);
      if v == Nil {
        return len;
      }
      n := UnboundSearch(len);
    }

    /** The rest of length: the border is in the hash, if the invariant does not hold. */
    method UnboundSearch(len: nat) returns (n: int)
      requires len == 0 || Get(Parts(), Int(len)) != Nil
      ensures Border(Parts(), n)
    {
      var i, j := len, len + 1;
      var v := RawGetInt(j);
      while v != Nil
        invariant 0 <= i < j && (i == 0 || Get(Parts(), Int(i)) != Nil) && v == Get(Parts(), Int(j))
        decreases if j <= HALF_MAX then HALF_MAX - j + 1 else 0, if v != Nil then 1 else 0
      {
        i := j;
        if j > HALF_MAX {
          n := LinearScan();
          return;
        }
        j := j * 2;
        v := RawGetInt(j);
      }
      while j - i > 1
        invariant 0 <= i < j && (i == 0 || Get(Parts(), Int(i)) != Nil) && Get(Parts(), Int(j)) == Nil
      {
        var m := (i + j) / 2;
        v := RawGetInt(m);
        if v == Nil {
          j := m;
        } else {
          i := m;
        }
      }
      return i;
    }

    method LinearScan() returns (n: int)
      ensures Border(Parts(), n)
    {
      var i := 1;
      var v := RawGetInt(i);
      ghost var rest := hash.Keys;
      while v != Nil
        invariant 1 <= i && (i == 1 || Get(Parts(), Int(i - 1)) != Nil) && v == Get(Parts(), Int(i))
        invariant rest <= hash.Keys && forall k :: i <= k && Int(k) in hash ==> Int(k) in rest
        decreases if i <= |arr| then |arr| - i + 1 else 0, |rest|, if v != Nil then 1 else 0
      {
        rest := rest - {Int(i)};
        i := i + 1;
        v := RawGetInt(i);
      }
      return i - 1;
    }

    /** nextHashAt: the first live node from index idx on. */
    method NextHashAt(idx: nat) returns (nk: Value, nv: Value, ok: bool)
      requires Valid(Parts()) && idx <= |keys|
      ensures Following(Parts(), |arr| + idx, nk, nv, ok)
    {
      ghost var s := Parts();
      for i := idx to |keys|
        invariant forall j :: idx <= j < i ==> HashGet(s, keys[j]) == Nil
      {
        if keys[i] in hash && hash[keys[i]].val != Nil {
          LivePlace(s, |arr| + i);
          assert First(s, |arr| + idx, |arr| + i) by {
            forall j | |arr| + idx <= j < |arr| + i ensures !LiveAt(s, j) {
              assert HashGet(s, keys[j - |arr|]) == Nil;
            }
          }
          return hash[keys[i]].key, hash[keys[i]].val, true;
        }
      }
      forall q | |arr| + idx <= q < Positions(s) ensures !LiveAt(s, q) {
        assert HashGet(s, keys[q - |arr|]) == Nil;
      }
      return Nil, Nil, false;
    }

    /** next: the live key after the one at position p - 1, or the first one for nil. */
    method Next(key: Value) returns (nk: Value, nv: Value, ok: bool, found: bool, ghost p: nat)
      requires Valid(Parts())
      ensures found <==> key == Nil || IsPlaced(Parts(), key)
      ensures found ==> Following(Parts(), p, nk, nv, ok)
      ensures found ==> if key == Nil then p == 0
              else p > 0 && Norm(key).Some? && Placed(Parts(), p - 1, Norm(key).value)
    {
      nk, nv, ok, found, p := Nil, Nil, false, true, 0;
      var ik := if key.Int? then Some(key.i) else if key.Flt? then ExactInt(key.f) else None;
      if key == Nil {
        nk, nv, ok := NextFrom(0);
      } else if ik.Some? && 1 <= ik.value <= |arr| {
        p := ik.value;
        assert Placed(Parts(), p - 1, Norm(key).value);
        nk, nv, ok := NextFrom(ik.value);
      } else {
        nk, nv, ok, found, p := NextHash(key);
      }
    }

    /** The array slots from start on, then the hash part. */
    method NextFrom(start: nat) returns (nk: Value, nv: Value, ok: bool)
      requires Valid(Parts()) && start <= |arr|
      ensures Following(Parts(), start, nk, nv, ok)
    {
      ghost var s := Parts();
      for i := start to |arr|
        invariant forall j :: start <= j < i ==> !LiveAt(s, j)
      {
        if arr[i] != Nil {
          assert First(s, start, i);
          return Int(i + 1), arr[i], true;
        }
      }
      nk, nv, ok := NextHashAt(0);
      if ok {
        ghost var q :| |arr| <= q < Positions(s) && First(s, |arr|, q) && nk == KeyAt(s, q);
        assert First(s, start, q);
      }
    }

    method NextHash(key: Value) returns (nk: Value, nv: Value, ok: bool, found: bool, ghost p: nat)
      requires Valid(Parts()) && key != Nil && (Norm(key).Some? ==> !InArr(Parts(), Norm(key).value))
      ensures found <==> IsPlaced(Parts(), key)
      ensures found ==> Following(Parts(), p, nk, nv, ok)
      ensures found ==> p > 0 && Norm(key).Some? && Placed(Parts(), p - 1, Norm(key).value)
    {
      nk, nv, ok, found, p := Nil, Nil, false, false, 0;
      var cur := Norm(key);
      if cur.None? {
        return;
      }
      for idx := 0 to |keys|
        invariant forall j :: 0 <= j < idx ==> keys[j] != cur.value
      {
        if keys[idx] == cur.value {
          p := |arr| + idx + 1;
          assert Placed(Parts(), p - 1, cur.value);
          nk, nv, ok := NextHashAt(idx + 1);
          found := true;
          return;
        }
      }
    }
  }

  // ---------------------------------------------------------------------------------------------
  // Sequences of assignments

  function AllUpdated(m: map<Value, Value>, sets: seq<(Value, Value)>): map<Value, Value> {
    if sets == [] then m else Updated(AllUpdated(m, sets[..|sets| - 1]), sets[|sets| - 1].0, sets[|sets| - 1].1)
  }

  /** The value of the last assignment whose key equals the one asked for, if there is one. */
  function LastSet(sets: seq<(Value, Value)>, key: Value): Value {
    if sets == [] then Nil
    else
      var (k, v) := sets[|sets| - 1];
      if IsKey(k) && RawEqual(k, key) then v else LastSet(sets[..|sets| - 1], key)
  }

  function Found(m: map<Value, Value>, key: Value): Value {
    if Norm(key).Some? && Norm(key).value in m then m[Norm(key).value] else Nil
  }

  lemma {:induction false} FoundLast(sets: seq<(Value, Value)>, key: Value)
    requires IsWord(key) && forall i :: 0 <= i < |sets| ==> IsWord(sets[i].0)
    ensures Found(AllUpdated(map[], sets), key) == LastSet(sets, key)
    decreases |sets|
  {
    if sets != [] {
      var n := |sets| - 1;
      FoundLast(sets[..n], key);
      FoundUpdated(AllUpdated(map[], sets[..n]), sets[n].0, sets[n].1, key);
    }
  }

  lemma FoundUpdated(m: map<Value, Value>, k: Value, v: Value, key: Value)
    requires IsWord(k) && IsWord(key)
    ensures Found(Updated(m, k, v), key) == if IsKey(k) && RawEqual(k, key) then v else Found(m, key)
  {
    KeyNorm(k);
    KeyNorm(key);
    if IsKey(k) && IsKey(key) { SameKey(k, key); }
  }

  /** After any assignments to a new table, every lookup gives what the finite map holds: the value of
      the last assignment to an equal key. */
  method Assignments(sets: seq<(Value, Value)>, key: Value) returns (v: Value)
    ensures v == Found(AllUpdated(map[], sets), key)
    ensures IsWord(key) && (forall i :: 0 <= i < |sets| ==> IsWord(sets[i].0)) ==> v == LastSet(sets, key)
  {
    if IsWord(key) && forall i :: 0 <= i < |sets| ==> IsWord(sets[i].0) { FoundLast(sets, key); }
    var t := new Table();
    for i := 0 to |sets|
      invariant fresh(t) && Valid(t.Parts()) && Contents(t.Parts()) == AllUpdated(map[], sets[..i])
    {
      t.RawSet(sets[i].0, sets[i].1);
      assert sets[..i + 1][..i] == sets[..i];
    }
    assert sets[..|sets|] == sets;
    v := t.RawGet(key);
  }

  // ---------------------------------------------------------------------------------------------
  // Traversal

  /** Every live field was live before. */
  ghost predicate Shrinks(s: Rep, s': Rep) {
    forall q :: Get(s', q) != Nil ==> Get(s, q) != Nil
  }

  /** Assigning to an existing field moves nothing and brings no other field to life. */
  lemma EditShape(s: Rep, k: Value, val: Value)
    requires Valid(s) && Norm(k).Some? && Get(s, Norm(k).value) != Nil
    ensures var s' := Set(s, k, val);
            && Valid(s') && |s'.arr| == |s.arr| && s'.keys == s.keys
            && Shrinks(s, s')
  {
    var n, s' := Norm(k).value, Set(s, k, val);
    SetRefines(s, k, val);
    assert InArr(s, n) || (n in s.hash && (n.Int? ==> n.i != |s.arr| + 1));
    forall q | Get(s', q) != Nil ensures Get(s, q) != Nil {
      ContentsGet(s, q);
      ContentsGet(s', q);
    }
  }

  /** The assignments that are to existing fields; the others are not made. */
  method EditExisting(t: Table, edits: seq<(Value, Value)>)
    requires Valid(t.Parts())
    modifies t
    ensures Valid(t.Parts()) && |t.arr| == |old(t.arr)| && t.keys == old(t.keys)
    ensures Shrinks(old(t.Parts()), t.Parts())
  {
    for i := 0 to |edits|
      invariant Valid(t.Parts()) && |t.arr| == |old(t.arr)| && t.keys == old(t.keys)
      invariant Shrinks(old(t.Parts()), t.Parts())
    {
      var v := t.RawGet(edits[i].0);
      if v != Nil {
        EditShape(t.Parts(), edits[i].0, edits[i].1);
        t.RawSet(edits[i].0, edits[i].1);
      }
    }
  }

  /** Everything visited has its place before p, and every live key placed before p was visited. */
  ghost predicate Covered(s: Rep, p: nat, visited: seq<Value>) {
    && p <= Positions(s) && NoDup(visited)
    && (forall v :: v in visited ==> exists j :: j < p && Placed(s, j, v))
    && (forall j :: 0 <= j < p && LiveAt(s, j) ==> KeyAt(s, j) in visited)
  }

  lemma CoveredEdited(s: Rep, s': Rep, p: nat, visited: seq<Value>)
    requires Valid(s) && Valid(s') && Covered(s, p, visited) && |s'.arr| == |s.arr| && s'.keys == s.keys
    requires Shrinks(s, s')
    ensures Covered(s', p, visited)
  {
    forall v | v in visited ensures exists j :: j < p && Placed(s', j, v) {
      var j :| j < p && Placed(s, j, v);
      assert Placed(s', j, v);
    }
    forall j | 0 <= j < p && LiveAt(s', j) ensures KeyAt(s', j) in visited {
      LivePlace(s', j);
      var i := LiveHasPlace(s, KeyAt(s', j));
      OnePlace(s, i, j, KeyAt(s', j));
    }
  }

  lemma CoveredNext(s: Rep, p: nat, visited: seq<Value>, q: nat)
    requires Valid(s) && Covered(s, p, visited) && p <= q < Positions(s) && First(s, p, q)
    ensures Covered(s, q + 1, visited + [KeyAt(s, q)]) && Placed(s, q, KeyAt(s, q))
  {
    var k := KeyAt(s, q);
    LivePlace(s, q);
    if k in visited {
      var j :| j < p && Placed(s, j, k);
      OnePlace(s, j, q, k);
      assert false;
    }
    forall v | v in visited + [k] ensures exists j :: j < q + 1 && Placed(s, j, v) {
      if v in visited {
        var j :| j < p && Placed(s, j, v);
      }
    }
  }

  /**
   A traversal by next, with any assignments to existing fields before each step. It ends, visits
   no key twice and only keys that were there, and visits every key that is still there at the end,
   which, since an absent field is never assigned, are the keys that were there all along.
   */
  method Traverse(t: Table, edits: nat -> seq<(Value, Value)>) returns (visited: seq<Value>)
    requires Valid(t.Parts())
    modifies t
    ensures Valid(t.Parts()) && NoDup(visited)
    ensures forall v :: v in visited ==> Get(old(t.Parts()), v) != Nil
    ensures forall k :: Get(t.Parts(), k) != Nil ==> k in visited
  {
    visited := [];
    var key, step, ok := Nil, 0, true;
    ghost var p: nat := 0;
    while ok
      invariant Valid(t.Parts()) && Covered(t.Parts(), p, visited) && At(t.Parts(), p, key)
      invariant Shrinks(old(t.Parts()), t.Parts())
      invariant forall v :: v in visited ==> Get(old(t.Parts()), v) != Nil
      invariant !ok ==> forall k :: Get(t.Parts(), k) != Nil ==> k in visited
      decreases Positions(t.Parts()) - p, ok
    {
      var nk;
      nk, ok, p := Advance(t, key, edits(step), p, visited);
      if ok {
        visited := visited + [nk];
        key, step := nk, step + 1;
      }
    }
  }

  /** The traversal has come to key, which is placed just before p. */
  predicate At(s: Rep, p: nat, key: Value) {
    if p == 0 then key == Nil else Norm(key) == Some(key) && Placed(s, p - 1, key)
  }

  /** One round of a traversal. */
  method Advance(t: Table, key: Value, edits: seq<(Value, Value)>, ghost p: nat, ghost visited: seq<Value>)
    returns (nk: Value, ok: bool, ghost p': nat)
    requires Valid(t.Parts()) && Covered(t.Parts(), p, visited) && At(t.Parts(), p, key)
    modifies t
    ensures Valid(t.Parts()) && Shrinks(old(t.Parts()), t.Parts()) && Positions(t.Parts()) == Positions(old(t.Parts()))
    ensures ok ==>
            p < p' && Get(t.Parts(), nk) != Nil && Covered(t.Parts(), p', visited + [nk])
            && At(t.Parts(), p', nk)
    ensures !ok ==> p' == p && Covered(t.Parts(), p, visited) && At(t.Parts(), p, key)
    ensures !ok ==> forall k :: Get(t.Parts(), k) != Nil ==> k in visited
  {
    ghost var s := t.Parts();
    EditExisting(t, edits);
    ghost var s' := t.Parts();
    CoveredEdited(s, s', p, visited);
    assert At(s', p, key);
    var nv, found;
    nk, nv, ok, found, p' := t.Next(key);
    assert p > 0 ==> Placed(s', p - 1, Norm(key).value);
    assert p' == p by { if p > 0 { OnePlace(s', p - 1, p' - 1, key); } }
    p' := Arrived(s', p, visited, nk, nv, ok);
  }

  lemma Arrived(s: Rep, p: nat, visited: seq<Value>, nk: Value, nv: Value, ok: bool) returns (p': nat)
    requires Valid(s) && Covered(s, p, visited) && Following(s, p, nk, nv, ok)
    ensures ok ==> p < p' && Get(s, nk) != Nil && Covered(s, p', visited + [nk]) && At(s, p', nk)
    ensures !ok ==> p' == p && forall k :: Get(s, k) != Nil ==> k in visited
  {
    p' := p;
    if !ok {
      forall k | Get(s, k) != Nil ensures k in visited {
        var j := LiveHasPlace(s, k);
      }
    } else {
      var q :| p <= q < Positions(s) && First(s, p, q) && nk == KeyAt(s, q) && nv == Get(s, nk) && nv != Nil;
      CoveredNext(s, p, visited, q);
      assert Norm(nk) == Some(nk) by { if q >= |s.arr| { assert nk in s.keys; } }
      p' := q + 1;
    }
  }

  // ---------------------------------------------------------------------------------------------
  // Assignment on a table without a metatable

  datatype Outcome = Done(s: Rep) | NilIndex | NaNIndex | NoMemory

  /** newindex, with the cap on the array part (0 is none). */
  function NewIndex(s: Rep, key: Value, val: Value, cap: nat): Outcome {
    if key == Nil then NilIndex
    else if key == Flt(NaN) then NaNIndex
    else if cap > 0 && |s.arr| >= cap && Norm(key) == Some(Int(|s.arr| + 1)) && val != Nil then NoMemory
    else Done(Set(s, key, val))
  }

  /** One round of settable's general loop. */
  function General(s: Rep, key: Value, val: Value, cap: nat): Outcome {
    if Norm(key).Some? && Get(s, Norm(key).value) != Nil then Done(Set(s, key, val)) else NewIndex(s, key, val, cap)
  }

  /** The shortcut skips the probe and still gives the same table or the same error. */
  lemma ShortcutAgrees(s: Rep, key: Value, val: Value, cap: nat)
    requires Valid(s)
    ensures NewIndex(s, key, val, cap) == General(s, key, val, cap)
  {
    if Norm(key) == Some(Int(|s.arr| + 1)) {
      assert HashGet(s, Int(|s.arr| + 1)) == Nil;
    }
  }

  /** Were the next array key live in the hash part, the two would differ at the cap. */
  lemma ShortcutNeedsClear(s: Rep, val: Value, cap: nat)
    requires 0 < cap <= |s.arr| && val != Nil && HashGet(s, Int(|s.arr| + 1)) != Nil
    ensures NewIndex(s, Int(|s.arr| + 1), val, cap) == NoMemory
    ensures General(s, Int(|s.arr| + 1), val, cap).Done?
  {
  }

  method Settable(t: Table, key: Value, val: Value, cap: nat) returns (out: Outcome)
    requires Valid(t.Parts())
    modifies t
    ensures out == General(old(t.Parts()), key, val, cap)
    ensures t.Parts() == if out.Done? then out.s else old(t.Parts())
    ensures Valid(t.Parts())
    ensures out.Done? ==> Contents(t.Parts()) == Updated(old(Contents(t.Parts())), key, val)
  {
    ShortcutAgrees(t.Parts(), key, val, cap);
    if key == Nil {
      return NilIndex;
    }
    if key == Flt(NaN) {
      return NaNIndex;
    }
    if cap > 0 && |t.arr| >= cap {
      var k := if key.Int? then Some(key.i) else if key.Flt? then ExactInt(key.f) else None;
      if k == Some(|t.arr| + 1) && val != Nil {
        return NoMemory;
      }
    }
    t.RawSet(key, val);
    return Done(t.Parts());
  }
}
