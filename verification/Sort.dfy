/**
 table.sort: a median-of-three quicksort in place, with a comparator that may raise, be
 inconsistent, or change its mind between calls.
 */
module Sort {
  import opened Machine

  datatype Answer = Yes | No | Raise

  /** What the n-th call of the comparator answers to "is x less than y". */
  type Comparator = (nat, Value, Value) -> Answer

  type Less = (Value, Value) -> bool

  datatype Status = Fine | ComparatorRaised | InvalidOrder

  /** A strict weak order: irreflexive, transitive, and so is "neither is less". */
  ghost predicate StrictWeak(less: Less) {
    forall x, y, z :: Laws(less, x, y, z)
  }

  predicate Laws(less: Less, x: Value, y: Value, z: Value) {
    && !less(x, x)
    && (less(x, y) && less(y, z) ==> less(x, z))
    && (!less(x, y) && !less(y, z) ==> !less(x, z))
  }

  /** Less by a key is one, and so is less by a second key where the first ones are equal. */
  lemma ByKeys(less: Less, key: Value -> int, second: Value -> int)
    requires forall x, y :: less(x, y) <==> key(x) < key(y) || (key(x) == key(y) && second(x) < second(y))
    ensures StrictWeak(less)
  {
  }

  lemma Asymmetric(less: Less, x: Value, y: Value)
    requires StrictWeak(less) && less(x, y)
    ensures !less(y, x)
  {
    assert Laws(less, x, y, x);
  }

  /** The comparator is the strict weak order less, at every call. */
  ghost predicate Follows(lt: Comparator, less: Less) {
    && StrictWeak(less)
    && forall n, x, y :: lt(n, x, y) == if less(x, y) then Yes else No
  }

  ghost predicate Sorted(s: seq<Value>, less: Less, lo: int, up: int)
    requires 0 <= lo && up < |s|
  {
    (forall i, j :: lo <= i < j <= up ==> !less(s[j], s[i])) == true
  }

  // ---------------------------------------------------------------------------------------------
  // Permutations of a range

  /** t is s with the elements of lo..up in another order. (Comparing with true keeps the verifier
      from taking the conjunction apart wherever it is only passed on.) */
  ghost predicate Perm(s: seq<Value>, t: seq<Value>, lo: int, up: int)
    requires 0 <= lo <= up + 1 <= |s|
  {
    (&& |t| == |s|
     && t[..lo] == s[..lo] && t[up + 1..] == s[up + 1..]
     && multiset(t[lo..up + 1]) == multiset(s[lo..up + 1])) == true
  }

  lemma PermTrans(s: seq<Value>, t: seq<Value>, u: seq<Value>, lo: int, up: int)
    requires 0 <= lo <= up + 1 <= |s| && Perm(s, t, lo, up) && Perm(t, u, lo, up)
    ensures Perm(s, u, lo, up)
  {
  }

  function Swapped(s: seq<Value>, i: nat, j: nat): seq<Value>
    requires i < |s| && j < |s|
  {
    s[i := s[j]][j := s[i]]
  }

  lemma PermSwap(s: seq<Value>, i: nat, j: nat, lo: int, up: int)
    requires 0 <= lo <= i <= up < |s| && lo <= j <= up
    ensures Perm(s, Swapped(s, i, j), lo, up)
  {
    var t := Swapped(s, i, j);
    var m, m' := s[lo..up + 1], t[lo..up + 1];
    assert m' == m[i - lo := m[j - lo]][j - lo := m[i - lo]];
  }

  lemma PermWiden(s: seq<Value>, t: seq<Value>, lo: int, up: int, lo': int, up': int)
    requires 0 <= lo' <= lo <= up + 1 <= up' + 1 <= |s| && Perm(s, t, lo, up)
    ensures Perm(s, t, lo', up')
  {
    assert s[lo'..up' + 1] == s[..lo][lo'..] + s[lo..up + 1] + s[up + 1..][..up' - up];
    assert t[lo'..up' + 1] == t[..lo][lo'..] + t[lo..up + 1] + t[up + 1..][..up' - up];
    assert t[..lo'] == t[..lo][..lo'] && s[..lo'] == s[..lo][..lo'];
    assert t[up' + 1..] == t[up + 1..][up' - up..] && s[up' + 1..] == s[up + 1..][up' - up..];
  }

  /** Outside the range nothing moves; inside, every element comes from the range. */
  lemma PermAt(s: seq<Value>, t: seq<Value>, lo: int, up: int, k: int) returns (j: int)
    requires 0 <= lo <= up + 1 <= |s| && Perm(s, t, lo, up) && 0 <= k < |s|
    ensures 0 <= j < |s| && t[k] == s[j] && if lo <= k <= up then lo <= j <= up else j == k
  {
    j := k;
    if lo <= k <= up {
      assert t[lo..up + 1][k - lo] in multiset(t[lo..up + 1]);
      assert t[k] in s[lo..up + 1];
      j :| lo <= j <= up && s[j] == t[k];
    } else if k < lo {
      assert t[k] == t[..lo][k] == s[..lo][k];
    } else {
      assert t[k] == t[up + 1..][k - up - 1] == s[up + 1..][k - up - 1];
    }
  }

  // ---------------------------------------------------------------------------------------------
  // Partition

  /** lo..pp - 1 is at most the pivot at pp, and pp + 1..up is at least the pivot. */
  ghost predicate Split(s: seq<Value>, less: Less, lo: int, pp: int, up: int)
    requires 0 <= lo <= pp <= up < |s|
  {
    (&& (forall k :: lo <= k < pp ==> !less(s[pp], s[k]))
     && (forall k :: pp < k <= up ==> !less(s[k], s[pp]))) == true
  }

  method Swap(a: array<Value>, i: nat, j: nat, ghost lo: nat, ghost up: nat)
    requires lo <= i <= up < a.Length && lo <= j <= up
    modifies a
    ensures a[..] == Swapped(old(a[..]), i, j) && Perm(old(a[..]), a[..], lo, up)
  {
    ghost var s := a[..];
    a[i], a[j] := a[j], a[i];
    assert a[..] == Swapped(s, i, j);
    PermSwap(s, i, j, lo, up);
  }

  /** The pivot goes between the two parts. */
  method PlacePivot(a: array<Value>, lo: nat, i: nat, up: nat, ghost less: Less, ghost j: nat)
    requires lo < i < up < a.Length && j < i
    modifies a
    ensures Perm(old(a[..]), a[..], lo, up)
    ensures old(AtMost(a[..], less, a[up - 1], lo, i - 1) && AtLeast(a[..], less, a[up - 1], j + 1, up)
                && !less(a[i], a[up - 1])) ==>
              Split(a[..], less, lo, i, up)
  {
    ghost var t := a[..];
    Swap(a, up - 1, i, lo, up);
    assert a[..] == Swapped(t, up - 1, i);
    if AtMost(t, less, t[up - 1], lo, i - 1) && AtLeast(t, less, t[up - 1], j + 1, up) && !less(t[i], t[up - 1]) {
      SplitSwap(t, less, t[up - 1], lo, i, j, up);
    }
  }

  /** The first index after i0 whose element is not less than the pivot P. */
  method ScanUp(a: array<Value>, i0: nat, up: nat, P: Value, lt: Comparator, calls0: nat, ghost less: Less)
    returns (st: Status, i: nat, calls: nat)
    requires i0 + 1 < up < a.Length && a[up - 1] == P
    ensures st.Fine? ==> i0 < i < up
    ensures Follows(lt, less) ==> st.Fine? && !less(a[i], P) && forall k :: i0 < k < i ==> !less(P, a[k])
  {
    i, calls := i0 + 1, calls0;
    var ans := lt(calls, a[i], P);
    calls := calls + 1;
    while ans == Yes
      invariant i0 < i < up && (Follows(lt, less) ==> ans == if less(a[i], P) then Yes else No)
      invariant Follows(lt, less) ==> forall k :: i0 < k < i ==> !less(P, a[k])
      decreases up - i, ans == Yes
    {
      if Follows(lt, less) { Asymmetric(less, a[i], P); }
      if i == up - 1 {
        return InvalidOrder, i, calls;
      }
      i := i + 1;
      ans := lt(calls, a[i], P);
      calls := calls + 1;
    }
    st := if ans == Raise then ComparatorRaised else Fine;
  }

  /** The last index before j0 whose element is not greater than the pivot P; i is where the scan
      from below stopped. */
  method ScanDown(a: array<Value>, lo: nat, i: nat, j0: nat, P: Value, lt: Comparator, calls0: nat, ghost less: Less)
    returns (st: Status, j: nat, calls: nat)
    requires lo < i && lo < j0 <= a.Length
    ensures st.Fine? ==> lo <= j < j0 && (i - 1 <= j || j == j0 - 1)
    ensures Follows(lt, less) && (forall k :: lo <= k < i && k < j0 ==> !less(P, a[k])) ==>
              st.Fine? && !less(P, a[j]) && forall k :: j < k < j0 ==> !less(a[k], P)
  {
    j, calls := j0 - 1, calls0;
    var ans := lt(calls, P, a[j]);
    calls := calls + 1;
    while ans == Yes
      invariant lo <= j < j0 && (i - 1 <= j || j == j0 - 1)
                && (Follows(lt, less) ==> ans == if less(P, a[j]) then Yes else No)
      invariant Follows(lt, less) ==> forall k :: j < k < j0 ==> !less(a[k], P)
      decreases j, ans == Yes
    {
      if Follows(lt, less) { Asymmetric(less, P, a[j]); }
      if j < i {
        return InvalidOrder, j, calls;
      }
      j := j - 1;
      ans := lt(calls, P, a[j]);
      calls := calls + 1;
    }
    st := if ans == Raise then ComparatorRaised else Fine;
  }

  /** The sentinels that the choice of the pivot leaves at both ends. */
  ghost predicate Guarded(s: seq<Value>, less: Less, lo: int, up: int)
    requires 0 <= lo < up < |s|
  {
    !less(s[up - 1], s[lo]) && !less(s[up], s[up - 1])
  }

  /** partition. The pivot is in a[up - 1]. */
  method Partition(a: array<Value>, lo: nat, up: nat, lt: Comparator, calls0: nat, ghost less: Less)
    returns (st: Status, pp: nat, calls: nat)
    requires lo + 3 <= up < a.Length
    modifies a
    ensures Perm(old(a[..]), a[..], lo, up)
    ensures st.Fine? ==> lo < pp < up
    ensures Follows(lt, less) && Guarded(old(a[..]), less, lo, up) ==> st.Fine? && Split(a[..], less, lo, pp, up)
  {
    ghost var s, good := a[..], Follows(lt, less) && Guarded(a[..], less, lo, up);
    var P, i, j := a[up - 1], lo, up - 1;
    calls, pp := calls0, lo;
    assert good ==> Laws(less, P, P, P);
    while true
      invariant lo <= i < up - 1 && i <= j < up && lo < j && a[up - 1] == P && Perm(s, a[..], lo, up)
      invariant good ==> AtMost(a[..], less, P, lo, i) && AtLeast(a[..], less, P, j, up)
      decreases j - i
    {
      ghost var i0, j0, t := i, j, a[..];
      st, i, calls := ScanUp(a, i, up, P, lt, calls, less);
      if !st.Fine? { return; }
      assert good ==> AtMost(t, less, P, lo, i - 1);
      st, j, calls := ScanDown(a, lo, i, j, P, lt, calls, less);
      if !st.Fine? { return; }
      assert good ==> AtLeast(t, less, P, j + 1, up);
      if j < i {
        PlacePivot(a, lo, i, up, less, j);
        PermTrans(s, t, a[..], lo, up);
        return Fine, i, calls;
      }
      Swap(a, i, j, lo, up);
      PermTrans(s, t, a[..], lo, up);
      if good { MoveSwap(t, less, P, lo, i, j, up); }
    }
  }

  ghost predicate AtMost(s: seq<Value>, less: Less, P: Value, lo: int, i: int) {
    forall k :: lo <= k <= i && 0 <= k < |s| ==> !less(P, s[k])
  }

  ghost predicate AtLeast(s: seq<Value>, less: Less, P: Value, j: int, up: int) {
    forall k :: j <= k <= up && 0 <= k < |s| ==> !less(s[k], P)
  }

  lemma SplitSwap(s: seq<Value>, less: Less, P: Value, lo: nat, i: nat, j: nat, up: nat)
    requires lo < i < up < |s| && j < i && s[up - 1] == P
    requires AtMost(s, less, P, lo, i - 1) && AtLeast(s, less, P, j + 1, up) && !less(s[i], P)
    ensures Split(Swapped(s, up - 1, i), less, lo, i, up)
  {
  }

  lemma MoveSwap(s: seq<Value>, less: Less, P: Value, lo: nat, i: nat, j: nat, up: nat)
    requires lo < i <= j < up - 1 && up < |s|
    requires AtMost(s, less, P, lo, i - 1) && AtLeast(s, less, P, j + 1, up) && !less(s[i], P) && !less(P, s[j])
    ensures AtMost(Swapped(s, i, j), less, P, lo, i) && AtLeast(Swapped(s, i, j), less, P, j, up)
  {
  }

  // ---------------------------------------------------------------------------------------------
  // The choice of the pivot

  method OrderEnds(a: array<Value>, lo: nat, up: nat, lt: Comparator, calls: nat, ghost less: Less) returns (st: Status)
    requires lo < up < a.Length
    modifies a
    ensures Perm(old(a[..]), a[..], lo, up)
    ensures Follows(lt, less) ==> st.Fine? && !less(a[up], a[lo])
  {
    var ans := lt(calls, a[up], a[lo]);
    if ans == Raise {
      return ComparatorRaised;
    }
    if ans == Yes {
      if Follows(lt, less) { Asymmetric(less, a[up], a[lo]); }
      Swap(a, lo, up, lo, up);
    }
    return Fine;
  }

  /** The middle element takes its place between the two ends. */
  method OrderMiddle(a: array<Value>, lo: nat, p: nat, up: nat, lt: Comparator, calls: nat, ghost less: Less)
    returns (st: Status, calls': nat)
    requires lo < p < up < a.Length
    modifies a
    ensures Perm(old(a[..]), a[..], lo, up)
    ensures Follows(lt, less) && old(!less(a[up], a[lo])) ==> st.Fine? && !less(a[p], a[lo]) && !less(a[up], a[p])
  {
    var ans := lt(calls, a[p], a[lo]);
    if ans == Raise {
      return ComparatorRaised, calls + 1;
    }
    if ans == Yes {
      if Follows(lt, less) { Asymmetric(less, a[p], a[lo]); }
      Swap(a, p, lo, lo, up);
      return Fine, calls + 1;
    }
    ans := lt(calls + 1, a[up], a[p]);
    if ans == Raise {
      return ComparatorRaised, calls + 2;
    }
    if ans == Yes {
      if Follows(lt, less) { Asymmetric(less, a[up], a[p]); }
      Swap(a, p, up, lo, up);
    }
    return Fine, calls + 2;
  }

  /** One round of the loop: a range of two or three elements is sorted, a longer one partitioned. */
  method Round(a: array<Value>, lo: nat, up: nat, lt: Comparator, calls0: nat, ghost less: Less)
    returns (st: Status, done: bool, pp: nat, calls: nat)
    requires lo < up < a.Length
    modifies a
    ensures Perm(old(a[..]), a[..], lo, up)
    ensures Follows(lt, less) ==> st.Fine?
    ensures st.Fine? && !done ==> lo + 3 <= up && lo < pp < up && (Follows(lt, less) ==> Split(a[..], less, lo, pp, up))
    ensures st.Fine? && done && Follows(lt, less) ==> Sorted(a[..], less, lo, up)
  {
    ghost var s := a[..];
    done, pp, calls := false, lo, calls0 + 1;
    st := OrderEnds(a, lo, up, lt, calls0, less);
    if !st.Fine? { return; }
    if up - lo == 1 {
      done := true;
      return;
    }
    ghost var s1 := a[..];
    var p := (lo + up) / 2;
    st, calls := OrderMiddle(a, lo, p, up, lt, calls, less);
    PermTrans(s, s1, a[..], lo, up);
    if !st.Fine? { return; }
    if Follows(lt, less) { assert Laws(less, a[up], a[p], a[lo]); }
    if up - lo == 2 {
      done := true;
      return;
    }
    ghost var s2 := a[..];
    st, pp, calls := MoveAndPartition(a, lo, p, up, lt, calls, less);
    PermTrans(s, s2, a[..], lo, up);
  }

  method MoveAndPartition(a: array<Value>, lo: nat, p: nat, up: nat, lt: Comparator, calls0: nat, ghost less: Less)
    returns (st: Status, pp: nat, calls: nat)
    requires lo < p < up - 1 && up < a.Length
    modifies a
    ensures Perm(old(a[..]), a[..], lo, up)
    ensures st.Fine? ==> lo < pp < up
    ensures Follows(lt, less) && old(!less(a[p], a[lo]) && !less(a[up], a[p])) ==>
              st.Fine? && Split(a[..], less, lo, pp, up)
  {
    ghost var s := a[..];
    Swap(a, p, up - 1, lo, up);
    ghost var s1 := a[..];
    st, pp, calls := Partition(a, lo, up, lt, calls0, less);
    PermTrans(s, s1, a[..], lo, up);
  }

  // ---------------------------------------------------------------------------------------------
  // The sort

  /** Every pair of lo..up is in order, unless both are in l..u. */
  ghost predicate InOrder(s: seq<Value>, less: Less, lo: int, up: int, l: int, u: int)
    requires 0 <= lo && up < |s|
  {
    (forall i, j :: lo <= i < j <= up && !(l <= i && j <= u) ==> !less(s[j], s[i])) == true
  }

  lemma PermInOrder(s: seq<Value>, t: seq<Value>, less: Less, lo: int, up: int, l: int, u: int)
    requires 0 <= lo <= l <= u + 1 <= up + 1 <= |s| && Perm(s, t, l, u) && InOrder(s, less, lo, up, l, u)
    ensures |t| == |s| && InOrder(t, less, lo, up, l, u)
  {
    forall i, j | lo <= i < j <= up && !(l <= i && j <= u) ensures !less(t[j], t[i]) {
      var i' := PermAt(s, t, l, u, i);
      var j' := PermAt(s, t, l, u, j);
    }
  }

  lemma PermSplit(s: seq<Value>, t: seq<Value>, less: Less, l: int, pp: int, u: int, l': int, u': int)
    requires 0 <= l <= pp <= u < |s| && Split(s, less, l, pp, u) && l <= l' <= u' + 1 <= u + 1 && Perm(s, t, l', u')
    requires u' < pp || pp < l'
    ensures |t| == |s| && Split(t, less, l, pp, u)
  {
    var q := PermAt(s, t, l', u', pp);
    forall k | l <= k <= u && k != pp ensures if k < pp then !less(t[pp], t[k]) else !less(t[k], t[pp]) {
      var k' := PermAt(s, t, l', u', k);
    }
  }

  /** One side of the pivot is sorted: what is left is the other side. */
  lemma SideSorted(s: seq<Value>, less: Less, lo: int, up: int, l: int, u: int, pp: int, left: bool)
    requires 0 <= lo <= l <= pp <= u <= up < |s| && StrictWeak(less)
    requires InOrder(s, less, lo, up, l, u) && Split(s, less, l, pp, u)
    requires if left then Sorted(s, less, l, pp - 1) else Sorted(s, less, pp + 1, u)
    ensures if left then InOrder(s, less, lo, up, pp + 1, u) else InOrder(s, less, lo, up, l, pp - 1)
  {
    var l', u' := if left then pp + 1 else l, if left then u else pp - 1;
    forall i, j | lo <= i < j <= up && !(l' <= i && j <= u') ensures !less(s[j], s[i]) {
      if l <= i < pp < j <= u {
        assert Laws(less, s[j], s[pp], s[i]);
      }
    }
  }

  function Pow2(n: nat): (r: nat)
    ensures r >= 1
  {
    if n == 0 then 1 else 2 * Pow2(n - 1)
  }

  /** What sorting promises: a permutation of lo..up, and its order if the comparator is one. */
  ghost predicate Result(s: seq<Value>, t: seq<Value>, lt: Comparator, less: Less, lo: nat, up: nat, st: Status)
    requires lo <= up < |s|
  {
    (Perm(s, t, lo, up) && (Follows(lt, less) ==> st.Fine? && |t| == |s| && Sorted(t, less, lo, up))) == true
  }

  /** auxsort; depth is how deep its recursion went. */
  method AuxSort(a: array<Value>, lo: nat, up: nat, lt: Comparator, calls0: nat, ghost less: Less)
    returns (st: Status, calls: nat, ghost depth: nat)
    requires lo <= up < a.Length
    modifies a
    ensures Result(old(a[..]), a[..], lt, less, lo, up, st)
    ensures Pow2(depth) <= up - lo + 1
    decreases up - lo, 1
  {
    ghost var s := a[..];
    var l, u := lo, up;
    st, calls, depth := Fine, calls0, 0;
    while l < u
      invariant lo <= l <= u + 1 <= up + 1 && l < a.Length && Perm(s, a[..], lo, up) && Pow2(depth) <= up - lo + 1
      invariant st.Fine? && (Follows(lt, less) ==> InOrder(a[..], less, lo, up, l, u))
      decreases u - l
    {
      ghost var s1 := a[..];
      var done, pp;
      st, done, pp, calls := Round(a, l, u, lt, calls, less);
      Rearranged(s, s1, a[..], less, lo, up, l, u);
      if !st.Fine? || done {
        return;
      }
      ghost var s2, d := a[..], 0;
      var l', u';
      st, calls, l', u', d := RecurseSmaller(a, l, pp, u, lt, calls, less);
      Recursed(s, s2, a[..], lt, less, lo, up, l, u, pp, l', u', st);
      l, u := l', u';
      depth := if d > depth then d else depth;
      if !st.Fine? { return; }
    }
  }

  /** Recursion into the smaller side of the pivot; l'..u' is the side that is left. */
  method RecurseSmaller(a: array<Value>, l: nat, pp: nat, u: nat, lt: Comparator, calls0: nat, ghost less: Less)
    returns (st: Status, calls: nat, l': nat, u': nat, ghost depth: nat)
    requires l < pp < u < a.Length
    modifies a
    ensures (l' == pp + 1 && u' == u) || (l' == l && u' == pp - 1)
    ensures if l' == l then Result(old(a[..]), a[..], lt, less, pp + 1, u, st)
            else Result(old(a[..]), a[..], lt, less, l, pp - 1, st)
    ensures Pow2(depth) <= u - l + 1
    decreases u - l, 0
  {
    ghost var d;
    if pp - l < u - pp {
      l', u' := pp + 1, u;
      st, calls, d := AuxSort(a, l, pp - 1, lt, calls0, less);
      assert Pow2(d + 1) == 2 * Pow2(d);
    } else {
      l', u' := l, pp - 1;
      st, calls, d := AuxSort(a, pp + 1, u, lt, calls0, less);
      assert Pow2(d + 1) == 2 * Pow2(d);
    }
    depth := d + 1;
  }

  lemma Rearranged(s: seq<Value>, s1: seq<Value>, t: seq<Value>, less: Less, lo: int, up: int, l: int, u: int)
    requires 0 <= lo <= l <= u + 1 <= up + 1 <= |s| && Perm(s, s1, lo, up) && |s1| == |s| && Perm(s1, t, l, u)
    ensures |t| == |s| && Perm(s, t, lo, up)
    ensures InOrder(s1, less, lo, up, l, u) ==> InOrder(t, less, lo, up, l, u)
    ensures InOrder(t, less, lo, up, l, u) && Sorted(t, less, l, u) ==> Sorted(t, less, lo, up)
  {
    PermWiden(s1, t, l, u, lo, up);
    PermTrans(s, s1, t, lo, up);
    if InOrder(s1, less, lo, up, l, u) { PermInOrder(s1, t, less, lo, up, l, u); }
  }

  lemma Recursed(s: seq<Value>, s2: seq<Value>, t: seq<Value>, lt: Comparator, less: Less, lo: nat, up: nat, l: nat,
                 u: nat, pp: nat, l': nat, u': int, st: Status)
    requires lo <= l < pp < u <= up < |s| && Perm(s, s2, lo, up) && |s2| == |s|
    requires (l' == pp + 1 && u' == u) || (l' == l && u' == pp - 1)
    requires if l' == l then Result(s2, t, lt, less, pp + 1, u, st) else Result(s2, t, lt, less, l, pp - 1, st)
    ensures |t| == |s| && Perm(s, t, lo, up)
    ensures Follows(lt, less) && InOrder(s2, less, lo, up, l, u) && Split(s2, less, l, pp, u) ==>
              st.Fine? && InOrder(t, less, lo, up, l', u')
  {
    var x, y := if l' == l then pp + 1 else l, if l' == l then u else pp - 1;
    PermWiden(s2, t, x, y, lo, up);
    PermTrans(s, s2, t, lo, up);
    if Follows(lt, less) && InOrder(s2, less, lo, up, l, u) && Split(s2, less, l, pp, u) {
      PermWiden(s2, t, x, y, l, u);
      PermInOrder(s2, t, less, lo, up, l, u);
      PermSplit(s2, t, less, l, pp, u, x, y);
      SideSorted(t, less, lo, up, l, u, pp, l' != l);
    }
  }
}
