/**
 The numeric for loop over integers: the iteration count is computed in advance, in 64-bit
 arithmetic, so that the loop neither wraps around nor misses its end.
 */
module ForLoop {
  import opened Options
  import opened Machine
  import opened Words

  // ---------------------------------------------------------------------------------------------
  // The limit

  function Ceil(r: real): int {
    if r == r.Floor as real then r.Floor else r.Floor + 1
  }

  /** tointegerForLimit: floor or ceiling of a float, where that is a 64-bit integer. */
  function LimitInt(lim: Value, ceil: bool): Option<int> {
    match lim
    case Int(p) => Some(p)
    case Flt(Finite(r)) => (var i := if ceil then Ceil(r) else r.Floor; if Int64(i) then Some(i) else None)
    case _ => None
  }

  predicate Positive(f: Float) {
    match f
    case Finite(r) => r > 0.0
    case PosInf => true
    case NegInf => false
    case NaN => false
  }

  /** forlimit: the limit as an integer, and whether the loop does not run at all. */
  function ForLimit(init: int, lim: Value, step: int): (int, bool)
    requires IsNumber(lim)
  {
    var p := LimitInt(lim, step < 0);
    if p.Some? then (p.value, if step > 0 then init > p.value else init < p.value)
    else if Positive(AsFloat(lim)) then
      if step < 0 then (0, true) else (MAX_INT, init > MAX_INT)
    else
      if step > 0 then (0, true) else (MIN_INT, init < MIN_INT)
  }

  /** x has not passed the limit: section 3.3.5 of the Lua 5.4 Reference Manual. */
  predicate Within(x: int, lim: Value, step: int)
    requires IsNumber(lim)
  {
    match lim
    case Int(p) => if step > 0 then x <= p else x >= p
    case Flt(Finite(r)) => if step > 0 then x as real <= r else x as real >= r
    case Flt(PosInf) => step > 0
    case Flt(NegInf) => step < 0
    case Flt(NaN) => false
  }

  /** The integer limit says the same as the limit itself, for 64-bit values; but NaN counts as a
      limit below everything. */
  lemma LimitExact(init: int, lim: Value, step: int, x: int)
    requires IsNumber(lim) && step != 0 && Int64(init) && Int64(x) && (lim.Int? ==> Int64(lim.i))
    requires if step > 0 then init <= x else x <= init
    ensures var (p, skip) := ForLimit(init, lim, step);
            (!skip ==> Int64(p)) &&
            ((!skip && if step > 0 then x <= p else x >= p) <==>
             Within(x, lim, step) || (lim == Flt(NaN) && step < 0))
  {
    if lim.Flt? && lim.f.Finite? {
      FloorCeil(lim.f.r, x);
    }
  }

  lemma FloorCeil(r: real, x: int)
    ensures x as real <= r <==> x <= r.Floor
    ensures x as real >= r <==> x >= Ceil(r)
  {
  }

  // ---------------------------------------------------------------------------------------------
  // The count

  lemma Quotient(a: int, s: int, k: int)
    requires a >= 0 && s > 0 && k >= 0
    ensures k <= a / s <==> k * s <= a
  {
    var q, r := a / s, a % s;
    assert a == s * q + r;
    if k <= q { Multiples(s, k, q); } else { Multiples(s, q + 1, k); }
  }

  lemma Multiples(s: int, m: int, n: int)
    requires s > 0 && m <= n
    ensures s * m <= s * n
  {
  }

  /** The number of steps after the first iteration, as forprep computes it. */
  function Count(init: int, limit: int, step: int): int
    requires Int64(step) && step != 0
  {
    if step > 0 then
      var c := Unsigned(Unsigned(limit) - Unsigned(init));
      if step != 1 then c / Unsigned(step) else c
    else
      Unsigned(Unsigned(init) - Unsigned(limit)) / Unsigned(Unsigned(-(step + 1)) + 1)
  }

  lemma UnsignedDiff(x: int, y: int)
    requires 0 <= x - y < TWO64
    ensures Unsigned(Unsigned(x) - Unsigned(y)) == x - y
  {
    var q, q' := x / TWO64, y / TWO64;
    assert Unsigned(x) - Unsigned(y) == (x - y) + (q' - q) * TWO64;
    assert ((x - y) + (q' - q) * TWO64) % TWO64 == (x - y) % TWO64;
  }

  /** No conversion loses anything, whatever the step: the distance divided by the step. */
  lemma CountValue(init: int, limit: int, step: int)
    requires Int64(init) && Int64(limit) && Int64(step) && step != 0
    requires if step > 0 then init <= limit else init >= limit
    ensures Count(init, limit, step) == if step > 0 then (limit - init) / step else (init - limit) / -step
  {
    if step > 0 { UnsignedDiff(limit, init); } else { UnsignedDiff(init, limit); }
  }

  /** k more steps stay within the limit exactly when k does not exceed the count. */
  lemma CountExact(init: int, limit: int, step: int, k: nat)
    requires Int64(init) && Int64(limit) && Int64(step) && step != 0
    requires if step > 0 then init <= limit else init >= limit
    ensures 0 <= Count(init, limit, step) < TWO64
    ensures k <= Count(init, limit, step) <==> if step > 0 then init + k * step <= limit else init + k * step >= limit
  {
    CountValue(init, limit, step);
    if step > 0 {
      QuotientBound(limit - init, step);
      Quotient(limit - init, step, k);
    } else {
      QuotientBound(init - limit, -step);
      Quotient(init - limit, -step, k);
      Negate(k, step);
    }
  }

  lemma Negate(k: int, s: int)
    ensures k * -s == -(k * s)
  {
  }

  lemma QuotientBound(a: int, s: int)
    requires 0 <= a < TWO64 && s > 0
    ensures 0 <= a / s < TWO64
  {
    Quotient(a, s, 0);
    Quotient(a, s, TWO64);
    assert TWO64 <= TWO64 * s;
  }

  // ---------------------------------------------------------------------------------------------
  // The loop

  datatype Result = Ran(values: seq<int>) | StepIsZero | BadLimit

  /** The values the loop runs for are init, init + step, ..., as long as they are 64-bit integers
      within the limit. */
  ghost predicate Exact(init: int, lim: Value, step: int, values: seq<int>, nan: bool)
    requires IsNumber(lim)
  {
    && (forall k :: 0 <= k < |values| ==> values[k] == init + k * step && Int64(values[k]))
    && (forall k: nat :: k < |values| <==> Runs(init, lim, step, k, nan))
  }

  ghost predicate Runs(init: int, lim: Value, step: int, k: nat, nan: bool)
    requires IsNumber(lim)
  {
    Int64(init + k * step) && (Within(init + k * step, lim, step) || nan)
  }

  /** str2num: the number that a string is, or nil. */
  type Numeral = string -> Value

  predicate NumeralOk(numeral: Numeral, lim: Value) {
    lim.Str? ==> var n := numeral(lim.s); (n == Nil || IsNumber(n)) && (n.Int? ==> Int64(n.i))
  }

  /** A limit that is a string counts as the number that it is. */
  function Converted(lim: Value, numeral: Numeral): Value {
    if lim.Str? then numeral(lim.s) else lim
  }

  /** OP_FORPREP, then the body and OP_FORLOOP until the count runs out. */
  method IntegerFor(init: int, lim0: Value, step: int, numeral: Numeral) returns (r: Result)
    requires Int64(init) && Int64(step) && (lim0.Int? ==> Int64(lim0.i)) && NumeralOk(numeral, lim0)
    ensures var lim := Converted(lim0, numeral);
            && (r.StepIsZero? <==> step == 0)
            && (r.BadLimit? <==> step != 0 && !IsNumber(lim))
            && (r.Ran? ==> IsNumber(lim) && Exact(init, lim, step, r.values, lim == Flt(NaN) && step < 0))
  {
    if step == 0 {
      return StepIsZero;
    }
    var lim := Converted(lim0, numeral);
    if !IsNumber(lim) {
      return BadLimit;
    }
    ghost var nan := lim == Flt(NaN) && step < 0;
    var (limit, skip) := ForLimit(init, lim, step);
    LimitExact(init, lim, step, init);
    if skip {
      assert Exact(init, lim, step, [], nan) by { SkipExact(init, lim, step, nan); }
      return Ran([]);
    }
    var counter := Signed(Count(init, limit, step));
    CountExact(init, limit, step, 0);
    UnsignedSigned(Count(init, limit, step));
    var values := Iterate(init, step, counter, limit);
    forall k: nat ensures k < |values| <==> Runs(init, lim, step, k, nan) {
      CountExact(init, limit, step, k);
      RunsExact(init, lim, step, limit, k, nan);
    }
    return Ran(values);
  }

  /** The body and OP_FORLOOP, until the count runs out. */
  method Iterate(init: int, step: int, counter0: int, ghost limit: int) returns (values: seq<int>)
    requires Int64(init) && Int64(step) && step != 0 && Int64(limit)
             && (if step > 0 then init <= limit else init >= limit)
    requires Unsigned(counter0) == Count(init, limit, step)
    ensures |values| == Count(init, limit, step) + 1
    ensures forall k :: 0 <= k < |values| ==> values[k] == init + k * step && Int64(values[k])
  {
    var counter, idx := counter0, init;
    values := [init];
    while Unsigned(counter) > 0
      invariant |values| >= 1 && Unsigned(counter) == Count(init, limit, step) - (|values| - 1)
      invariant idx == init + (|values| - 1) * step
      invariant forall k :: 0 <= k < |values| ==> values[k] == init + k * step && Int64(values[k])
      decreases Unsigned(counter)
    {
      var count := Unsigned(counter);
      UnsignedSigned(count - 1);
      counter := Signed(count - 1);
      CountExact(init, limit, step, |values|);
      Onward(init, step, |values|);
      idx := Signed(idx + step);
      values := values + [idx];
    }
  }

  lemma Onward(init: int, step: int, n: nat)
    requires n > 0
    ensures init + n * step == init + (n - 1) * step + step
  {
  }

  lemma StepsAway(init: int, step: int, k: nat)
    requires step != 0
    ensures if step > 0 then init <= init + k * step else init + k * step <= init
  {
  }

  lemma SkipExact(init: int, lim: Value, step: int, nan: bool)
    requires Int64(init) && Int64(step) && step != 0 && (lim.Int? ==> Int64(lim.i)) && IsNumber(lim)
    requires nan == (lim == Flt(NaN) && step < 0) && ForLimit(init, lim, step).1
    ensures Exact(init, lim, step, [], nan)
  {
    forall k: nat ensures !Runs(init, lim, step, k, nan) {
      StepsAway(init, step, k);
      if Int64(init + k * step) { LimitExact(init, lim, step, init + k * step); }
    }
  }

  lemma RunsExact(init: int, lim: Value, step: int, limit: int, k: nat, nan: bool)
    requires Int64(init) && Int64(step) && step != 0 && (lim.Int? ==> Int64(lim.i)) && IsNumber(lim)
    requires nan == (lim == Flt(NaN) && step < 0) && ForLimit(init, lim, step) == (limit, false) && Int64(limit)
    ensures Runs(init, lim, step, k, nan) <==> if step > 0 then init + k * step <= limit else init + k * step >= limit
  {
    StepsAway(init, step, k);
    if Int64(init + k * step) { LimitExact(init, lim, step, init + k * step); }
  }

  /** So the loop is the language's exactly when the limit is not NaN with a negative step. */
  lemma NaNLimit(init: int, step: int, values: seq<int>)
    requires Int64(init) && step < 0 && Exact(init, Flt(NaN), step, values, true)
    ensures values != [] && !Exact(init, Flt(NaN), step, values, false)
  {
    assert Runs(init, Flt(NaN), step, 0, true);
    assert !Runs(init, Flt(NaN), step, 0, false);
  }
}
