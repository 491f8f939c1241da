/**
 string.find and string.gsub over the matcher: single attempts, and the scan that replaces
 disjoint matches from left to right.
 */
module Gsub {
  import opened Options
  import opened ByteStrings
  import opened Pattern
  import opened Matcher

  // ---------------------------------------------------------------------------------------------
  // One attempt

  /** A fresh attempt at s with the pattern from p on: the answer, a match, a panic or a malformed
      item, is derivable and comes first, or there is neither. It is given up only below the depth
      limit, raises nothing for a sound pattern, and does not panic where the pattern refers to no
      position capture. */
  method Attempt(ms: MatchState, s: nat, p: nat) returns (o: Outcome)
    requires ms.Valid() && s <= |ms.src| && p <= |ms.pat|
    modifies ms, ms.capture
    ensures ms.Valid()
    ensures o.End? ==> s <= o.e <= |ms.src| && Matches(ms.src, ms.pat, Point(p, s, []), Hit(o.e, ms.Caps()))
    ensures o.End? ==> FirstHit(ms.src, ms.pat, p, s, o.e, ms.Caps())
    ensures o.Fail? ==> ms.level == 0 && forall h :: !Matches(ms.src, ms.pat, Point(p, s, []), h)
    ensures o.Crashed? ==> Matches(ms.src, ms.pat, Point(p, s, []), Panic)
    ensures o.Raised? ==> Matches(ms.src, ms.pat, Point(p, s, []), Malformed)
    ensures !o.TooComplex? ==> (o.Crashed? <==> FirstPanics(ms.src, ms.pat, p, s))
    ensures !o.TooComplex? ==> (o.Raised? <==> FirstBreaks(ms.src, ms.pat, p, s))
    ensures !o.TooComplex? ==> FirstEnd(ms.src, ms.pat, p, s) == if o.End? then Some(o.e) else None
    ensures PositionFree(ms.pat, p, []) ==> !o.Crashed?
    ensures Sound(ms.pat, p, []) ==> !o.Raised?
    ensures Short(ms.pat, p) ==> !o.TooComplex?
  {
    ms.level := 0;
    ms.depth := MAX_DEPTH;
    assert ms.Caps() == [];
    o := ms.Match(s, p, []);
    ghost var c := Point(p, s, []);
    assert Told(ms.hits, ms.src, ms.pat, c);
    if o.End? {
      HitsAreMatches(ms.src, ms.pat, c, Hit(o.e, ms.Caps()));
      MatchesForward(ms.src, ms.pat, c, Hit(o.e, ms.Caps()));
    } else if o.Fail? {
      forall h ensures !Matches(ms.src, ms.pat, c, h) {
        HitsAreMatches(ms.src, ms.pat, c, h);
      }
    } else if o.Crashed? {
      HitsAreMatches(ms.src, ms.pat, c, Panic);
      if PositionFree(ms.pat, p, []) { FreeOfPanic(ms.src, ms.pat, c); }
    } else if o.Raised? {
      HitsAreMatches(ms.src, ms.pat, c, Malformed);
      assert Shape([]) == [];
      if Sound(ms.pat, p, []) { SoundNeverBreaks(ms.src, ms.pat, c); }
    }
  }

  /** The depth limit is enough for the pattern. */
  predicate Short(pat: Bytes, p: nat) {
    Enough(pat, p, MAX_DEPTH)
  }

  /** The first match of all, in the order of backtracking. */
  ghost predicate FirstHit(src: Bytes, pat: Bytes, p: nat, s: nat, e: nat, caps: Captures)
    requires p <= |pat| && s <= |src|
  {
    var h := Hits(src, pat, Point(p, s, []));
    h != [] && h[0] == Hit(e, caps)
  }

  /** The end of the first match, if there is one and no panic comes before it. */
  function FirstEnd(src: Bytes, pat: Bytes, p: nat, s: nat): Option<nat>
    requires p <= |pat| && s <= |src|
  {
    var h := Hits(src, pat, Point(p, s, []));
    if h == [] || !h[0].Hit? then None else Some(h[0].end)
  }

  /** Backtracking comes to a panic before it comes to a match. */
  predicate FirstPanics(src: Bytes, pat: Bytes, p: nat, s: nat)
    requires p <= |pat| && s <= |src|
  {
    var h := Hits(src, pat, Point(p, s, []));
    h != [] && h[0] == Panic
  }

  /** It comes to a malformed item before it comes to a match. */
  predicate FirstBreaks(src: Bytes, pat: Bytes, p: nat, s: nat)
    requires p <= |pat| && s <= |src|
  {
    var h := Hits(src, pat, Point(p, s, []));
    h != [] && h[0] == Malformed
  }

  // ---------------------------------------------------------------------------------------------
  // References to position captures

  /** Which captures are positions. */
  function Positions(caps: Captures): (ps: seq<bool>)
    ensures |ps| == |caps|
  {
    seq(|caps|, i requires 0 <= i < |caps| => caps[i].len == POSITION)
  }

  /** The text of the pattern from p on, after captures of which these are positions, refers to none
      that is a position. (What follows a malformed item is never reached.) */
  predicate PositionFree(pat: Bytes, p: nat, ps: seq<bool>)
    requires p <= |pat|
    decreases |pat| - p
  {
    if p == |pat| then true
    else if pat[p] == OPEN then
      if p + 1 < |pat| && pat[p + 1] == CLOSE then PositionFree(pat, p + 2, ps + [true])
      else PositionFree(pat, p + 1, ps + [false])
    else if pat[p] == CLOSE then PositionFree(pat, p + 1, ps)
    else if AtDollar(pat, p) then true
    else if Escape(pat, p, LETTER_B) then p + 3 >= |pat| || PositionFree(pat, p + 4, ps)
    else if Escape(pat, p, LETTER_F) then
      p + 2 >= |pat| || pat[p + 2] != LBRACKET || ClassEnd(pat, p + 2).None?
        || PositionFree(pat, ClassEnd(pat, p + 2).value, ps)
    else if BackReference(pat, p) then
      !(0 <= RefIndex(pat, p) < |ps| && ps[RefIndex(pat, p)]) && PositionFree(pat, p + 2, ps)
    else
      ClassEnd(pat, p).None? ||
      var ep := ClassEnd(pat, p).value;
      PositionFree(pat, if Suffix(pat, ep) == 0 then ep else ep + 1, ps)
  }

  lemma {:induction false} ClosedPositions(caps: Captures, s: nat)
    requires Before(caps, s) && LastOpen(caps) >= 0
    ensures Positions(Closed(caps, s)) == Positions(caps) && Before(Closed(caps, s), s)
  {
  }

  /** Where such a pattern goes on, it is such a pattern. */
  lemma {:induction false} FreeMove(src: Bytes, pat: Bytes, c: Point, d: Point)
    requires Inside(src, pat, c) && c.p < |pat| && Before(c.caps, c.s) && Reaches(Moves(src, pat, c), d)
    requires PositionFree(pat, c.p, Positions(c.caps))
    ensures Inside(src, pat, d) && c.p < d.p && PositionFree(pat, d.p, Positions(d.caps))
  {
    if pat[c.p] == OPEN {
      FreeOpen(src, pat, c, d);
    } else if pat[c.p] == CLOSE {
      ClosedPositions(c.caps, c.s);
    } else if Plain(pat, c.p) {
      FreeItem(src, pat, c, d);
    } else {
      FreeOn(src, pat, c, d);
    }
  }

  lemma {:induction false} FreeOpen(src: Bytes, pat: Bytes, c: Point, d: Point)
    requires Inside(src, pat, c) && c.p < |pat| && pat[c.p] == OPEN && Reaches(Moves(src, pat, c), d)
    requires PositionFree(pat, c.p, Positions(c.caps))
    ensures Inside(src, pat, d) && c.p < d.p && PositionFree(pat, d.p, Positions(d.caps))
  {
    assert Positions(c.caps + [Capture(c.s, POSITION)]) == Positions(c.caps) + [true];
    assert Positions(c.caps + [Capture(c.s, UNFINISHED)]) == Positions(c.caps) + [false];
  }

  lemma {:induction false} FreeItem(src: Bytes, pat: Bytes, c: Point, d: Point)
    requires Inside(src, pat, c) && c.p < |pat| && Plain(pat, c.p) && Reaches(Moves(src, pat, c), d)
    requires PositionFree(pat, c.p, Positions(c.caps))
    ensures Inside(src, pat, d) && c.p < d.p && d.caps == c.caps && PositionFree(pat, d.p, Positions(c.caps))
  {
  }

  lemma {:induction false} FreeOn(src: Bytes, pat: Bytes, c: Point, d: Point)
    requires Inside(src, pat, c) && c.p < |pat| && pat[c.p] != OPEN && pat[c.p] != CLOSE && !Plain(pat, c.p)
    requires Reaches(Moves(src, pat, c), d) && PositionFree(pat, c.p, Positions(c.caps))
    ensures Inside(src, pat, d) && c.p < d.p && d.caps == c.caps && PositionFree(pat, d.p, Positions(c.caps))
  {
  }

  /** A pattern without an empty pair of parentheses is such a pattern. */
  lemma {:induction false} NoPositionCaptures(pat: Bytes, p: nat, ps: seq<bool>)
    requires p <= |pat| && forall i :: 0 <= i < |pat| - 1 ==> !(pat[i] == OPEN && pat[i + 1] == CLOSE)
    requires forall i :: 0 <= i < |ps| ==> !ps[i]
    ensures PositionFree(pat, p, ps)
    decreases |pat| - p
  {
    if p == |pat| || AtDollar(pat, p) {
    } else if pat[p] == OPEN {
      NoPositionCaptures(pat, p + 1, ps + [false]);
    } else if pat[p] == CLOSE {
      NoPositionCaptures(pat, p + 1, ps);
    } else if Escape(pat, p, LETTER_B) {
      if p + 3 < |pat| { NoPositionCaptures(pat, p + 4, ps); }
    } else if Escape(pat, p, LETTER_F) {
      if p + 2 < |pat| && ClassEnd(pat, p + 2).Some? { NoPositionCaptures(pat, ClassEnd(pat, p + 2).value, ps); }
    } else if BackReference(pat, p) {
      NoPositionCaptures(pat, p + 2, ps);
    } else if ClassEnd(pat, p).Some? {
      var ep := ClassEnd(pat, p).value;
      NoPositionCaptures(pat, if Suffix(pat, ep) == 0 then ep else ep + 1, ps);
    }
  }

  /** Matching such a pattern never panics. */
  lemma {:induction false} FreeOfPanic(src: Bytes, pat: Bytes, c: Point)
    requires Inside(src, pat, c) && Before(c.caps, c.s) && PositionFree(pat, c.p, Positions(c.caps))
    ensures Panic !in Hits(src, pat, c)
    decreases |pat| - c.p
  {
    if c.p < |pat| && Panic in Hits(src, pat, c) {
      var sp := Moves(src, pat, c);
      AlternativesHas(src, pat, sp.p, sp.lo, sp.hi, sp.lazy, sp.caps, Panic);
      var s :| sp.lo <= s <= sp.hi && HitAt(src, pat, sp.p, s, sp.caps, Panic);
      var d := Point(sp.p, s, sp.caps);
      FreeMove(src, pat, c, d);
      SoundMove(src, pat, c, d);
      FreeOfPanic(src, pat, d);
    }
  }

  /** The pattern `()%1` panics wherever it is tried. */
  lemma {:induction false} PositionReference(src: Bytes, s: nat)
    requires s <= |src|
    ensures var pat := [OPEN, CLOSE, PERCENT, 49];
            Sound(pat, 0, []) && Hits(src, pat, Point(0, s, [])) == [Panic]
  {
    var pat := [OPEN, CLOSE, PERCENT, 49];
    var caps := [Capture(s, POSITION)];
    assert [] + [Capture(s, POSITION)] == caps && [] + [Located] == [Located];
    assert Moves(src, pat, Point(0, s, [])) == Only(2, s, caps);
    assert Hits(src, pat, Point(2, s, caps)) == [Panic];
    assert BackReference(pat, 2) && Sound(pat, 4, [Located]);
  }

  method CrashExample(src: Bytes, s: nat) returns (o: Outcome)
    requires s <= |src|
    ensures o == Crashed
  {
    var ms := new MatchState(src, [OPEN, CLOSE, PERCENT, 49]);
    PositionReference(src, s);
    o := Attempt(ms, s, 0);
  }

  // ---------------------------------------------------------------------------------------------
  // The scan

  /** Where the first match at a position ends. */
  type Ends = nat -> Option<nat>

  ghost predicate Forward(at: Ends, len: nat) {
    forall s: nat :: s <= len && at(s).Some? ==> s <= at(s).value <= len
  }

  /** The matches that gsub replaces: at most n, from pos on, none of them empty where the last one
      ended. */
  ghost function Scan(at: Ends, len: nat, pos: nat, last: int, n: nat, anchor: bool): seq<(nat, nat)>
    requires Forward(at, len) && last <= pos <= len
    decreases len - pos, if last == pos then 0 else 1
  {
    if n == 0 then []
    else if at(pos).Some? && at(pos).value != last then
      [(pos, at(pos).value)] + if anchor then [] else Scan(at, len, at(pos).value, at(pos).value, n - 1, anchor)
    else if pos < len && !anchor then Scan(at, len, pos + 1, last, n, anchor)
    else []
  }

  /** Disjoint and from left to right: each match starts at or after the end of the ones before it
      and ends after them. */
  predicate Ordered(ms: seq<(nat, nat)>, from: int, last: int, len: nat) {
    (&& (forall i :: 0 <= i < |ms| ==> from <= ms[i].0 <= ms[i].1 <= len && last < ms[i].1)
     && (forall i, j :: 0 <= i < j < |ms| ==> ms[i].1 <= ms[j].0 && ms[i].1 < ms[j].1)) == true
  }

  lemma OrderedCons(m: (nat, nat), rest: seq<(nat, nat)>, last: int, len: nat)
    requires Ordered(rest, m.1, m.1, len) && m.0 <= m.1 <= len && last < m.1
    ensures Ordered([m] + rest, m.0, last, len)
  {
  }

  /** The scan ends, with at most n disjoint matches. */
  lemma {:induction false} ScanOrdered(at: Ends, len: nat, pos: nat, last: int, n: nat, anchor: bool)
    requires Forward(at, len) && last <= pos <= len
    ensures Ordered(Scan(at, len, pos, last, n, anchor), pos, last, len)
    ensures |Scan(at, len, pos, last, n, anchor)| <= n
    decreases len - pos, if last == pos then 0 else 1
  {
    if n == 0 {
    } else if at(pos).Some? && at(pos).value != last {
      var e := at(pos).value;
      if !anchor { ScanOrdered(at, len, e, e, n - 1, anchor); }
      OrderedCons((pos, e), if anchor then [] else Scan(at, len, e, e, n - 1, anchor), last, len);
    } else if pos < len && !anchor {
      ScanOrdered(at, len, pos + 1, last, n, anchor);
      OrderedFrom(Scan(at, len, pos + 1, last, n, anchor), pos, pos + 1, last, len);
    }
  }

  lemma OrderedFrom(ms: seq<(nat, nat)>, from: int, from': int, last: int, len: nat)
    requires Ordered(ms, from', last, len) && from <= from'
    ensures Ordered(ms, from, last, len)
  {
  }

  /** Every match of the scan is the first match at its start. */
  lemma {:induction false} ScanFirst(at: Ends, len: nat, pos: nat, last: int, n: nat, anchor: bool, m: (nat, nat))
    requires Forward(at, len) && last <= pos <= len && m in Scan(at, len, pos, last, n, anchor)
    ensures m.0 <= len && at(m.0) == Some(m.1)
    decreases len - pos, if last == pos then 0 else 1
  {
    if at(pos).Some? && at(pos).value != last {
      if m != (pos, at(pos).value) { ScanFirst(at, len, at(pos).value, at(pos).value, n - 1, anchor, m); }
    } else {
      ScanFirst(at, len, pos + 1, last, n, anchor, m);
    }
  }

  /** No match begins at s that is not empty at prev, where the last one ended. */
  predicate PassedAt(at: Ends, s: nat, prev: int) {
    at(s).None? || at(s).value == prev
  }

  /** Where the scan is after the first i matches, which started at pos. */
  function GapStart(ms: seq<(nat, nat)>, pos: nat, i: nat): nat
    requires i <= |ms|
  {
    if i == 0 then pos else ms[i - 1].1
  }

  function GapLast(ms: seq<(nat, nat)>, last: int, i: nat): int
    requires i <= |ms|
  {
    if i == 0 then last else ms[i - 1].1
  }

  /** The places from a on and before b have no match to replace. */
  ghost predicate PassedBetween(at: Ends, a: nat, b: nat, prev: int) {
    forall s: nat :: a <= s < b ==> PassedAt(at, s, prev)
  }

  ghost predicate GapPassed(at: Ends, ms: seq<(nat, nat)>, pos: nat, last: int, i: nat)
    requires i < |ms|
  {
    PassedBetween(at, GapStart(ms, pos, i), ms[i].0, GapLast(ms, last, i))
  }

  /** What the scan passes over has no match to replace: before each of its matches, and after the last
      one if it found fewer than it may; with an anchor it looks only where it starts. */
  ghost predicate NoneMissed(at: Ends, len: nat, pos: nat, last: int, n: nat, anchor: bool, ms: seq<(nat, nat)>) {
    var k := |ms|;
    && (forall i :: 0 <= i < k ==> GapPassed(at, ms, pos, last, i))
    && (!anchor && k < n ==> PassedBetween(at, GapStart(ms, pos, k), len + 1, GapLast(ms, last, k)))
    && (anchor ==> k <= 1 && (k == 1 ==> ms[0].0 == pos) && (k == 0 && n > 0 ==> PassedAt(at, pos, last)))
  }

  lemma {:induction false} ScanMissesNone(at: Ends, len: nat, pos: nat, last: int, n: nat, anchor: bool)
    requires Forward(at, len) && last <= pos <= len
    ensures NoneMissed(at, len, pos, last, n, anchor, Scan(at, len, pos, last, n, anchor))
    decreases len - pos, if last == pos then 0 else 1
  {
    var ms := Scan(at, len, pos, last, n, anchor);
    if n == 0 {
    } else if at(pos).Some? && at(pos).value != last {
      var e := at(pos).value;
      if !anchor {
        var rest := Scan(at, len, e, e, n - 1, anchor);
        ScanMissesNone(at, len, e, e, n - 1, anchor);
        forall i | 0 <= i < |ms| ensures GapPassed(at, ms, pos, last, i) {
          if i > 0 { assert GapPassed(at, rest, e, e, i - 1); }
        }
      }
    } else if pos < len && !anchor {
      ScanMissesNone(at, len, pos + 1, last, n, anchor);
      forall i | 0 <= i < |ms| ensures GapPassed(at, ms, pos, last, i) {
        assert GapPassed(at, ms, pos + 1, last, i);
      }
    }
  }

  // ---------------------------------------------------------------------------------------------
  // The output

  function LastEnd(ms: seq<(nat, nat)>): nat {
    if ms == [] then 0 else ms[|ms| - 1].1
  }

  /** The subject up to the end of the last match, each match replaced by its text. */
  function Build(src: Bytes, ms: seq<(nat, nat)>, texts: seq<Bytes>): Bytes
    requires Ordered(ms, 0, -1, |src|) && |texts| == |ms|
  {
    if ms == [] then []
    else
      var n := |ms| - 1;
      Build(src, ms[..n], texts[..n]) + src[LastEnd(ms[..n])..ms[n].0] + texts[n]
  }

  /** The whole subject, each match replaced by its text. */
  function Replaced(src: Bytes, ms: seq<(nat, nat)>, texts: seq<Bytes>): Bytes
    requires Ordered(ms, 0, -1, |src|) && |texts| == |ms|
  {
    Build(src, ms, texts) + src[LastEnd(ms)..]
  }

  predicate Identity(src: Bytes, ms: seq<(nat, nat)>, texts: seq<Bytes>)
    requires Ordered(ms, 0, -1, |src|) && |texts| == |ms|
  {
    forall i :: 0 <= i < |ms| ==> texts[i] == src[ms[i].0..ms[i].1]
  }

  /** Replacing every match by itself changes nothing. */
  lemma {:induction false} IdentityBuild(src: Bytes, ms: seq<(nat, nat)>, texts: seq<Bytes>)
    requires Ordered(ms, 0, -1, |src|) && |texts| == |ms| && Identity(src, ms, texts)
    ensures Build(src, ms, texts) == src[..LastEnd(ms)]
    decreases |ms|
  {
    if ms != [] {
      var n := |ms| - 1;
      IdentityBuild(src, ms[..n], texts[..n]);
      assert LastEnd(ms[..n]) <= ms[n].0;
      assert src[..ms[n].1] == src[..LastEnd(ms[..n])] + src[LastEnd(ms[..n])..ms[n].0] + src[ms[n].0..ms[n].1];
    }
  }

  lemma IdentityReplaced(src: Bytes, ms: seq<(nat, nat)>, texts: seq<Bytes>)
    requires Ordered(ms, 0, -1, |src|) && |texts| == |ms| && Identity(src, ms, texts)
    ensures Replaced(src, ms, texts) == src
  {
    IdentityBuild(src, ms, texts);
    assert src == src[..LastEnd(ms)] + src[LastEnd(ms)..];
  }

  // ---------------------------------------------------------------------------------------------
  // gsub

  /** What the replacement value gives for one match: a text, nothing (the match stays), or an error. */
  datatype Replacement = Text(r: Bytes) | Keep | Error

  /** The answer to the k-th match, from s to e, with its captures. */
  type Replacer = (nat, nat, nat, Captures) -> Replacement

  /** Why it fails: a malformed pattern, one too long for the depth limit, or a refused replacement. */
  datatype Why = BadPattern | TooDeep | Refused

  datatype Result = Failed(why: Why) | Panicked | Done(out: Bytes, count: nat)

  /** The k-th text is what the replacer answers to the k-th match and its captures. */
  ghost predicate TextAt(src: Bytes, pat: Bytes, p: nat, repl: Replacer, m: (nat, nat), k: nat, text: Bytes)
    requires p <= |pat|
  {
    && m.0 <= m.1 <= |src|
    && var h := Hits(src, pat, Point(p, m.0, []));
    && h != [] && h[0].Hit? && h[0].end == m.1
    && match repl(k, m.0, m.1, h[0].caps)
       case Text(r) => text == r
       case Keep => text == src[m.0..m.1]
       case Error => false
  }

  /** Where the first match ends, at every position of the subject. */
  function EndsIn(src: Bytes, pat: Bytes, p: nat): Ends
    requires p <= |pat|
  {
    (s: nat) => if s <= |src| then FirstEnd(src, pat, p, s) else None
  }

  lemma EndsForward(src: Bytes, pat: Bytes, p: nat)
    requires p <= |pat|
    ensures Forward(EndsIn(src, pat, p), |src|)
  {
    forall s: nat | s <= |src| && FirstEnd(src, pat, p, s).Some? ensures s <= FirstEnd(src, pat, p, s).value <= |src| {
      var c := Point(p, s, []);
      var h := Hits(src, pat, c)[0];
      HitsAreMatches(src, pat, c, h);
      MatchesForward(src, pat, c, h);
    }
  }

  /** What the replacer answers to the first match at s, as the k-th one. */
  ghost function Answer(src: Bytes, pat: Bytes, p: nat, repl: Replacer, s: nat, k: nat): Replacement
    requires p <= |pat| && s <= |src| && FirstEnd(src, pat, p, s).Some?
  {
    var h := Hits(src, pat, Point(p, s, []))[0];
    repl(k, s, h.end, h.caps)
  }

  /** The first thing that the scan, made as in Scan, comes to that keeps it from its end. */
  datatype Trouble = Nothing | BadItem | Refusal | Crash

  ghost function Ahead(src: Bytes, pat: Bytes, p: nat, repl: Replacer, pos: nat, last: int, k: nat, n: nat,
                       anchor: bool): Trouble
    requires p <= |pat| && Forward(EndsIn(src, pat, p), |src|) && last <= pos <= |src|
    decreases |src| - pos, if last == pos then 0 else 1
  {
    var end := EndsIn(src, pat, p)(pos);
    if n == 0 then Nothing
    else if FirstPanics(src, pat, p, pos) then Crash
    else if FirstBreaks(src, pat, p, pos) then BadItem
    else if end.Some? && end.value != last then
      if Answer(src, pat, p, repl, pos, k).Error? then Refusal
      else if anchor then Nothing
      else Ahead(src, pat, p, repl, end.value, end.value, k + 1, n - 1, anchor)
    else if pos < |src| && !anchor then Ahead(src, pat, p, repl, pos + 1, last, k, n, anchor)
    else Nothing
  }

  lemma {:induction false} OrderedSnoc(ms: seq<(nat, nat)>, m: (nat, nat), len: nat)
    requires Ordered(ms, 0, -1, len) && LastEnd(ms) <= m.0 <= m.1 <= len && (ms != [] ==> LastEnd(ms) < m.1)
    ensures Ordered(ms + [m], 0, -1, len)
  {
    var ms' := ms + [m];
    forall i, j | 0 <= i < j < |ms'| ensures ms'[i].1 <= ms'[j].0 && ms'[i].1 < ms'[j].1 {
      if j == |ms| && i < |ms| - 1 { assert ms[i].1 <= ms[|ms| - 1].0; }
    }
  }

  lemma {:induction false} BuildSnoc(src: Bytes, ms: seq<(nat, nat)>, texts: seq<Bytes>, m: (nat, nat), text: Bytes)
    requires Ordered(ms, 0, -1, |src|) && Ordered(ms + [m], 0, -1, |src|) && |texts| == |ms|
             && LastEnd(ms) <= m.0 <= |src|
    ensures Build(src, ms + [m], texts + [text]) == Build(src, ms, texts) + src[LastEnd(ms)..m.0] + text
  {
    assert (ms + [m])[..|ms|] == ms && (texts + [text])[..|ms|] == texts;
  }

  /** The state of the scan: what was matched and written so far, and what is left to scan. */
  datatype State = State(ms: seq<(nat, nat)>, texts: seq<Bytes>, out: Bytes, pos: nat, last: int, changed: bool)

  ghost predicate Scanned(src: Bytes, st: State) {
    (&& Ordered(st.ms, 0, -1, |src|) && |st.texts| == |st.ms|
     && -1 <= st.last <= st.pos <= |src| && LastEnd(st.ms) <= st.pos
     && st.last == (if st.ms == [] then -1 else LastEnd(st.ms))
     && st.out == Build(src, st.ms, st.texts) + src[LastEnd(st.ms)..st.pos]
     && (!st.changed ==> Identity(src, st.ms, st.texts))) == true
  }

  function Matched(st: State, e: nat, text: Bytes, changed: bool): State {
    State(st.ms + [(st.pos, e)], st.texts + [text], st.out + text, e, e, st.changed || changed)
  }

  lemma {:induction false} MatchedScanned(src: Bytes, st: State, e: nat, text: Bytes, changed: bool)
    requires Scanned(src, st) && st.pos <= e <= |src| && e != st.last && (!changed ==> text == src[st.pos..e])
    ensures Scanned(src, Matched(st, e, text, changed))
  {
    var st' := Matched(st, e, text, changed);
    OrderedSnoc(st.ms, (st.pos, e), |src|);
    MatchedOut(src, st, e, text);
    if !st'.changed { IdentitySnoc(src, st.ms, st.texts, (st.pos, e), text); }
  }

  /** What is written with one match more. */
  lemma {:induction false} MatchedOut(src: Bytes, st: State, e: nat, text: Bytes)
    requires Scanned(src, st) && Ordered(st.ms + [(st.pos, e)], 0, -1, |src|) && st.pos <= e <= |src|
    ensures LastEnd(st.ms + [(st.pos, e)]) == e
    ensures st.out + text == Build(src, st.ms + [(st.pos, e)], st.texts + [text]) + src[e..e]
  {
    BuildSnoc(src, st.ms, st.texts, (st.pos, e), text);
    assert src[e..e] == [];
  }

  lemma {:induction false} IdentitySnoc(src: Bytes, ms: seq<(nat, nat)>, texts: seq<Bytes>, m: (nat, nat), text: Bytes)
    requires Ordered(ms, 0, -1, |src|) && Ordered(ms + [m], 0, -1, |src|) && |texts| == |ms| && m.0 <= m.1 <= |src|
    requires Identity(src, ms, texts) && text == src[m.0..m.1]
    ensures Identity(src, ms + [m], texts + [text])
  {
  }

  function Skipped(src: Bytes, st: State): State
    requires st.pos < |src|
  {
    st.(out := st.out + [src[st.pos]], pos := st.pos + 1)
  }

  lemma {:induction false} SkippedScanned(src: Bytes, st: State)
    requires Scanned(src, st) && st.pos < |src|
    ensures Scanned(src, Skipped(src, st))
  {
    var from, built := LastEnd(st.ms), Build(src, st.ms, st.texts);
    assert src[from..st.pos + 1] == src[from..st.pos] + [src[st.pos]];
    assert built + (src[from..st.pos] + [src[st.pos]]) == built + src[from..st.pos] + [src[st.pos]];
  }

  lemma {:induction false} ScannedDone(src: Bytes, st: State)
    requires Scanned(src, st)
    ensures Ordered(st.ms, 0, -1, |src|) && |st.texts| == |st.ms| && st.pos <= |src|
    ensures Replaced(src, st.ms, st.texts) == if st.changed then st.out + src[st.pos..] else src
  {
    assert src[LastEnd(st.ms)..] == src[LastEnd(st.ms)..st.pos] + src[st.pos..];
    if !st.changed { IdentityReplaced(src, st.ms, st.texts); }
  }

  /** What the scan has still to find. */
  ghost function Left(at: Ends, len: nat, st: State, maxN: int, anchor: bool, stop: bool): seq<(nat, nat)>
    requires Forward(at, len) && st.last <= st.pos <= len
  {
    if stop || |st.ms| >= maxN then [] else Scan(at, len, st.pos, st.last, maxN - |st.ms|, anchor)
  }

  ghost predicate AllTexts(src: Bytes, pat: Bytes, p: nat, repl: Replacer, ms: seq<(nat, nat)>, texts: seq<Bytes>)
    requires p <= |pat|
  {
    |texts| == |ms| && forall k :: 0 <= k < |ms| ==> TextAt(src, pat, p, repl, ms[k], k, texts[k])
  }

  lemma TextSnoc(src: Bytes, pat: Bytes, p: nat, repl: Replacer, ms: seq<(nat, nat)>, texts: seq<Bytes>, m: (nat, nat),
                 caps: Captures, text: Bytes)
    requires p <= |pat| && AllTexts(src, pat, p, repl, ms, texts) && m.0 <= m.1 <= |src|
             && FirstHit(src, pat, p, m.0, m.1, caps)
    requires match repl(|ms|, m.0, m.1, caps)
             case Text(r) => text == r
             case Keep => text == src[m.0..m.1]
             case Error => false
    ensures AllTexts(src, pat, p, repl, ms + [m], texts + [text])
  {
    assert TextAt(src, pat, p, repl, m, |ms|, text);
    forall k | 0 <= k < |ms + [m]| ensures TextAt(src, pat, p, repl, (ms + [m])[k], k, (texts + [text])[k]) {
      if k < |ms| { assert TextAt(src, pat, p, repl, ms[k], k, texts[k]); }
    }
  }

  lemma LeftMatched(at: Ends, len: nat, st: State, e: nat, text: Bytes, changed: bool, maxN: int, anchor: bool)
    requires Forward(at, len) && st.last <= st.pos <= len && |st.ms| < maxN && at(st.pos) == Some(e) && e != st.last
    ensures var st' := Matched(st, e, text, changed);
            st.ms + Left(at, len, st, maxN, anchor, false) == st'.ms + Left(at, len, st', maxN, anchor, anchor)
  {
    var st', n := Matched(st, e, text, changed), maxN - |st.ms|;
    assert Scan(at, len, e, e, 0, anchor) == [];
    assert Scan(at, len, st.pos, st.last, n, anchor) ==
           [(st.pos, e)] + if anchor then [] else Scan(at, len, e, e, n - 1, anchor);
    assert Left(at, len, st', maxN, anchor, anchor) == if anchor then [] else Scan(at, len, e, e, n - 1, anchor);
  }

  lemma LeftSkipped(at: Ends, src: Bytes, st: State, maxN: int, anchor: bool)
    requires Forward(at, |src|) && st.last <= st.pos < |src| && |st.ms| < maxN
             && (at(st.pos).None? || at(st.pos).value == st.last)
    ensures Left(at, |src|, st, maxN, anchor, false) == Left(at, |src|, Skipped(src, st), maxN, anchor, anchor)
  {
  }

  lemma LeftStopped(at: Ends, len: nat, st: State, maxN: int, anchor: bool)
    requires Forward(at, len) && st.last <= st.pos == len && |st.ms| < maxN
             && (at(st.pos).None? || at(st.pos).value == st.last)
    ensures Left(at, len, st, maxN, anchor, false) == []
  {
  }

  /** The scan is at st, and with what is left gives all. */
  ghost predicate Scanning(src: Bytes, pat: Bytes, p: nat, repl: Replacer, at: Ends, all: seq<(nat, nat)>, st: State,
                           maxN: int, anchor: bool, stop: bool)
    requires p <= |pat| && Forward(at, |src|)
  {
    (&& Scanned(src, st) && AllTexts(src, pat, p, repl, st.ms, st.texts)
     && st.last <= st.pos <= |src| && all == st.ms + Left(at, |src|, st, maxN, anchor, stop)) == true
  }

  lemma MatchedScanning(src: Bytes, pat: Bytes, p: nat, repl: Replacer, at: Ends, all: seq<(nat, nat)>, st: State,
                        maxN: int, anchor: bool, e: nat, caps: Captures, text: Bytes, changed: bool)
    requires p <= |pat| && Forward(at, |src|) && |st.ms| < maxN
             && Scanning(src, pat, p, repl, at, all, st, maxN, anchor, false)
    requires at(st.pos) == Some(e) && e != st.last && FirstHit(src, pat, p, st.pos, e, caps)
    requires match repl(|st.ms|, st.pos, e, caps)
             case Text(r) => text == r && changed
             case Keep => text == src[st.pos..e] && !changed
             case Error => false
    ensures Scanning(src, pat, p, repl, at, all, Matched(st, e, text, changed), maxN, anchor, anchor)
  {
    MatchedScanned(src, st, e, text, changed);
    TextSnoc(src, pat, p, repl, st.ms, st.texts, (st.pos, e), caps, text);
    LeftMatched(at, |src|, st, e, text, changed, maxN, anchor);
  }

  lemma SkippedScanning(src: Bytes, pat: Bytes, p: nat, repl: Replacer, at: Ends, all: seq<(nat, nat)>, st: State,
                        maxN: int, anchor: bool)
    requires p <= |pat| && Forward(at, |src|) && |st.ms| < maxN
             && Scanning(src, pat, p, repl, at, all, st, maxN, anchor, false)
    requires st.pos < |src| && (at(st.pos).None? || at(st.pos).value == st.last)
    ensures Scanning(src, pat, p, repl, at, all, Skipped(src, st), maxN, anchor, anchor)
  {
    SkippedScanned(src, st);
    LeftSkipped(at, src, st, maxN, anchor);
  }

  lemma StoppedScanning(src: Bytes, pat: Bytes, p: nat, repl: Replacer, at: Ends, all: seq<(nat, nat)>, st: State,
                        maxN: int, anchor: bool)
    requires p <= |pat| && Forward(at, |src|) && |st.ms| < maxN
             && Scanning(src, pat, p, repl, at, all, st, maxN, anchor, false)
    requires st.pos == |src| && (at(st.pos).None? || at(st.pos).value == st.last)
    ensures Scanning(src, pat, p, repl, at, all, st, maxN, anchor, true)
  {
    LeftStopped(at, |src|, st, maxN, anchor);
  }

  /** No attempt raises or panics and no replacement fails. */
  ghost predicate Harmless(pat: Bytes, p: nat, repl: Replacer)
    requires p <= |pat|
  {
    && Short(pat, p) && Sound(pat, p, []) && PositionFree(pat, p, [])
    && forall k, s, e, caps :: !repl(k, s, e, caps).Error?
  }

  /** What the scan has still to come to. */
  ghost function Coming(src: Bytes, pat: Bytes, p: nat, repl: Replacer, st: State, maxN: int, anchor: bool, stop: bool)
    : Trouble
    requires p <= |pat| && Forward(EndsIn(src, pat, p), |src|) && st.last <= st.pos <= |src|
  {
    if stop || |st.ms| >= maxN then Nothing
    else Ahead(src, pat, p, repl, st.pos, st.last, |st.ms|, maxN - |st.ms|, anchor)
  }

  /** The error, if there is one, is what was coming, unless the pattern is too long. */
  ghost predicate Explained(pat: Bytes, p: nat, err: Option<Result>, t: Trouble) {
    && (err.Some? ==> !err.value.Done?)
    && (err == Some(Panicked) ==> t.Crash?)
    && (err == Some(Failed(BadPattern)) ==> t.BadItem?)
    && (err == Some(Failed(Refused)) ==> t.Refusal?)
    && (err == Some(Failed(TooDeep)) ==> !Short(pat, p))
  }

  /** A round leads from st to st'. */
  ghost predicate Stepped(src: Bytes, pat: Bytes, p: nat, repl: Replacer, all: seq<(nat, nat)>, st: State, st': State,
                          maxN: int, anchor: bool, stop: bool)
    requires p <= |pat| && Forward(EndsIn(src, pat, p), |src|) && st.last <= st.pos <= |src|
  {
    (&& Scanning(src, pat, p, repl, EndsIn(src, pat, p), all, st', maxN, anchor, stop)
     && Coming(src, pat, p, repl, st, maxN, anchor, false) ==
        Coming(src, pat, p, repl, st', maxN, anchor, stop)) == true
  }

  /** The first hit, as the scan sees it. */
  lemma FirstSeen(src: Bytes, pat: Bytes, p: nat, repl: Replacer, s: nat, k: nat, e: nat, caps: Captures)
    requires p <= |pat| && s <= |src| && FirstHit(src, pat, p, s, e, caps)
    ensures !FirstPanics(src, pat, p, s) && !FirstBreaks(src, pat, p, s)
    ensures EndsIn(src, pat, p)(s) == FirstEnd(src, pat, p, s) == Some(e)
    ensures Answer(src, pat, p, repl, s, k) == repl(k, s, e, caps)
  {
  }

  lemma {:induction false} ComingMatched(src: Bytes, pat: Bytes, p: nat, repl: Replacer, st: State, maxN: int,
                                         anchor: bool, e: nat, text: Bytes, changed: bool)
    requires p <= |pat| && Forward(EndsIn(src, pat, p), |src|) && st.last <= st.pos <= |src| && |st.ms| < maxN
    requires !FirstPanics(src, pat, p, st.pos) && !FirstBreaks(src, pat, p, st.pos)
    requires EndsIn(src, pat, p)(st.pos) == Some(e) && e != st.last
    requires FirstEnd(src, pat, p, st.pos) == Some(e) && !Answer(src, pat, p, repl, st.pos, |st.ms|).Error?
    ensures st.pos <= e <= |src|
    ensures Coming(src, pat, p, repl, st, maxN, anchor, false) ==
            Coming(src, pat, p, repl, Matched(st, e, text, changed), maxN, anchor, anchor)
  {
    assert Ahead(src, pat, p, repl, e, e, |st.ms| + 1, 0, anchor) == Nothing;
  }

  lemma {:induction false} MatchedStep(src: Bytes, pat: Bytes, p: nat, repl: Replacer, all: seq<(nat, nat)>, st: State,
                                       maxN: int, anchor: bool, e: nat, caps: Captures, text: Bytes, changed: bool)
    requires p <= |pat| && Forward(EndsIn(src, pat, p), |src|) && st.last <= st.pos <= |src| && |st.ms| < maxN
    requires Scanning(src, pat, p, repl, EndsIn(src, pat, p), all, st, maxN, anchor, false)
    requires FirstHit(src, pat, p, st.pos, e, caps) && e != st.last
    requires match repl(|st.ms|, st.pos, e, caps)
             case Text(r) => text == r && changed
             case Keep => text == src[st.pos..e] && !changed
             case Error => false
    ensures Stepped(src, pat, p, repl, all, st, Matched(st, e, text, changed), maxN, anchor, anchor)
  {
    FirstSeen(src, pat, p, repl, st.pos, |st.ms|, e, caps);
    MatchedScanning(src, pat, p, repl, EndsIn(src, pat, p), all, st, maxN, anchor, e, caps, text, changed);
    ComingMatched(src, pat, p, repl, st, maxN, anchor, e, text, changed);
  }

  /** There is no match at st.pos, or an empty one where the last one ended. */
  predicate Passes(src: Bytes, pat: Bytes, p: nat, pos: nat, last: int)
    requires p <= |pat| && pos <= |src|
  {
    (var end := FirstEnd(src, pat, p, pos);
     && !FirstPanics(src, pat, p, pos) && !FirstBreaks(src, pat, p, pos)
     && (end.None? || end.value == last)) == true
  }

  lemma {:induction false} AheadPasses(src: Bytes, pat: Bytes, p: nat, repl: Replacer, pos: nat, last: int, k: nat,
                                       n: nat, anchor: bool)
    requires p <= |pat| && Forward(EndsIn(src, pat, p), |src|) && last <= pos <= |src| && n > 0
    requires Passes(src, pat, p, pos, last)
    ensures Ahead(src, pat, p, repl, pos, last, k, n, anchor) ==
            if pos < |src| && !anchor then Ahead(src, pat, p, repl, pos + 1, last, k, n, anchor) else Nothing
  {
    assert EndsIn(src, pat, p)(pos) == FirstEnd(src, pat, p, pos);
  }

  lemma {:induction false} ComingPasses(src: Bytes, pat: Bytes, p: nat, repl: Replacer, st: State, maxN: int,
                                        anchor: bool)
    requires p <= |pat| && Forward(EndsIn(src, pat, p), |src|) && st.last <= st.pos <= |src| && |st.ms| < maxN
    requires Passes(src, pat, p, st.pos, st.last)
    ensures Coming(src, pat, p, repl, st, maxN, anchor, false) ==
            if st.pos < |src| then Coming(src, pat, p, repl, Skipped(src, st), maxN, anchor, anchor) else Nothing
  {
    AheadPasses(src, pat, p, repl, st.pos, st.last, |st.ms|, maxN - |st.ms|, anchor);
  }

  lemma {:induction false} PassedStep(src: Bytes, pat: Bytes, p: nat, repl: Replacer, all: seq<(nat, nat)>, st: State,
                                      maxN: int, anchor: bool)
    requires p <= |pat| && Forward(EndsIn(src, pat, p), |src|) && st.last <= st.pos <= |src| && |st.ms| < maxN
    requires Scanning(src, pat, p, repl, EndsIn(src, pat, p), all, st, maxN, anchor, false)
    requires Passes(src, pat, p, st.pos, st.last)
    ensures st.pos < |src| ==> Stepped(src, pat, p, repl, all, st, Skipped(src, st), maxN, anchor, anchor)
    ensures st.pos == |src| ==> Stepped(src, pat, p, repl, all, st, st, maxN, anchor, true)
  {
    ComingPasses(src, pat, p, repl, st, maxN, anchor);
    if st.pos < |src| {
      SkippedScanning(src, pat, p, repl, EndsIn(src, pat, p), all, st, maxN, anchor);
    } else {
      StoppedScanning(src, pat, p, repl, EndsIn(src, pat, p), all, st, maxN, anchor);
    }
  }

  /** What keeps the scan from going on. */
  lemma {:induction false} ComingTrouble(src: Bytes, pat: Bytes, p: nat, repl: Replacer, st: State, maxN: int,
                                         anchor: bool)
    requires p <= |pat| && Forward(EndsIn(src, pat, p), |src|) && st.last <= st.pos <= |src| && |st.ms| < maxN
    ensures FirstPanics(src, pat, p, st.pos) ==> Coming(src, pat, p, repl, st, maxN, anchor, false) == Crash
    ensures FirstBreaks(src, pat, p, st.pos) ==> Coming(src, pat, p, repl, st, maxN, anchor, false) == BadItem
    ensures var end := FirstEnd(src, pat, p, st.pos);
            end.Some? && end.value != st.last && Answer(src, pat, p, repl, st.pos, |st.ms|).Error? ==>
              Coming(src, pat, p, repl, st, maxN, anchor, false) == Refusal
  {
    assert EndsIn(src, pat, p)(st.pos) == FirstEnd(src, pat, p, st.pos);
  }

  /** One round of gsub's loop. */
  method Round(m: MatchState, p: nat, repl: Replacer, anchor: bool, maxN: int, st: State, ghost all: seq<(nat, nat)>)
    returns (err: Option<Result>, st': State, stop: bool)
    requires m.Valid() && p <= |m.pat| && Forward(EndsIn(m.src, m.pat, p), |m.src|) && |st.ms| < maxN
    requires st.last <= st.pos <= |m.src|
             && Scanning(m.src, m.pat, p, repl, EndsIn(m.src, m.pat, p), all, st, maxN, anchor, false)
    modifies m, m.capture
    ensures m.Valid() && (Harmless(m.pat, p, repl) ==> err.None?)
    ensures Explained(m.pat, p, err, Coming(m.src, m.pat, p, repl, st, maxN, anchor, false))
    ensures err == Some(Panicked) ==> !PositionFree(m.pat, p, [])
    ensures err == Some(Failed(BadPattern)) ==> !Sound(m.pat, p, [])
    ensures err.None? ==> Stepped(m.src, m.pat, p, repl, all, st, st', maxN, anchor, stop)
    ensures err.None? ==> stop || st'.pos > st.pos || (st'.pos == st.pos && st.last != st.pos && st'.last == st'.pos)
  {
    st', stop := st, anchor;
    var o := Attempt(m, st.pos, p);
    ComingTrouble(m.src, m.pat, p, repl, st, maxN, anchor);
    if o.Raised? || o.TooComplex? || o.Crashed? {
      return Some(if o.Crashed? then Panicked else Failed(if o.Raised? then BadPattern else TooDeep)), st, true;
    }
    if o.End? && o.e != st.last {
      FirstSeen(m.src, m.pat, p, repl, st.pos, |st.ms|, o.e, m.Caps());
      var rep := repl(|st.ms|, st.pos, o.e, m.Caps());
      if rep.Error? {
        return Some(Failed(Refused)), st, true;
      }
      var text := if rep.Text? then rep.r else m.src[st.pos..o.e];
      MatchedStep(m.src, m.pat, p, repl, all, st, maxN, anchor, o.e, m.Caps(), text, rep.Text?);
      st' := Matched(st, o.e, text, rep.Text?);
    } else {
      PassedStep(m.src, m.pat, p, repl, all, st, maxN, anchor);
      if st.pos < |m.src| {
        st' := Skipped(m.src, st);
      } else {
        stop := true;
      }
    }
    err := None;
  }

  /** gsub's loop. */
  method Rounds(m: MatchState, p: nat, repl: Replacer, anchor: bool, maxN: int, ghost all: seq<(nat, nat)>)
    returns (err: Option<Result>, st: State)
    requires m.Valid() && p <= |m.pat| && Forward(EndsIn(m.src, m.pat, p), |m.src|)
    requires all == Scan(EndsIn(m.src, m.pat, p), |m.src|, 0, -1, if maxN > 0 then maxN else 0, anchor)
    modifies m, m.capture
    ensures m.Valid() && (Harmless(m.pat, p, repl) ==> err.None?)
    ensures var t := Ahead(m.src, m.pat, p, repl, 0, -1, 0, if maxN > 0 then maxN else 0, anchor);
            Explained(m.pat, p, err, t) && (err.None? ==> t.Nothing?)
    ensures err == Some(Panicked) ==> !PositionFree(m.pat, p, [])
    ensures err == Some(Failed(BadPattern)) ==> !Sound(m.pat, p, [])
    ensures err.None? ==> Scanned(m.src, st) && AllTexts(m.src, m.pat, p, repl, st.ms, st.texts) && all == st.ms
  {
    ghost var at := EndsIn(m.src, m.pat, p);
    var stop := false;
    err, st := None, State([], [], [], 0, -1, false);
    assert all == st.ms + Left(at, |m.src|, st, maxN, anchor, stop) by {
      assert Scan(at, |m.src|, 0, -1, 0, anchor) == [];
    }
    ghost var t := Coming(m.src, m.pat, p, repl, st, maxN, anchor, false);
    assert Ahead(m.src, m.pat, p, repl, 0, -1, 0, if maxN > 0 then maxN else 0, anchor) == t;
    while |st.ms| < maxN && !stop
      invariant m.Valid() && Scanning(m.src, m.pat, p, repl, at, all, st, maxN, anchor, stop)
      invariant Coming(m.src, m.pat, p, repl, st, maxN, anchor, stop) == t
      decreases !stop, |m.src| - st.pos, if st.last == st.pos then 0 else 1
    {
      err, st, stop := Round(m, p, repl, anchor, maxN, st, all);
      if err.Some? {
        return;
      }
    }
    assert all == st.ms + [] == st.ms;
    err := None;
  }

  /** r is the subject with the matches of the scan replaced by what the replacer answers to them. */
  ghost predicate Substituted(src: Bytes, pat: Bytes, p: nat, repl: Replacer, n: nat, anchor: bool, r: Result)
    requires p <= |pat| && Forward(EndsIn(src, pat, p), |src|)
  {
    var ms := Scan(EndsIn(src, pat, p), |src|, 0, -1, n, anchor);
    && Ordered(ms, 0, -1, |src|)
    && exists texts :: AllTexts(src, pat, p, repl, ms, texts) && r == Done(Replaced(src, ms, texts), |ms|)
  }

  /** gsub: the scan of the subject, with every match replaced. It is done, fails or panics as the
      first trouble ahead says; only a pattern too long for the depth limit may also make it fail. */
  method Substitute(src: Bytes, pat: Bytes, maxN: int, repl: Replacer) returns (r: Result)
    ensures var anchor := |pat| > 0 && pat[0] == CARET;
            var p, n := if anchor then 1 else 0, if maxN > 0 then maxN else 0;
            && Forward(EndsIn(src, pat, p), |src|)
            && var t := Ahead(src, pat, p, repl, 0, -1, 0, n, anchor);
            && (r.Done? ==> t.Nothing? && Substituted(src, pat, p, repl, n, anchor, r))
            && (r.Panicked? ==> t.Crash? && !PositionFree(pat, p, []))
            && (r == Failed(BadPattern) ==> t.BadItem? && !Sound(pat, p, []))
            && (r == Failed(Refused) ==> t.Refusal?)
            && (r == Failed(TooDeep) ==> !Short(pat, p))
            && (Harmless(pat, p, repl) ==> r.Done?)
  {
    var m := new MatchState(src, pat);
    var anchor := |pat| > 0 && pat[0] == CARET;
    var p := if anchor then 1 else 0;
    ghost var n, at := if maxN > 0 then maxN else 0, EndsIn(src, pat, p);
    EndsForward(src, pat, p);
    var err, st := Rounds(m, p, repl, anchor, maxN, Scan(at, |src|, 0, -1, n, anchor));
    if err.Some? {
      return err.value;
    }
    ScannedDone(src, st);
    r := Done(if st.changed then st.out + src[st.pos..] else src, |st.ms|);
    assert r == Done(Replaced(src, st.ms, st.texts), |st.ms|);
  }

  lemma {:induction false} AheadCrashes(src: Bytes, pat: Bytes, p: nat, repl: Replacer, n: nat, anchor: bool)
    requires p <= |pat| && FirstPanics(src, pat, p, 0) && n > 0
    ensures Forward(EndsIn(src, pat, p), |src|) && Ahead(src, pat, p, repl, 0, -1, 0, n, anchor) == Crash
  {
    EndsForward(src, pat, p);
  }

  lemma {:induction false} PositionReferencePanics(src: Bytes, pat: Bytes)
    requires pat == [OPEN, CLOSE, PERCENT, 49]
    ensures pat[0] != CARET && FirstPanics(src, pat, 0, 0) && Short(pat, 0)
  {
    PositionReference(src, 0);
  }

  lemma Causes(r: Result)
    ensures r.Done? || r == Panicked || r == Failed(BadPattern) || r == Failed(TooDeep) || r == Failed(Refused)
  {
    if r.Failed? {
      match r.why
      case BadPattern =>
      case TooDeep =>
      case Refused =>
    }
  }

  method SubstituteCrashes(src: Bytes, maxN: int, repl: Replacer) returns (r: Result)
    requires maxN > 0
    ensures r == Panicked
  {
    var pat: Bytes := [OPEN, CLOSE, PERCENT, 49];
    PositionReferencePanics(src, pat);
    AheadCrashes(src, pat, 0, repl, maxN, false);
    r := Substitute(src, pat, maxN, repl);
    Causes(r);
  }
}
