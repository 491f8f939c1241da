/**
 The backtracking matcher: one object whose captures are filled in on the way and restored when
 an alternative fails.
 */
module Matcher {
  import opened Options
  import opened ByteStrings
  import opened Pattern

  /** Crashed is a panic that nothing catches. */
  datatype Outcome = Raised(msg: string) | TooComplex | Crashed | Fail | End(e: nat)

  // ---------------------------------------------------------------------------------------------
  // Patterns that do not raise

  /** What is known of a capture: still open, complete, or a position. */
  datatype CapState = Opened | Filled | Located

  function StateOf(x: Capture): CapState {
    if x.len == UNFINISHED then Opened else if x.len >= 0 then Filled else Located
  }

  function Shape(caps: Captures): (shape: seq<CapState>)
    ensures |shape| == |caps|
  {
    seq(|caps|, i requires 0 <= i < |caps| => StateOf(caps[i]))
  }

  /** The last open capture, or -1. */
  function LastOpened(shape: seq<CapState>): (l: int)
    ensures -1 <= l < |shape|
  {
    if shape == [] then -1
    else if shape[|shape| - 1].Opened? then |shape| - 1
    else LastOpened(shape[..|shape| - 1])
  }

  /** The pattern from p on is well formed, closes only what is open, refers only to what is not open
      and opens no more captures than there are. */
  predicate Sound(pat: Bytes, p: nat, shape: seq<CapState>)
    requires p <= |pat|
    decreases |pat| - p
  {
    if p == |pat| then true
    else if pat[p] == OPEN then
      |shape| < MAX_CAPTURES &&
      if p + 1 < |pat| && pat[p + 1] == CLOSE then Sound(pat, p + 2, shape + [Located])
      else Sound(pat, p + 1, shape + [Opened])
    else if pat[p] == CLOSE then LastOpened(shape) >= 0 && Sound(pat, p + 1, shape[LastOpened(shape) := Filled])
    else if AtDollar(pat, p) then true
    else if Escape(pat, p, LETTER_B) then p + 3 < |pat| && Sound(pat, p + 4, shape)
    else if Escape(pat, p, LETTER_F) then
      p + 2 < |pat| && pat[p + 2] == LBRACKET && ClassEnd(pat, p + 2).Some?
        && Sound(pat, ClassEnd(pat, p + 2).value, shape)
    else if BackReference(pat, p) then
      0 <= RefIndex(pat, p) < |shape| && !shape[RefIndex(pat, p)].Opened? && Sound(pat, p + 2, shape)
    else
      && Plain(pat, p)
      && var ep := ClassEnd(pat, p).value;
         Sound(pat, if Suffix(pat, ep) == 0 then ep else ep + 1, shape)
  }

  /** The captures are open, positions, or of text before s. */
  predicate Before(caps: Captures, s: nat) {
    forall i :: 0 <= i < |caps| ==>
      caps[i].init <= s && POSITION <= caps[i].len && (caps[i].len >= 0 ==> caps[i].init + caps[i].len <= s)
  }

  /** The depth left is enough for the pattern from p on. */
  predicate Enough(pat: Bytes, p: nat, depth: int) {
    depth > |pat| - p + 1
  }

  lemma ShapePush(caps: Captures, x: Capture)
    ensures Shape(caps + [x]) == Shape(caps) + [StateOf(x)]
  {
  }

  lemma {:induction false} LastOpenShape(caps: Captures)
    ensures LastOpen(caps) == LastOpened(Shape(caps))
  {
    if caps != [] {
      assert Shape(caps)[..|caps| - 1] == Shape(caps[..|caps| - 1]);
      LastOpenShape(caps[..|caps| - 1]);
    }
  }

  lemma ShapeClosed(caps: Captures, s: nat)
    requires Before(caps, s)
    ensures LastOpen(caps) == LastOpened(Shape(caps))
    ensures LastOpen(caps) >= 0 ==>
            Shape(Closed(caps, s)) == Shape(caps)[LastOpen(caps) := Filled] && Before(Closed(caps, s), s)
  {
    LastOpenShape(caps);
  }

  /** Where the pattern goes on, the captures are as before, and it is sound there if and only if it was,
      unless the item passed is malformed: a pattern is sound if no item on the way is. */
  lemma SoundMove(src: Bytes, pat: Bytes, c: Point, d: Point)
    requires Inside(src, pat, c) && c.p < |pat| && Before(c.caps, c.s) && Reaches(Moves(src, pat, c), d)
    ensures c.p < d.p && Inside(src, pat, d) && Before(d.caps, d.s)
    ensures Sound(pat, c.p, Shape(c.caps)) ==> Sound(pat, d.p, Shape(d.caps))
    ensures !Breaks(pat, c.p, c.caps) && Sound(pat, d.p, Shape(d.caps)) ==> Sound(pat, c.p, Shape(c.caps))
  {
    if pat[c.p] == OPEN {
      SoundOpen(src, pat, c, d);
    } else if pat[c.p] == CLOSE {
      ShapeClosed(c.caps, c.s);
    } else {
      SoundOn(src, pat, c, d);
    }
  }

  lemma SoundOpen(src: Bytes, pat: Bytes, c: Point, d: Point)
    requires Inside(src, pat, c) && c.p < |pat| && pat[c.p] == OPEN && Reaches(Moves(src, pat, c), d)
    requires Before(c.caps, c.s)
    ensures c.p < d.p && Inside(src, pat, d) && d.s == c.s && Before(d.caps, d.s)
    ensures Sound(pat, c.p, Shape(c.caps)) ==> Sound(pat, d.p, Shape(d.caps))
    ensures !Breaks(pat, c.p, c.caps) && Sound(pat, d.p, Shape(d.caps)) ==> Sound(pat, c.p, Shape(c.caps))
  {
    ShapePush(c.caps, Capture(c.s, POSITION));
    ShapePush(c.caps, Capture(c.s, UNFINISHED));
  }

  /** Past an item that is not a capture. */
  lemma SoundOn(src: Bytes, pat: Bytes, c: Point, d: Point)
    requires Inside(src, pat, c) && c.p < |pat| && pat[c.p] != OPEN && pat[c.p] != CLOSE
             && Reaches(Moves(src, pat, c), d)
    ensures d.caps == c.caps && c.s <= d.s && c.p < d.p && Inside(src, pat, d)
    ensures Sound(pat, c.p, Shape(c.caps)) ==> Sound(pat, d.p, Shape(c.caps))
    ensures !Breaks(pat, c.p, c.caps) && Sound(pat, d.p, Shape(c.caps)) ==> Sound(pat, c.p, Shape(c.caps))
  {
    if Plain(pat, c.p) {
      SoundItem(src, pat, c, d);
    }
  }

  lemma SoundItem(src: Bytes, pat: Bytes, c: Point, d: Point)
    requires Inside(src, pat, c) && c.p < |pat| && Plain(pat, c.p) && Reaches(Moves(src, pat, c), d)
    ensures d.caps == c.caps && c.s <= d.s && c.p < d.p && Inside(src, pat, d)
    ensures Sound(pat, c.p, Shape(c.caps)) ==> Sound(pat, d.p, Shape(c.caps))
    ensures !Breaks(pat, c.p, c.caps) && Sound(pat, d.p, Shape(c.caps)) ==> Sound(pat, c.p, Shape(c.caps))
  {
  }

  lemma SoundUnbroken(pat: Bytes, p: nat, caps: Captures)
    requires p < |pat| && Sound(pat, p, Shape(caps)) && forall i :: 0 <= i < |caps| ==> POSITION <= caps[i].len
    ensures !Breaks(pat, p, caps)
  {
    LastOpenShape(caps);
    if BackReference(pat, p) && 0 <= RefIndex(pat, p) < |caps| {
      assert Shape(caps)[RefIndex(pat, p)] == StateOf(caps[RefIndex(pat, p)]);
    }
  }

  /** Matching a sound pattern never comes to a malformed item. */
  lemma {:induction false} SoundNeverBreaks(src: Bytes, pat: Bytes, c: Point)
    requires Inside(src, pat, c) && Before(c.caps, c.s) && Sound(pat, c.p, Shape(c.caps))
    ensures Malformed !in Hits(src, pat, c)
    decreases |pat| - c.p
  {
    if c.p < |pat| {
      SoundUnbroken(pat, c.p, c.caps);
      if Malformed in Hits(src, pat, c) {
        var sp := Moves(src, pat, c);
        AlternativesHas(src, pat, sp.p, sp.lo, sp.hi, sp.lazy, sp.caps, Malformed);
        var s :| sp.lo <= s <= sp.hi && HitAt(src, pat, sp.p, s, sp.caps, Malformed);
        var d := Point(sp.p, s, sp.caps);
        SoundMove(src, pat, c, d);
        SoundNeverBreaks(src, pat, d);
      }
    }
  }

  // ---------------------------------------------------------------------------------------------
  // Ranges of alternatives

  /** The alternatives begin with those in h, and are those in rest if there are none in h. */
  predicate First(alts: seq<Hit>, h: seq<Hit>, rest: seq<Hit>) {
    if h == [] then alts == rest else alts != [] && alts[0] == h[0]
  }

  /** What follows from where the pattern goes on. */
  lemma MovesTold(f: Point -> seq<Hit>, src: Bytes, pat: Bytes, c: Point)
    requires Tells(f, src, pat) && Inside(src, pat, c) && c.p < |pat|
    ensures var sp := Moves(src, pat, c);
            f(c) == if Crashes(pat, c.p, c.caps) then [Panic]
                    else if Breaks(pat, c.p, c.caps) then [Malformed]
                    else if sp.lo > sp.hi then []
                    else Range(f, sp.p, sp.lo, sp.hi, sp.lazy, sp.caps)
  {
    var sp := Moves(src, pat, c);
    assert Told(f, src, pat, c);
    if sp.lo <= sp.hi { RangeTold(f, src, pat, sp.p, sp.lo, sp.hi, sp.lazy, sp.caps); }
  }

  lemma EndTold(f: Point -> seq<Hit>, src: Bytes, pat: Bytes, c: Point)
    requires Tells(f, src, pat) && Inside(src, pat, c) && c.p == |pat|
    ensures f(c) == [Hit(c.s, c.caps)]
  {
    assert Told(f, src, pat, c);
  }

  // ---------------------------------------------------------------------------------------------
  // The matcher

  /** The run was not given up. */
  predicate Whole(o: Outcome) {
    !o.Raised? && !o.TooComplex?
  }

  lemma FrontierMoves(src: Bytes, pat: Bytes, c: Point, ep: nat)
    requires Inside(src, pat, c) && c.p + 2 < |pat| && Escape(pat, c.p, LETTER_F) && pat[c.p + 2] == LBRACKET
    requires ClassEnd(pat, c.p + 2) == Some(ep)
    ensures Moves(src, pat, c) ==
            if Frontier(src, pat, c.s, c.p + 2, ep - 1) then Only(ep, c.s, c.caps) else Nowhere()
    ensures !Crashes(pat, c.p, c.caps) && !Breaks(pat, c.p, c.caps)
  {
  }

  /** What an item does that needs no recursion. */
  datatype Turn = On(s: nat, p: nat) | Stop(o: Outcome) | Fork

  // ---------------------------------------------------------------------------------------------
  // Items with a suffix

  /** The alternatives of an item with a suffix that takes at least one character. */
  lemma ItemHits(f: Point -> seq<Hit>, src: Bytes, pat: Bytes, p: nat, s: nat, caps: Captures, ep: nat)
    requires Tells(f, src, pat) && p < |pat| && s <= |src| && Plain(pat, p) && ClassEnd(pat, p) == Some(ep)
             && Suffix(pat, ep) != 0
    requires Single(src, pat, s, p, ep)
    ensures var suffix, all, end := Suffix(pat, ep), f(Point(p, s, caps)), s + Run(src, pat, s, p, ep);
            && ep < |pat| && suffix == pat[ep] && end == s + 1 + Run(src, pat, s + 1, p, ep)
            && (suffix != QUESTION ==> all == Repeated(f, suffix, ep + 1, s, end, caps))
            && (suffix == QUESTION ==> First(all, f(Point(ep + 1, s + 1, caps)), f(Point(ep + 1, s, caps))))
            && Reaches(Moves(src, pat, Point(p, s, caps)), Point(ep + 1, if suffix == PLUS then s + 1 else s, caps))
  {
    ItemMoves(src, pat, p, s, caps, ep);
    MovesTold(f, src, pat, Point(p, s, caps));
    assert Range(f, ep + 1, s, s, false, caps) == f(Point(ep + 1, s, caps));
  }

  /** The alternatives of an item that is repeated, from s to at most end. */
  ghost function Repeated(f: Point -> seq<Hit>, suffix: Byte, p: nat, s: nat, end: nat, caps: Captures): seq<Hit>
    requires s < end
  {
    if suffix == PLUS then Range(f, p, s + 1, end, false, caps) else Range(f, p, s, end, suffix != STAR, caps)
  }

  lemma ItemMoves(src: Bytes, pat: Bytes, p: nat, s: nat, caps: Captures, ep: nat)
    requires p < |pat| && s <= |src| && Plain(pat, p) && ClassEnd(pat, p) == Some(ep)
    ensures Moves(src, pat, Point(p, s, caps)) == ItemSpan(ep, Suffix(pat, ep), s, Run(src, pat, s, p, ep), caps)
  {
  }

  /** The alternatives after a repetition of at most i characters, the longest first. */
  ghost function Upto(f: Point -> seq<Hit>, p: nat, s: nat, i: int, caps: Captures): seq<Hit> {
    if i < 0 then [] else Range(f, p, s, s + i, false, caps)
  }

  lemma Farthest(f: Point -> seq<Hit>, p: nat, s: nat, i: nat, caps: Captures)
    ensures First(Upto(f, p, s, i, caps), f(Point(p, s + i, caps)), Upto(f, p, s, i - 1, caps))
  {
  }

  lemma Nearest(f: Point -> seq<Hit>, p: nat, lo: nat, hi: nat, caps: Captures)
    requires lo <= hi
    ensures First(Range(f, p, lo, hi, true, caps), f(Point(p, lo, caps)),
                  if lo == hi then [] else Range(f, p, lo + 1, hi, true, caps))
  {
  }

  class MatchState {
    const src: Bytes
    const pat: Bytes
    ghost const hits: Point -> seq<Hit>
    var level: nat
    var depth: nat
    const capture: array<Capture>

    constructor (src: Bytes, pat: Bytes)
      ensures this.src == src && this.pat == pat && Valid() && level == 0 && depth == MAX_DEPTH && fresh(capture)
    {
      this.src, this.pat, level, depth := src, pat, 0, MAX_DEPTH;
      hits := c => if Inside(src, pat, c) then Hits(src, pat, c) else [];
      capture := new Capture[MAX_CAPTURES](_ => Capture(0, UNFINISHED));
    }

    ghost predicate Valid()
      reads this
    {
      level <= MAX_CAPTURES == capture.Length && Tells(hits, src, pat)
    }

    function Caps(): Captures
      requires Valid()
      reads this, capture
    {
      capture[..level]
    }

    /** The captures are these, and what is taken of the subject ends at s. */
    ghost predicate Ready(caps: Captures, s: nat)
      reads this, capture
    {
      Valid() && Caps() == caps && Before(caps, s) && depth >= 1 && s <= |src|
    }

    /** The answer o for the alternatives: the first of them, or none, and then the captures
        are as before. */
    ghost predicate Answers(alts: seq<Hit>, o: Outcome, before: Captures)
      requires Valid()
      reads this, capture
    {
      (match o
       case Raised(_) => alts != [] && alts[0] == Malformed
       case TooComplex => true
       case Crashed => alts != [] && alts[0] == Panic
       case Fail => alts == [] && Caps() == before
       case End(e) => alts != [] && alts[0] == Hit(e, Caps())) == true
    }

    method FindClassEnd(p0: nat) returns (r: Option<nat>)
      requires p0 < |pat|
      ensures r == ClassEnd(pat, p0)
    {
      var c, p := pat[p0], p0 + 1;
      if c == PERCENT {
        if p >= |pat| {
          return None;
        }
        return Some(p + 1);
      }
      if c == LBRACKET {
        if p < |pat| && pat[p] == CARET {
          p := p + 1;
        }
        while true
          invariant p <= |pat| && SetEnd(pat, p) == ClassEnd(pat, p0)
          decreases |pat| - p
        {
          if p >= |pat| {
            return None;
          }
          var cc := pat[p];
          p := p + 1;
          if cc == PERCENT && p < |pat| {
            p := p + 1;
          }
          if p < |pat| && pat[p] == RBRACKET {
            return Some(p + 1);
          }
          if p >= |pat| {
            return None;
          }
        }
      }
      return Some(p);
    }

    method MatchBracketClass(c: Byte, p0: nat, ec: nat) returns (b: bool)
      requires p0 < ec < |pat|
      ensures b == InSet(pat, c, p0, ec)
    {
      var sig, p := true, p0;
      if pat[p + 1] == CARET {
        sig := false;
        p := p + 1;
      }
      p := p + 1;
      while p < ec
        invariant p0 < p && InSet(pat, c, p0, ec) == (if InItems(pat, c, p, ec) then sig else !sig)
        decreases |pat| - p
      {
        if pat[p] == PERCENT {
          p := p + 1;
          if InClass(c, pat[p]) {
            return sig;
          }
        } else if p + 1 < ec && pat[p + 1] == MINUS && p + 2 < ec {
          if pat[p] <= c && c <= pat[p + 2] {
            return sig;
          }
          p := p + 2;
        } else if pat[p] == c {
          return sig;
        }
        p := p + 1;
      }
      return !sig;
    }

    method SingleMatch(s: nat, p: nat, ep: nat) returns (b: bool)
      requires p < |pat| && ClassEnd(pat, p) == Some(ep)
      ensures b == Single(src, pat, s, p, ep)
    {
      if s >= |src| {
        return false;
      }
      var c := src[s];
      if pat[p] == DOT {
        return true;
      } else if pat[p] == PERCENT {
        return InClass(c, pat[p + 1]);
      } else if pat[p] == LBRACKET {
        b := MatchBracketClass(c, p, ep - 1);
      } else {
        return pat[p] == c;
      }
    }

    /** matchBalance, at p the two delimiters. */
    method MatchBalance(s0: nat, p: nat) returns (t: Option<nat>)
      requires p + 1 < |pat| && s0 <= |src|
      ensures t == if s0 < |src| && src[s0] == pat[p] then Balance(src, s0 + 1, pat[p], pat[p + 1], 1) else None
      ensures s0 < |src| && src[s0] == pat[p] && pat[p] != pat[p + 1] ==>
                FirstEven(src, s0 + 1, pat[p], pat[p + 1], 1, t)
    {
      if s0 < |src| && pat[p] != pat[p + 1] { BalanceEven(src, s0 + 1, pat[p], pat[p + 1], 1); }
      if s0 >= |src| || src[s0] != pat[p] {
        return None;
      }
      var b, e, cont, s := pat[p], pat[p + 1], 1, s0 + 1;
      while s < |src|
        invariant s <= |src| && Balance(src, s, b, e, cont) == Balance(src, s0 + 1, b, e, 1)
      {
        if src[s] == e {
          cont := cont - 1;
          if cont == 0 {
            return Some(s + 1);
          }
        } else if src[s] == b {
          cont := cont + 1;
        }
        s := s + 1;
      }
      return None;
    }

    /** The items that match without recursion. */
    method Inline(s: nat, p: nat) returns (t: Turn)
      requires Valid() && p < |pat| && s <= |src| && Before(Caps(), s)
      ensures Turned(Point(p, s, Caps()), t)
    {
      if pat[p] == OPEN || pat[p] == CLOSE {
        return Fork;
      }
      if AtDollar(pat, p) {
        MovesTold(hits, src, pat, Point(p, s, Caps()));
        if s == |src| { EndTold(hits, src, pat, Point(p + 1, s, Caps())); }
        return if s == |src| then Stop(End(s)) else Stop(Fail);
      }
      if Escape(pat, p, LETTER_B) {
        t := InlineBalance(s, p);
      } else if Escape(pat, p, LETTER_F) {
        t := InlineFrontier(s, p);
      } else if BackReference(pat, p) {
        t := InlineReference(s, p);
      } else {
        t := InlineItem(s, p);
      }
    }

    ghost predicate Turned(c: Point, t: Turn)
      requires Valid() && Inside(src, pat, c) && c.p < |pat|
      reads this, capture
    {
      (match t
       case On(s, p) => c.p < p <= |pat| && s <= |src| && Moves(src, pat, c).(lazy := true) == Only(p, s, c.caps)
       case Stop(Raised(_)) => Breaks(pat, c.p, c.caps) && !Crashes(pat, c.p, c.caps)
       case Stop(TooComplex) => false
       case Stop(Crashed) => Crashes(pat, c.p, c.caps)
       case Stop(Fail) =>
         Moves(src, pat, c).lo > Moves(src, pat, c).hi && !Crashes(pat, c.p, c.caps) && !Breaks(pat, c.p, c.caps)
       case Stop(End(e)) => hits(c) == [Hit(e, c.caps)]
       case Fork =>
         pat[c.p] == OPEN || pat[c.p] == CLOSE ||
         (Plain(pat, c.p) && Suffix(pat, ClassEnd(pat, c.p).value) != 0
          && Single(src, pat, c.s, c.p, ClassEnd(pat, c.p).value))) == true
    }

    lemma TurnOn(c: Point, s: nat, p: nat)
      requires Valid() && Inside(src, pat, c) && c.p < |pat| && Before(c.caps, c.s) && Turned(c, On(s, p))
      ensures c.p < p <= |pat| && s <= |src| && Before(c.caps, s) && hits(Point(p, s, c.caps)) == hits(c)
    {
      MovesTold(hits, src, pat, c);
      SoundMove(src, pat, c, Point(p, s, c.caps));
      assert Range(hits, p, s, s, true, c.caps) == hits(Point(p, s, c.caps));
    }

    lemma TurnStop(c: Point, o: Outcome)
      requires Valid() && Inside(src, pat, c) && c.p < |pat| && Caps() == c.caps && Turned(c, Stop(o))
      ensures Answers(hits(c), o, c.caps) && !o.TooComplex?
    {
      MovesTold(hits, src, pat, c);
    }

    method InlineBalance(s: nat, p: nat) returns (t: Turn)
      requires Valid() && p < |pat| && s <= |src| && Escape(pat, p, LETTER_B)
      ensures Turned(Point(p, s, Caps()), t)
    {
      if p + 3 >= |pat| {
        return Stop(Raised("malformed pattern (missing arguments to '%b')"));
      }
      var e := MatchBalance(s, p + 2);
      return if e.None? then Stop(Fail) else On(e.value, p + 4);
    }

    method InlineFrontier(s: nat, p: nat) returns (t: Turn)
      requires Valid() && p < |pat| && s <= |src| && Escape(pat, p, LETTER_F)
      ensures Turned(Point(p, s, Caps()), t)
    {
      if p + 2 >= |pat| || pat[p + 2] != LBRACKET {
        return Stop(Raised("missing '[' after '%f' in pattern"));
      }
      var ep := FindClassEnd(p + 2);
      if ep.None? {
        return Stop(Raised("malformed pattern"));
      }
      FrontierMoves(src, pat, Point(p, s, Caps()), ep.value);
      var prev: Byte := if s != 0 then src[s - 1] else 0;
      var cur: Byte := if s < |src| then src[s] else 0;
      var b1 := MatchBracketClass(prev, p + 2, ep.value - 1);
      var b2 := MatchBracketClass(cur, p + 2, ep.value - 1);
      return if !b1 && b2 then On(s, ep.value) else Stop(Fail);
    }

    /** matchCapture: the text of an earlier capture again. A position has no text, and slicing for it
        panics. */
    method InlineReference(s: nat, p: nat) returns (t: Turn)
      requires Valid() && p < |pat| && s <= |src| && BackReference(pat, p) && Before(Caps(), s)
      ensures !Escape(pat, p, LETTER_B) && !Escape(pat, p, LETTER_F) && pat[p] != OPEN && pat[p] != CLOSE
              && !AtDollar(pat, p) ==>
                Turned(Point(p, s, Caps()), t)
      ensures t == Stop(Crashed) <==> Crashes(pat, p, Caps())
      ensures t.Stop? && t.o.Raised? <==> !(Crashes(pat, p, Caps()) || Refers(pat, p, Caps()))
    {
      var l := RefIndex(pat, p);
      if l < 0 || l >= level || capture[l].len == UNFINISHED {
        return Stop(Raised("invalid capture index"));
      }
      var x := capture[l];
      assert x == Caps()[l];
      if |src| - s >= x.len {
        if x.len < 0 || x.init + x.len > |src| {
          return Stop(Crashed);
        }
        if src[x.init..x.init + x.len] == src[s..s + x.len] {
          return On(s + x.len, p + 2);
        }
      }
      return Stop(Fail);
    }

    method InlineItem(s: nat, p: nat) returns (t: Turn)
      requires Valid() && p < |pat| && s <= |src| && pat[p] != OPEN && pat[p] != CLOSE && !AtDollar(pat, p)
      requires !Escape(pat, p, LETTER_B) && !Escape(pat, p, LETTER_F) && !BackReference(pat, p)
      ensures Turned(Point(p, s, Caps()), t)
    {
      var end := FindClassEnd(p);
      if end.None? {
        return Stop(Raised("malformed pattern"));
      }
      var ep := end.value;
      var one := SingleMatch(s, p, ep);
      var suffix := Suffix(pat, ep);
      if !one {
        if suffix == STAR || suffix == QUESTION || suffix == MINUS {
          return On(s, ep + 1);
        }
        return Stop(Fail);
      }
      return if suffix == 0 then On(s + 1, ep) else Fork;
    }

    /** The rest of the pattern after a repetition that ends at s: its ends come first among `all`. */
    method MatchRest(s0: nat, s: nat, p: nat, ghost all: seq<Hit>, ghost rest: seq<Hit>, ghost caps: Captures)
      returns (o: Outcome)
      requires Ready(caps, s0) && s0 <= s <= |src| && p <= |pat|
      requires First(all, hits(Point(p, s, caps)), rest)
      modifies this, capture
      ensures Valid() && (Whole(o) ==> depth == old(depth))
      ensures o != Fail ==> Answers(all, o, caps)
      ensures o == Fail ==> Caps() == caps && all == rest
      ensures Enough(pat, p, old(depth)) ==> !o.TooComplex?
      decreases |pat| - p, 5
    {
      o := Match(s, p, caps);
    }

    /** maxExpand: the longest repetition first. */
    method MaxExpand(s: nat, p: nat, ep: nat, ghost end: nat, ghost caps: Captures)
      returns (o: Outcome)
      requires Ready(caps, s) && p < |pat| && ClassEnd(pat, p) == Some(ep)
               && ep < |pat|
      requires end == s + Run(src, pat, s, p, ep)
      modifies this, capture
      ensures Valid() && (Whole(o) ==> depth == old(depth))
      ensures Answers(Range(hits, ep + 1, s, end, false, caps), o, caps)
      ensures Enough(pat, ep + 1, old(depth)) ==> !o.TooComplex?
      decreases |pat| - p, 0
    {
      var i: int := CountRun(s, p, ep);
      ghost var all := Upto(hits, ep + 1, s, i, caps);
      while i >= 0
        invariant -1 <= i && s + i <= |src| && Valid() && depth == old(depth) && Caps() == caps
        invariant all == Upto(hits, ep + 1, s, i, caps)
        decreases i
      {
        o := MatchAfter(s, i, ep + 1, all, caps);
        if o != Fail {
          return;
        }
        i := i - 1;
      }
      return Fail;
    }

    /** The rest of the pattern after i characters: the first of the alternatives after at most i. */
    method MatchAfter(s: nat, i: nat, p: nat, ghost all: seq<Hit>, ghost caps: Captures)
      returns (o: Outcome)
      requires Ready(caps, s) && s + i <= |src| && p <= |pat|
      requires all == Upto(hits, p, s, i, caps)
      modifies this, capture
      ensures Valid() && (Whole(o) ==> depth == old(depth))
      ensures o != Fail ==> Answers(all, o, caps)
      ensures o == Fail ==> Caps() == caps && all == Upto(hits, p, s, i - 1, caps)
      ensures Enough(pat, p, old(depth)) ==> !o.TooComplex?
      decreases |pat| - p, 6
    {
      Farthest(hits, p, s, i, caps);
      o := MatchRest(s, s + i, p, all, Upto(hits, p, s, i - 1, caps), caps);
    }

    method CountRun(s: nat, p: nat, ep: nat) returns (i: nat)
      requires s <= |src| && p < |pat| && ClassEnd(pat, p) == Some(ep)
      ensures i == Run(src, pat, s, p, ep)
    {
      i := 0;
      var more := SingleMatch(s, p, ep);
      while more
        invariant s + i <= |src| && Run(src, pat, s, p, ep) == i + Run(src, pat, s + i, p, ep)
                  && more == Single(src, pat, s + i, p, ep)
        decreases |src| - (s + i)
      {
        i := i + 1;
        more := SingleMatch(s + i, p, ep);
      }
    }

    /** minExpand: the shortest repetition first. */
    method MinExpand(s0: nat, p: nat, ep: nat, ghost end: nat, ghost caps: Captures)
      returns (o: Outcome)
      requires Ready(caps, s0) && p < |pat| && ClassEnd(pat, p) == Some(ep)
               && ep < |pat|
      requires end == s0 + Run(src, pat, s0, p, ep)
      modifies this, capture
      ensures Valid() && (Whole(o) ==> depth == old(depth))
      ensures Answers(Range(hits, ep + 1, s0, end, true, caps), o, caps)
      ensures Enough(pat, ep + 1, old(depth)) ==> !o.TooComplex?
      decreases |pat| - p, 0
    {
      ghost var all := Range(hits, ep + 1, s0, end, true, caps);
      var s := s0;
      while true
        invariant s0 <= s <= end <= |src| && Valid() && depth == old(depth) && Caps() == caps
                  && end == s + Run(src, pat, s, p, ep)
        invariant all == Range(hits, ep + 1, s, end, true, caps)
        decreases |src| - s
      {
        Nearest(hits, ep + 1, s, end, caps);
        o := MatchRest(s0, s, ep + 1, all, if s == end then [] else Range(hits, ep + 1, s + 1, end, true, caps),
                       caps);
        if o != Fail {
          return;
        }
        var one := SingleMatch(s, p, ep);
        if !one {
          return Fail;
        }
        s := s + 1;
      }
    }

    /** startCapture: a new capture, dropped again on failure; p0 is where the pattern opens it. */
    method StartCapture(s: nat, p: nat, what: int, ghost p0: nat, ghost caps: Captures)
      returns (o: Outcome)
      requires Ready(caps, s) && p0 < p <= |pat| && pat[p0] == OPEN && (what == POSITION || what == UNFINISHED)
      requires Moves(src, pat, Point(p0, s, caps)) ==
               if |caps| >= MAX_CAPTURES then Nowhere() else Only(p, s, caps + [Capture(s, what)])
      modifies this, capture
      ensures Valid() && (Whole(o) ==> depth == old(depth))
      ensures Answers(hits(Point(p0, s, caps)), o, caps)
      ensures Enough(pat, p, old(depth)) ==> !o.TooComplex?
      decreases |pat| - p, 5
    {
      MovesTold(hits, src, pat, Point(p0, s, caps));
      if level >= MAX_CAPTURES {
        return Raised("too many captures");
      }
      capture[level] := Capture(s, what);
      level := level + 1;
      assert Caps() == caps + [Capture(s, what)];
      o := Match(s, p, caps + [Capture(s, what)]);
      if o == Fail {
        ghost var now := Caps();
        level := level - 1;
        assert Caps() == now[..|now| - 1] == caps;
      }
    }

    /** endCapture: the last open capture is closed, and opened again on failure. */
    method EndCapture(s: nat, p: nat, ghost caps: Captures) returns (o: Outcome)
      requires Ready(caps, s) && 0 < p <= |pat| && pat[p - 1] == CLOSE
      modifies this, capture
      ensures Valid() && (Whole(o) ==> depth == old(depth))
      ensures Answers(hits(Point(p - 1, s, caps)), o, caps)
      ensures Enough(pat, p, old(depth)) ==> !o.TooComplex?
      decreases |pat| - p, 5
    {
      var l := FindOpen();
      MovesTold(hits, src, pat, Point(p - 1, s, caps));
      if l < 0 {
        return Raised("invalid pattern capture");
      }
      ShapeClosed(caps, s);
      capture[l] := Capture(capture[l].init, s - capture[l].init);
      assert Caps() == Closed(caps, s);
      o := Match(s, p, Closed(caps, s));
      if o == Fail {
        assert Caps() == Closed(caps, s);
        assert Caps()[l].init == caps[l].init;
        capture[l] := Capture(capture[l].init, UNFINISHED);
        assert Caps() == Closed(caps, s)[l := caps[l]] == caps;
      }
    }

    method FindOpen() returns (l: int)
      requires Valid()
      ensures l == LastOpen(Caps())
    {
      l := level - 1;
      while l >= 0
        invariant -1 <= l < level && LastOpen(Caps()) == LastOpen(Caps()[..l + 1])
      {
        if capture[l].len == UNFINISHED {
          return;
        }
        assert Caps()[..l + 1][..l] == Caps()[..l];
        l := l - 1;
      }
    }

    /** match: the first match from s0 on, if the run does not raise. */
    method Match(s0: nat, p0: nat, ghost caps: Captures) returns (o: Outcome)
      requires Ready(caps, s0) && p0 <= |pat|
      modifies this, capture
      ensures Valid() && (Whole(o) ==> depth == old(depth))
      ensures Answers(hits(Point(p0, s0, caps)), o, caps)
      ensures Enough(pat, p0, old(depth)) ==> !o.TooComplex?
      decreases |pat| - p0, 4
    {
      ghost var c0 := Point(p0, s0, caps);
      depth := depth - 1;
      if depth == 0 {
        return TooComplex;
      }
      var s: nat, p: nat := s0, p0;
      while p != |pat|
        invariant p0 <= p <= |pat| && Ready(caps, s) && depth == old(depth) - 1
        invariant hits(Point(p, s, caps)) == hits(c0)
        decreases |pat| - p
      {
        ghost var c := Point(p, s, caps);
        var t := Inline(s, p);
        match t {
          case On(s', p') =>
            TurnOn(c, s', p');
            s, p := s', p';
          case Stop(o') =>
            TurnStop(c, o');
            depth := depth + 1;
            return o';
          case Fork =>
            var done;
            done, o, s, p := Recurse(s, p, caps);
            if done {
              depth := if Whole(o) then depth + 1 else depth;
              return;
            }
            SoundMove(src, pat, c, Point(p, s, caps));
        }
      }
      EndTold(hits, src, pat, Point(p, s, caps));
      depth := depth + 1;
      return End(s);
    }

    /** The items that recur; after an optional item without it, the loop goes on (done is false). */
    method Recurse(s: nat, p: nat, ghost caps: Captures)
      returns (done: bool, o: Outcome, s': nat, p': nat)
      requires Ready(caps, s) && p < |pat| && Turned(Point(p, s, caps), Fork)
      modifies this, capture
      ensures Valid() && (Whole(o) ==> depth == old(depth))
      ensures done ==> Answers(hits(Point(p, s, caps)), o, caps)
      ensures !done ==> o == Fail && p < p' <= |pat| && s' <= |src| && Caps() == caps
                        && Reaches(Moves(src, pat, Point(p, s, caps)), Point(p', s', caps))
                        && hits(Point(p', s', caps)) == hits(Point(p, s, caps))
      ensures Enough(pat, p + 1, old(depth)) ==> !o.TooComplex?
      decreases |pat| - p, 3
    {
      done, s', p' := true, s, p;
      ghost var c := Point(p, s, caps);
      if pat[p] == OPEN {
        if p + 1 < |pat| && pat[p + 1] == CLOSE {
          o := StartCapture(s, p + 2, POSITION, p, caps);
        } else {
          o := StartCapture(s, p + 1, UNFINISHED, p, caps);
        }
      } else if pat[p] == CLOSE {
        o := EndCapture(s, p + 1, caps);
      } else {
        done, o, s', p' := RecurseItem(s, p, caps);
      }
    }

    method RecurseItem(s: nat, p: nat, ghost caps: Captures)
      returns (done: bool, o: Outcome, s': nat, p': nat)
      requires Ready(caps, s) && p < |pat| && Plain(pat, p)
      requires var ep := ClassEnd(pat, p).value; Suffix(pat, ep) != 0 && Single(src, pat, s, p, ep)
      modifies this, capture
      ensures Valid() && (Whole(o) ==> depth == old(depth))
      ensures done ==> Answers(hits(Point(p, s, caps)), o, caps)
      ensures !done ==> o == Fail && p < p' <= |pat| && s' <= |src| && Caps() == caps
                        && Reaches(Moves(src, pat, Point(p, s, caps)), Point(p', s', caps))
                        && hits(Point(p', s', caps)) == hits(Point(p, s, caps))
      ensures Enough(pat, p + 1, old(depth)) ==> !o.TooComplex?
      decreases |pat| - p, 2
    {
      done, s', p' := true, s, p;
      var end := FindClassEnd(p);
      var ep := end.value;
      ItemHits(hits, src, pat, p, s, caps, ep);
      if pat[ep] == QUESTION {
        o := Match(s + 1, ep + 1, caps);
        if o == Fail {
          done, s', p' := false, s, ep + 1;
        }
      } else {
        o := Repeat(s, p, ep, hits(Point(p, s, caps)), caps);
      }
    }

    /** An item that is repeated. */
    method Repeat(s: nat, p: nat, ep: nat, ghost all: seq<Hit>, ghost caps: Captures)
      returns (o: Outcome)
      requires Ready(caps, s) && s < |src| && p < |pat| && ClassEnd(pat, p) == Some(ep)
               && ep < |pat|
      requires s + Run(src, pat, s, p, ep) == s + 1 + Run(src, pat, s + 1, p, ep)
      requires all == Repeated(hits, pat[ep], ep + 1, s, s + Run(src, pat, s, p, ep), caps)
      modifies this, capture
      ensures Valid() && (Whole(o) ==> depth == old(depth))
      ensures Answers(all, o, caps)
      ensures Enough(pat, ep + 1, old(depth)) ==> !o.TooComplex?
      decreases |pat| - p, 1
    {
      if pat[ep] == PLUS {
        o := MaxExpand(s + 1, p, ep, s + Run(src, pat, s, p, ep), caps);
      } else if pat[ep] == STAR {
        o := MaxExpand(s, p, ep, s + Run(src, pat, s, p, ep), caps);
      } else {
        o := MinExpand(s, p, ep, s + Run(src, pat, s, p, ep), caps);
      }
    }
  }
}
