/**
 Lua patterns: what a pattern matches, and the backtracking matcher with its mutable captures.
 */
module Pattern {
  import opened Options
  import opened ByteStrings

  const UNFINISHED := -1
  const POSITION := -2
  const MAX_CAPTURES := 32
  const MAX_DEPTH := 200

  const PERCENT: Byte := '%' as int
  const OPEN: Byte := '(' as int
  const CLOSE: Byte := ')' as int
  const STAR: Byte := '*' as int
  const PLUS: Byte := '+' as int
  const MINUS: Byte := '-' as int
  const DOT: Byte := '.' as int
  const QUESTION: Byte := '?' as int
  const LBRACKET: Byte := '[' as int
  const RBRACKET: Byte := ']' as int
  const CARET: Byte := '^' as int
  const DOLLAR: Byte := '$' as int
  const LETTER_B: Byte := 'b' as int
  const LETTER_F: Byte := 'f' as int

  // ---------------------------------------------------------------------------------------------
  // Single characters

  predicate IsLower(c: Byte) {
    97 <= c <= 122
  }

  predicate IsUpper(c: Byte) {
    65 <= c <= 90
  }

  predicate IsAlpha(c: Byte) {
    IsLower(c) || IsUpper(c)
  }

  /** c | 0x20. */
  function Lowered(c: Byte): Byte {
    if c / 32 % 2 == 0 then c + 32 else c
  }

  /** matchClass: a class letter, negated when it is a capital; any other character is itself. */
  predicate InClass(c: Byte, cl: Byte) {
    var l := Lowered(cl);
    if l == 97 then IsUpper(cl) != IsAlpha(c)
    else if l == 99 then IsUpper(cl) != (c < 32 || c == 127)
    else if l == 100 then IsUpper(cl) != IsDigit(c)
    else if l == 103 then IsUpper(cl) != (32 < c < 127)
    else if l == 108 then IsUpper(cl) != IsLower(c)
    else if l == 112 then IsUpper(cl) != (32 < c < 127 && !IsAlpha(c) && !IsDigit(c))
    else if l == 115 then IsUpper(cl) != (c == 32 || 9 <= c <= 13)
    else if l == 117 then IsUpper(cl) != IsUpper(c)
    else if l == 119 then IsUpper(cl) != (IsAlpha(c) || IsDigit(c))
    else if l == 120 then IsUpper(cl) != (IsDigit(c) || 97 <= Lowered(c) <= 102)
    else if l == 122 then IsUpper(cl) != (c == 0)
    else cl == c
  }

  /** The end of a set whose next item starts at q; None is a malformed pattern. */
  function SetEnd(pat: Bytes, q: nat): (r: Option<nat>)
    requires q <= |pat|
    ensures r.Some? ==> q + 1 < r.value <= |pat|
    decreases |pat| - q
  {
    if q >= |pat| then None
    else
      var q' := if pat[q] == PERCENT && q + 1 < |pat| then q + 2 else q + 1;
      if q' >= |pat| then None
      else if pat[q'] == RBRACKET then Some(q' + 1)
      else SetEnd(pat, q')
  }

  /** classEnd. */
  function ClassEnd(pat: Bytes, p: nat): (r: Option<nat>)
    requires p < |pat|
    ensures r.Some? ==> p < r.value <= |pat|
    ensures r.Some? && pat[p] == PERCENT ==> p + 1 < r.value
    ensures r.Some? && pat[p] == LBRACKET ==> p + 2 < r.value
  {
    if pat[p] == PERCENT then (if p + 1 >= |pat| then None else Some(p + 2))
    else if pat[p] == LBRACKET then SetEnd(pat, if p + 1 < |pat| && pat[p + 1] == CARET then p + 2 else p + 1)
    else Some(p + 1)
  }

  /** Some item of the set from q up to its closing bracket at ec has c. */
  predicate InItems(pat: Bytes, c: Byte, q: nat, ec: nat)
    requires ec < |pat|
    decreases |pat| - q
  {
    if q >= ec then false
    else if pat[q] == PERCENT then InClass(c, pat[q + 1]) || InItems(pat, c, q + 2, ec)
    else if q + 1 < ec && pat[q + 1] == MINUS && q + 2 < ec then
      pat[q] <= c <= pat[q + 2] || InItems(pat, c, q + 3, ec)
    else pat[q] == c || InItems(pat, c, q + 1, ec)
  }

  /** matchBracketClass. */
  predicate InSet(pat: Bytes, c: Byte, p: nat, ec: nat)
    requires p < ec < |pat|
  {
    if pat[p + 1] == CARET then !InItems(pat, c, p + 2, ec) else InItems(pat, c, p + 1, ec)
  }

  /** singleMatch: the item from p up to ep takes the character at s. */
  predicate Single(src: Bytes, pat: Bytes, s: nat, p: nat, ep: nat)
    requires p < |pat| && ClassEnd(pat, p) == Some(ep)
  {
    s < |src| &&
    if pat[p] == DOT then true
    else if pat[p] == PERCENT then InClass(src[s], pat[p + 1])
    else if pat[p] == LBRACKET then InSet(pat, src[s], p, ep - 1)
    else pat[p] == src[s]
  }

  /** How many characters in a row the item takes from s on. */
  function Run(src: Bytes, pat: Bytes, s: nat, p: nat, ep: nat): (n: nat)
    requires p < |pat| && ClassEnd(pat, p) == Some(ep) && s <= |src|
    ensures s + n <= |src|
    decreases |src| - s
  {
    if Single(src, pat, s, p, ep) then 1 + Run(src, pat, s + 1, p, ep) else 0
  }

  /** The end of the balanced span, cont of whose openings are still to be closed at s. */
  function Balance(src: Bytes, s: nat, b: Byte, e: Byte, cont: int): (r: Option<nat>)
    requires s <= |src|
    ensures r.Some? ==> s < r.value <= |src|
    decreases |src| - s
  {
    if s == |src| then None
    else if src[s] == e then (if cont - 1 == 0 then Some(s + 1) else Balance(src, s + 1, b, e, cont - 1))
    else Balance(src, s + 1, b, e, if src[s] == b then cont + 1 else cont)
  }

  /** How often c occurs from s to t. */
  function Occurs(src: Bytes, c: Byte, s: nat, t: nat): nat
    requires s <= t <= |src|
    decreases t - s
  {
    if s == t then 0 else (if src[s] == c then 1 else 0) + Occurs(src, c, s + 1, t)
  }

  /** After s, and cont openings before it, there are at t as many closings as openings. */
  predicate Even(src: Bytes, s: nat, b: Byte, e: Byte, cont: int, t: nat) {
    s < t <= |src| && cont + Occurs(src, b, s, t) == Occurs(src, e, s, t)
  }

  /** t is the first such place. */
  ghost predicate FirstEven(src: Bytes, s: nat, b: Byte, e: Byte, cont: int, t: Option<nat>) {
    && (t.Some? ==> Even(src, s, b, e, cont, t.value))
    && forall u: nat :: Even(src, s, b, e, cont, u) ==> t.Some? && t.value <= u
  }

  /** The balanced text ends at the first place where the closings are as many as the openings. */
  lemma {:induction false} BalanceEven(src: Bytes, s: nat, b: Byte, e: Byte, cont: int)
    requires s <= |src| && b != e && cont >= 1
    ensures FirstEven(src, s, b, e, cont, Balance(src, s, b, e, cont))
    decreases |src| - s
  {
    if s < |src| {
      var cont' := if src[s] == e then cont - 1 else if src[s] == b then cont + 1 else cont;
      if cont' >= 1 { BalanceEven(src, s + 1, b, e, cont'); }
      forall u: nat | s < u <= |src|
        ensures Even(src, s, b, e, cont, u) <==> if u == s + 1 then cont' == 0 else Even(src, s + 1, b, e, cont', u) {
        assert Occurs(src, b, u, u) == Occurs(src, e, u, u) == 0;
      }
    }
  }

  /** With one delimiter for both, the text ends with the next one. */
  lemma {:induction false} BalanceSame(src: Bytes, s: nat, e: Byte)
    requires s <= |src|
    ensures var t := Balance(src, s, e, e, 1);
            && (t.Some? ==> src[t.value - 1] == e && forall k :: s <= k < t.value - 1 ==> src[k] != e)
            && (t.None? ==> forall k :: s <= k < |src| ==> src[k] != e)
    decreases |src| - s
  {
    if s < |src| && src[s] != e { BalanceSame(src, s + 1, e); }
  }

  /** `%f`: the character before s is outside the set and the one at s is in it; both ends count
      as zero bytes. */
  predicate Frontier(src: Bytes, pat: Bytes, s: nat, p: nat, ec: nat)
    requires p < ec < |pat| && s <= |src|
  {
    var prev := if s > 0 then src[s - 1] else 0;
    var cur := if s < |src| then src[s] else 0;
    !InSet(pat, prev, p, ec) && InSet(pat, cur, p, ec)
  }

  // ---------------------------------------------------------------------------------------------
  // What a pattern matches

  datatype Capture = Capture(init: nat, len: int)

  type Captures = seq<Capture>

  /** The last capture not yet closed, or -1. */
  function LastOpen(caps: Captures): (l: int)
    ensures -1 <= l < |caps| && (l >= 0 ==> caps[l].len == UNFINISHED)
    ensures forall i :: l < i < |caps| ==> caps[i].len != UNFINISHED
  {
    if caps == [] then -1
    else if caps[|caps| - 1].len == UNFINISHED then |caps| - 1
    else LastOpen(caps[..|caps| - 1])
  }

  function Closed(caps: Captures, s: nat): Captures
    requires LastOpen(caps) >= 0
  {
    var l := LastOpen(caps);
    caps[l := Capture(caps[l].init, s - caps[l].init)]
  }

  predicate Escape(pat: Bytes, p: nat, c: Byte) {
    p + 1 < |pat| && pat[p] == PERCENT && pat[p + 1] == c
  }

  predicate BackReference(pat: Bytes, p: nat) {
    p + 1 < |pat| && pat[p] == PERCENT && IsDigit(pat[p + 1])
  }

  function RefIndex(pat: Bytes, p: nat): int
    requires BackReference(pat, p)
  {
    pat[p + 1] as int - 49
  }

  /** The reference is to a capture that is complete and has text. */
  predicate Refers(pat: Bytes, p: nat, caps: Captures)
    requires BackReference(pat, p)
  {
    0 <= RefIndex(pat, p) < |caps| && caps[RefIndex(pat, p)].len >= 0
  }

  function Referred(pat: Bytes, p: nat, caps: Captures): Capture
    requires BackReference(pat, p) && Refers(pat, p, caps)
  {
    caps[RefIndex(pat, p)]
  }

  /** The reference is to a position capture, which has no text: slicing for it panics. */
  predicate Crashes(pat: Bytes, p: nat, caps: Captures) {
    BackReference(pat, p) && 0 <= RefIndex(pat, p) < |caps| && caps[RefIndex(pat, p)].len == POSITION
  }

  /** The text of the capture occurs again at s. */
  predicate SameText(src: Bytes, x: Capture, s: nat)
    requires x.len >= 0
  {
    x.init + x.len <= |src| && s + x.len <= |src| && src[x.init..x.init + x.len] == src[s..s + x.len]
  }

  /** The suffix after an item, or 0. */
  function Suffix(pat: Bytes, ep: nat): Byte {
    if ep < |pat| && (pat[ep] == STAR || pat[ep] == PLUS || pat[ep] == MINUS || pat[ep] == QUESTION) then pat[ep] else 0
  }

  /** A point of a match: the pattern from p on is to be matched from s on, with these captures. */
  datatype Point = Point(p: nat, s: nat, caps: Captures)

  predicate Inside(src: Bytes, pat: Bytes, c: Point) {
    c.p <= |pat| && c.s <= |src|
  }

  predicate AtDollar(pat: Bytes, p: nat) {
    p + 1 == |pat| && pat[p] == DOLLAR
  }

  /** A single-character item, with its suffix if it has one. */
  predicate Plain(pat: Bytes, p: nat)
    requires p < |pat|
  {
    && pat[p] != OPEN && pat[p] != CLOSE && !AtDollar(pat, p)
    && !Escape(pat, p, LETTER_B) && !Escape(pat, p, LETTER_F) && !BackReference(pat, p) && ClassEnd(pat, p).Some?
  }

  /** The item at p is malformed: too many captures or none to close, a missing argument or bracket, or
      a reference to what is no capture or still open. */
  predicate Breaks(pat: Bytes, p: nat, caps: Captures)
    requires p < |pat|
  {
    if pat[p] == OPEN then |caps| >= MAX_CAPTURES
    else if pat[p] == CLOSE then LastOpen(caps) < 0
    else if AtDollar(pat, p) then false
    else if Escape(pat, p, LETTER_B) then p + 3 >= |pat|
    else if Escape(pat, p, LETTER_F) then p + 2 >= |pat| || pat[p + 2] != LBRACKET || ClassEnd(pat, p + 2).None?
    else if BackReference(pat, p) then !Refers(pat, p, caps) && !Crashes(pat, p, caps)
    else ClassEnd(pat, p).None?
  }

  /**
   The pattern item at c.p can take the subject from c.s to d.s and leave the captures of d:
   section 6.4.1 of the Lua 5.4 Reference Manual.
   */
  ghost predicate Leads(src: Bytes, pat: Bytes, c: Point, d: Point)
    requires Inside(src, pat, c) && c.p < |pat|
  {
    var p, s, caps := c.p, c.s, c.caps;
    if pat[p] == OPEN then
      && |caps| < MAX_CAPTURES && d.s == s
      && if p + 1 < |pat| && pat[p + 1] == CLOSE then d.p == p + 2 && d.caps == caps + [Capture(s, POSITION)]
         else d.p == p + 1 && d.caps == caps + [Capture(s, UNFINISHED)]
    else if pat[p] == CLOSE then
      LastOpen(caps) >= 0 && d == Point(p + 1, s, Closed(caps, s))
    else if AtDollar(pat, p) then
      s == |src| && d == Point(p + 1, s, caps)
    else if Escape(pat, p, LETTER_B) then
      && p + 3 < |pat| && s < |src| && src[s] == pat[p + 2]
      && Balance(src, s + 1, pat[p + 2], pat[p + 3], 1) == Some(d.s) && d.p == p + 4 && d.caps == caps
    else if Escape(pat, p, LETTER_F) then
      && p + 2 < |pat| && pat[p + 2] == LBRACKET && ClassEnd(pat, p + 2) == Some(d.p) && d.s == s && d.caps == caps
      && Frontier(src, pat, s, p + 2, d.p - 1)
    else if BackReference(pat, p) then
      Refers(pat, p, caps) && d == Point(p + 2, s + Referred(pat, p, caps).len, caps)
        && SameText(src, Referred(pat, p, caps), s)
    else if !Plain(pat, p) then
      false
    else
      var ep := ClassEnd(pat, p).value;
      var suffix := Suffix(pat, ep);
      && d.caps == caps && s <= d.s && Takes(src, pat, s, p, ep, d.s - s)
      && if suffix == 0 then d.p == ep && d.s == s + 1 else d.p == ep + 1 && Allowed(suffix, d.s - s)
  }

  /** The item takes each of the n characters from s on. */
  ghost predicate Takes(src: Bytes, pat: Bytes, s: nat, p: nat, ep: nat, n: nat)
    requires p < |pat| && ClassEnd(pat, p) == Some(ep)
  {
    s + n <= |src| && forall i :: s <= i < s + n ==> Single(src, pat, i, p, ep)
  }

  /** How often a suffix lets its item occur. */
  predicate Allowed(suffix: Byte, n: nat) {
    (suffix == PLUS ==> n >= 1) && (suffix == QUESTION ==> n <= 1)
  }

  /** Where a match ends, and the captures it leaves; or a panic on the way. */
  datatype Hit = Hit(end: nat, caps: Captures) | Panic | Malformed

  /** The whole pattern from c on can match, and end in h; or some way through it comes to a
      reference that panics. */
  ghost predicate Matches(src: Bytes, pat: Bytes, c: Point, h: Hit)
    requires Inside(src, pat, c)
    decreases |pat| - c.p
  {
    if c.p == |pat| then h == Hit(c.s, c.caps)
    else if Crashes(pat, c.p, c.caps) then h == Panic
    else if Breaks(pat, c.p, c.caps) then h == Malformed
    else exists d :: Leads(src, pat, c, d) && c.p < d.p && Inside(src, pat, d) && Matches(src, pat, d, h)
  }

  // ---------------------------------------------------------------------------------------------
  // In which order the alternatives are tried

  function Least(suffix: Byte): nat {
    if suffix == PLUS then 1 else 0
  }

  function Most(suffix: Byte, run: nat): nat {
    if suffix == QUESTION && run > 1 then 1 else run
  }

  /** The points after an item: the pattern goes on at p, after lo..hi characters of the subject; the
      nearest first if lazy, else the farthest. None if lo > hi. */
  datatype Span = Span(p: nat, lo: nat, hi: int, lazy: bool, caps: Captures)

  function Only(p: nat, s: nat, caps: Captures): Span {
    Span(p, s, s, true, caps)
  }

  function Nowhere(): Span {
    Span(0, 1, 0, true, [])
  }

  predicate Reaches(sp: Span, d: Point) {
    d.p == sp.p && d.caps == sp.caps && sp.lo <= d.s <= sp.hi
  }

  /** Where backtracking goes on after the item at c.p. */
  function Moves(src: Bytes, pat: Bytes, c: Point): (sp: Span)
    requires Inside(src, pat, c) && c.p < |pat|
    ensures sp.lo <= sp.hi ==> c.p < sp.p <= |pat| && c.s <= sp.lo && sp.hi <= |src|
  {
    var p, s, caps := c.p, c.s, c.caps;
    if pat[p] == OPEN then
      if |caps| >= MAX_CAPTURES then Nowhere()
      else if p + 1 < |pat| && pat[p + 1] == CLOSE then Only(p + 2, s, caps + [Capture(s, POSITION)])
      else Only(p + 1, s, caps + [Capture(s, UNFINISHED)])
    else if pat[p] == CLOSE then
      if LastOpen(caps) < 0 then Nowhere() else Only(p + 1, s, Closed(caps, s))
    else if AtDollar(pat, p) then
      if s == |src| then Only(p + 1, s, caps) else Nowhere()
    else if Escape(pat, p, LETTER_B) then
      if p + 3 >= |pat| || s >= |src| || src[s] != pat[p + 2] then Nowhere()
      else
        var t := Balance(src, s + 1, pat[p + 2], pat[p + 3], 1);
        if t.None? then Nowhere() else Only(p + 4, t.value, caps)
    else if Escape(pat, p, LETTER_F) then
      if p + 2 >= |pat| || pat[p + 2] != LBRACKET || ClassEnd(pat, p + 2).None? then Nowhere()
      else
        var ep := ClassEnd(pat, p + 2).value;
        if Frontier(src, pat, s, p + 2, ep - 1) then Only(ep, s, caps) else Nowhere()
    else if BackReference(pat, p) then
      if Refers(pat, p, caps) && SameText(src, Referred(pat, p, caps), s) then
        Only(p + 2, s + Referred(pat, p, caps).len, caps)
      else Nowhere()
    else if !Plain(pat, p) then
      Nowhere()
    else
      ItemSpan(ClassEnd(pat, p).value, Suffix(pat, ClassEnd(pat, p).value), s,
               Run(src, pat, s, p, ClassEnd(pat, p).value), caps)
  }

  /** An item that can take up to run characters, with its suffix. */
  function ItemSpan(ep: nat, suffix: Byte, s: nat, run: nat, caps: Captures): Span {
    if suffix == 0 then (if run > 0 then Only(ep, s + 1, caps) else Nowhere())
    else Span(ep + 1, s + Least(suffix), s + Most(suffix, run), suffix == MINUS, caps)
  }

  /** Every match from c, every panic and every malformed item, in the order in which backtracking comes to it. */
  function Hits(src: Bytes, pat: Bytes, c: Point): seq<Hit>
    requires Inside(src, pat, c)
    decreases |pat| - c.p, 0
  {
    if c.p == |pat| then [Hit(c.s, c.caps)]
    else if Crashes(pat, c.p, c.caps) then [Panic]
    else if Breaks(pat, c.p, c.caps) then [Malformed]
    else
      var sp := Moves(src, pat, c);
      if sp.lo > sp.hi then [] else Alternatives(src, pat, sp.p, sp.lo, sp.hi, sp.lazy, sp.caps)
  }

  function Alternatives(src: Bytes, pat: Bytes, p: nat, lo: nat, hi: nat, lazy: bool, caps: Captures): seq<Hit>
    requires p <= |pat| && lo <= hi <= |src|
    decreases |pat| - p, hi - lo + 1
  {
    if lo == hi then Hits(src, pat, Point(p, lo, caps))
    else if lazy then Hits(src, pat, Point(p, lo, caps)) + Alternatives(src, pat, p, lo + 1, hi, lazy, caps)
    else Hits(src, pat, Point(p, hi, caps)) + Alternatives(src, pat, p, lo, hi - 1, lazy, caps)
  }

  lemma {:induction false} RunTakes(src: Bytes, pat: Bytes, s: nat, p: nat, ep: nat, n: nat)
    requires p < |pat| && ClassEnd(pat, p) == Some(ep) && s <= |src|
    ensures Takes(src, pat, s, p, ep, n) <==> n <= Run(src, pat, s, p, ep)
    decreases |src| - s
  {
    if n > 0 && Single(src, pat, s, p, ep) {
      RunTakes(src, pat, s + 1, p, ep, n - 1);
      if Takes(src, pat, s + 1, p, ep, n - 1) {
        forall i | s <= i < s + n ensures Single(src, pat, i, p, ep) { }
      }
    } else if n > 0 && s + n <= |src| {
      assert !Takes(src, pat, s, p, ep, n);
    }
  }

  /** The alternatives of one item are what the item can take. */
  lemma MovesLead(src: Bytes, pat: Bytes, c: Point, d: Point)
    requires Inside(src, pat, c) && c.p < |pat|
    ensures Reaches(Moves(src, pat, c), d) <==> Leads(src, pat, c, d)
  {
    if Plain(pat, c.p) { ItemLeads(src, pat, c, d); }
  }

  lemma ItemLeads(src: Bytes, pat: Bytes, c: Point, d: Point)
    requires Inside(src, pat, c) && c.p < |pat| && Plain(pat, c.p)
    ensures Reaches(Moves(src, pat, c), d) <==> Leads(src, pat, c, d)
  {
    if c.s <= d.s { RunTakes(src, pat, c.s, c.p, ClassEnd(pat, c.p).value, d.s - c.s); }
  }

  /** The alternatives after lo..hi characters, given those of every point. */
  ghost function Range(f: Point -> seq<Hit>, p: nat, lo: nat, hi: nat, lazy: bool, caps: Captures): seq<Hit>
    requires lo <= hi
    decreases hi - lo
  {
    if lo == hi then f(Point(p, lo, caps))
    else if lazy then f(Point(p, lo, caps)) + Range(f, p, lo + 1, hi, lazy, caps)
    else f(Point(p, hi, caps)) + Range(f, p, lo, hi - 1, lazy, caps)
  }

  /** f gives the alternatives of every point. (A separate predicate for each point keeps the
      verifier from expanding the alternatives wherever they are only passed on.) */
  ghost predicate Tells(f: Point -> seq<Hit>, src: Bytes, pat: Bytes) {
    forall c :: Told(f, src, pat, c)
  }

  ghost predicate Told(f: Point -> seq<Hit>, src: Bytes, pat: Bytes, c: Point) {
    Inside(src, pat, c) ==> f(c) == Hits(src, pat, c)
  }

  lemma {:induction false} RangeTold(f: Point -> seq<Hit>, src: Bytes, pat: Bytes, p: nat, lo: nat, hi: nat,
                                     lazy: bool, caps: Captures)
    requires Tells(f, src, pat) && p <= |pat| && lo <= hi <= |src|
    ensures Range(f, p, lo, hi, lazy, caps) == Alternatives(src, pat, p, lo, hi, lazy, caps)
    decreases hi - lo
  {
    assert Told(f, src, pat, Point(p, lo, caps)) && Told(f, src, pat, Point(p, hi, caps));
    if lo < hi {
      if lazy {
        RangeTold(f, src, pat, p, lo + 1, hi, lazy, caps);
      } else {
        RangeTold(f, src, pat, p, lo, hi - 1, lazy, caps);
      }
    }
  }

  /** h is a match that goes on at s. */
  predicate HitAt(src: Bytes, pat: Bytes, p: nat, s: nat, caps: Captures, h: Hit)
    requires p <= |pat|
  {
    s <= |src| && h in Hits(src, pat, Point(p, s, caps))
  }

  ghost predicate HitBetween(src: Bytes, pat: Bytes, p: nat, lo: nat, hi: nat, caps: Captures, h: Hit)
    requires p <= |pat|
  {
    exists s :: lo <= s <= hi && HitAt(src, pat, p, s, caps, h)
  }

  /** f lists h at s. */
  ghost predicate ListsAt(f: Point -> seq<Hit>, p: nat, s: nat, caps: Captures, h: Hit) {
    h in f(Point(p, s, caps))
  }

  lemma {:induction false} RangeHas(f: Point -> seq<Hit>, p: nat, lo: nat, hi: nat, lazy: bool, caps: Captures, h: Hit)
    requires lo <= hi
    ensures h in Range(f, p, lo, hi, lazy, caps) <==> exists s :: lo <= s <= hi && ListsAt(f, p, s, caps, h)
    decreases hi - lo
  {
    assert h in f(Point(p, lo, caps)) <==> ListsAt(f, p, lo, caps, h);
    assert h in f(Point(p, hi, caps)) <==> ListsAt(f, p, hi, caps, h);
    if lo < hi {
      if lazy {
        RangeHas(f, p, lo + 1, hi, lazy, caps, h);
      } else {
        RangeHas(f, p, lo, hi - 1, lazy, caps, h);
      }
    }
  }

  ghost function HitsFrom(src: Bytes, pat: Bytes): (f: Point -> seq<Hit>)
    ensures Tells(f, src, pat)
  {
    var f := c => if Inside(src, pat, c) then Hits(src, pat, c) else [];
    assert forall c :: Told(f, src, pat, c);
    f
  }

  lemma {:induction false} AlternativesHas(src: Bytes, pat: Bytes, p: nat, lo: nat, hi: nat, lazy: bool,
                                           caps: Captures, h: Hit)
    requires p <= |pat| && lo <= hi <= |src|
    ensures h in Alternatives(src, pat, p, lo, hi, lazy, caps) <==> HitBetween(src, pat, p, lo, hi, caps, h)
  {
    var f := HitsFrom(src, pat);
    RangeTold(f, src, pat, p, lo, hi, lazy, caps);
    RangeHas(f, p, lo, hi, lazy, caps, h);
    forall s: nat | s <= hi ensures ListsAt(f, p, s, caps, h) <==> HitAt(src, pat, p, s, caps, h) {
      assert Told(f, src, pat, Point(p, s, caps));
    }
  }

  /** The alternatives that backtracking tries are exactly the matches, panics and malformed items. */
  lemma {:induction false} HitsAreMatches(src: Bytes, pat: Bytes, c: Point, h: Hit)
    requires Inside(src, pat, c)
    ensures h in Hits(src, pat, c) <==> Matches(src, pat, c, h)
    decreases |pat| - c.p
  {
    if c.p < |pat| && !Crashes(pat, c.p, c.caps) && !Breaks(pat, c.p, c.caps) {
      var sp := Moves(src, pat, c);
      if sp.lo <= sp.hi { AlternativesHas(src, pat, sp.p, sp.lo, sp.hi, sp.lazy, sp.caps, h); }
      if h in Hits(src, pat, c) {
        var s :| sp.lo <= s <= sp.hi && HitAt(src, pat, sp.p, s, sp.caps, h);
        var d := Point(sp.p, s, sp.caps);
        MovesLead(src, pat, c, d);
        HitsAreMatches(src, pat, d, h);
      }
      if Matches(src, pat, c, h) {
        var d :| Leads(src, pat, c, d) && c.p < d.p && Inside(src, pat, d) && Matches(src, pat, d, h);
        MovesLead(src, pat, c, d);
        HitsAreMatches(src, pat, d, h);
        assert HitAt(src, pat, sp.p, d.s, sp.caps, h);
      }
    }
  }

  /** A match ends in the subject, at or after its start. */
  lemma {:induction false} MatchesForward(src: Bytes, pat: Bytes, c: Point, h: Hit)
    requires Inside(src, pat, c) && Matches(src, pat, c, h) && h.Hit?
    ensures c.s <= h.end <= |src|
    decreases |pat| - c.p
  {
    if c.p < |pat| {
      var d :| Leads(src, pat, c, d) && c.p < d.p && Inside(src, pat, d) && Matches(src, pat, d, h);
      MovesLead(src, pat, c, d);
      MatchesForward(src, pat, d, h);
    }
  }
}
