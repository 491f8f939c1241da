/**
 Patterns in the terms of section 6.4.1 of the Lua 5.4 Reference Manual: what the classes, sets,
 repetitions and captures of the definitions mean, on the characters themselves.
 */
module PatternManual {
  import opened Options
  import opened ByteStrings
  import opened Pattern
  import opened Matcher

  // ---------------------------------------------------------------------------------------------
  // Classes

  predicate Between(c: Byte, a: char, z: char) {
    a as int <= c <= z as int
  }

  predicate IsClass(cl: char) {
    cl in "acdglpsuwxz"
  }

  /** The characters of the classes in lower case. */
  predicate InManual(c: Byte, cl: char) {
    match cl
    case 'a' => Between(c, 'A', 'Z') || Between(c, 'a', 'z')
    case 'c' => c <= 0x1F || c == 0x7F
    case 'd' => Between(c, '0', '9')
    case 'g' => Between(c, '!', '~')
    case 'l' => Between(c, 'a', 'z')
    case 'p' => Between(c, '!', '/') || Between(c, ':', '@') || Between(c, '[', '`') || Between(c, '{', '~')
    case 's' => c == ' ' as int || c in {'\t' as int, '\n' as int, 0x0B, 0x0C, '\r' as int}
    case 'u' => Between(c, 'A', 'Z')
    case 'w' => Between(c, 'A', 'Z') || Between(c, 'a', 'z') || Between(c, '0', '9')
    case 'x' => Between(c, '0', '9') || Between(c, 'A', 'F') || Between(c, 'a', 'f')
    case 'z' => c == 0
    case _ => false
  }

  /** A letter of a class stands for the class, in upper case for its complement, and any other
      character for itself. */
  lemma Classes(c: Byte, cl: Byte)
    ensures IsClass(cl as char) ==> (InClass(c, cl) <==> InManual(c, cl as char))
    ensures IsComplement(cl) ==> (InClass(c, cl) <==> !InManual(c, (cl + 32) as char))
    ensures !IsClass(cl as char) && !IsComplement(cl) ==> (InClass(c, cl) <==> c == cl)
  {
    if IsClass(cl as char) {
      LowerClass(c, cl);
    } else if IsComplement(cl) {
      UpperClass(c, cl);
    }
  }

  /** The upper-case letter of a class. */
  predicate IsComplement(cl: Byte) {
    Between(cl, 'A', 'Z') && IsClass((cl + 32) as char)
  }

  lemma LowerClass(c: Byte, cl: Byte)
    requires IsClass(cl as char)
    ensures InClass(c, cl) <==> InManual(c, cl as char)
  {
  }

  lemma UpperClass(c: Byte, cl: Byte)
    requires IsComplement(cl)
    ensures InClass(c, cl) <==> !InManual(c, (cl + 32) as char)
  {
    LowerClass(c, cl + 32);
  }

  // ---------------------------------------------------------------------------------------------
  // Sets

  /** What a set can list: a character, a range, or a class. */
  datatype SetItem = One(c: Byte) | Range(a: Byte, z: Byte) | Class(cl: Byte)

  /** An item that is read as it is written, before any other: no escape, and no hyphen first. */
  predicate Readable(x: SetItem) {
    match x
    case One(c) => c != PERCENT && c != MINUS
    case Range(a, _) => a != PERCENT && a != MINUS
    case Class(_) => true
  }

  function ItemText(x: SetItem): Bytes {
    match x
    case One(c) => [c]
    case Range(a, z) => [a, MINUS, z]
    case Class(cl) => [PERCENT, cl]
  }

  function SetText(xs: seq<SetItem>): Bytes {
    if xs == [] then [] else ItemText(xs[0]) + SetText(xs[1..])
  }

  predicate InItem(c: Byte, x: SetItem) {
    match x
    case One(d) => c == d
    case Range(a, z) => a <= c <= z
    case Class(cl) => InClass(c, cl)
  }

  /** The item x is at q. */
  predicate ItemAt(pat: Bytes, q: nat, x: SetItem) {
    q + |ItemText(x)| <= |pat| && pat[q..q + |ItemText(x)|] == ItemText(x)
  }

  /** A set is the union of what it lists. */
  lemma {:induction false} SetIsUnion(pat: Bytes, q: nat, ec: nat, xs: seq<SetItem>, c: Byte)
    requires q <= ec < |pat| && pat[q..ec] == SetText(xs) && forall i :: 0 <= i < |xs| ==> Readable(xs[i])
    ensures InItems(pat, c, q, ec) <==> InSome(c, xs)
  {
    var has := HasFrom(pat, c, ec);
    UnionOf(has, pat, q, ec, xs, c);
    assert has(q) <==> InItems(pat, c, q, ec);
  }

  /** Whether c is in the items from an index on, passed around as a function, which keeps the verifier
      from expanding it. */
  function HasFrom(pat: Bytes, c: Byte, ec: nat): nat -> bool
    requires ec < |pat|
  {
    (q: nat) => InItems(pat, c, q, ec)
  }

  lemma {:induction false} UnionOf(has: nat -> bool, pat: Bytes, q: nat, ec: nat, xs: seq<SetItem>, c: Byte)
    requires q <= ec < |pat| && pat[q..ec] == SetText(xs) && forall i :: 0 <= i < |xs| ==> Readable(xs[i])
    requires has == HasFrom(pat, c, ec)
    ensures has(q) <==> InSome(c, xs)
    decreases |xs|
  {
    if xs != [] {
      var next := FirstItem(pat, q, ec, xs);
      UnionOf(has, pat, next, ec, xs[1..], c);
      NoHyphen(pat, next, ec, xs[1..]);
      HeadItem(pat, q, ec, xs[0], c);
      assert has(q) <==> InItems(pat, c, q, ec);
      assert has(next) <==> InItems(pat, c, next, ec);
      InSomeHead(c, xs);
    } else {
      assert q == ec && (has(q) <==> InItems(pat, c, q, ec));
    }
  }

  lemma {:induction false} FirstItem(pat: Bytes, q: nat, ec: nat, xs: seq<SetItem>) returns (next: nat)
    requires q <= ec < |pat| && pat[q..ec] == SetText(xs) && xs != []
    ensures next == q + |ItemText(xs[0])| <= ec && ItemAt(pat, q, xs[0]) && pat[next..ec] == SetText(xs[1..])
  {
    var t, text := ItemText(xs[0]), pat[q..ec];
    next := q + |t|;
    assert text == t + SetText(xs[1..]);
    assert text[..|t|] == t && text[|t|..] == SetText(xs[1..]);
    assert pat[q..next] == text[..|t|] && pat[next..ec] == text[|t|..];
  }

  lemma {:induction false} NoHyphen(pat: Bytes, q: nat, ec: nat, xs: seq<SetItem>)
    requires q <= ec < |pat| && pat[q..ec] == SetText(xs) && forall i :: 0 <= i < |xs| ==> Readable(xs[i])
    ensures q < ec ==> pat[q] != MINUS
  {
    if q < ec {
      assert pat[q] == pat[q..ec][0] == SetText(xs)[0];
      assert xs != [] && SetText(xs)[0] == ItemText(xs[0])[0] && Readable(xs[0]);
    }
  }

  lemma {:induction false} HeadItem(pat: Bytes, q: nat, ec: nat, x: SetItem, c: Byte)
    requires ItemAt(pat, q, x) && Readable(x) && q + |ItemText(x)| <= ec < |pat|
    requires q + |ItemText(x)| < ec ==> pat[q + |ItemText(x)|] != MINUS
    ensures InItems(pat, c, q, ec) <==> InItem(c, x) || InItems(pat, c, q + |ItemText(x)|, ec)
  {
    var t, text := ItemText(x), pat[q..q + |ItemText(x)|];
    assert pat[q] == text[0] == t[0];
    if |t| > 1 { assert pat[q + 1] == text[1] == t[1]; }
    if |t| > 2 { assert pat[q + 2] == text[2] == t[2]; }
  }

  ghost predicate InSome(c: Byte, xs: seq<SetItem>) {
    exists i :: 0 <= i < |xs| && InItem(c, xs[i])
  }

  lemma InSomeHead(c: Byte, xs: seq<SetItem>)
    requires xs != []
    ensures InSome(c, xs) <==> InItem(c, xs[0]) || InSome(c, xs[1..])
  {
    var rest := xs[1..];
    forall i | 0 <= i < |rest| ensures rest[i] == xs[i + 1] { }
    forall i | 0 < i < |xs| ensures xs[i] == rest[i - 1] { }
  }

  /** The character at k is the second one of an escape that begins at or after q. */
  predicate Escaped(pat: Bytes, q: nat, k: nat) {
    q < k <= |pat| && pat[k - 1] == PERCENT && !Escaped(pat, q, k - 1)
  }

  /** A set may end at k. */
  predicate Closes(pat: Bytes, q: nat, k: nat) {
    q < k < |pat| && pat[k] == RBRACKET && !Escaped(pat, q, k)
  }

  /** The set whose list begins at q ends with the first bracket after its first character that is not
      escaped. */
  lemma {:induction false} SetEnds(pat: Bytes, q: nat)
    requires q <= |pat|
    ensures var e := SetEnd(pat, q);
            && (e.Some? ==> Closes(pat, q, e.value - 1))
            && forall k: nat :: Closes(pat, q, k) ==> e.Some? && e.value - 1 <= k
  {
    SetEndsFrom(pat, q, q);
  }

  lemma {:induction false} SetEndsFrom(pat: Bytes, start: nat, q: nat)
    requires start <= q <= |pat| && !Escaped(pat, start, q)
    ensures var e := SetEnd(pat, q);
            && (e.Some? ==> q < e.value - 1 && Closes(pat, start, e.value - 1))
            && forall k: nat :: q < k && Closes(pat, start, k) ==> e.Some? && e.value - 1 <= k
    decreases |pat| - q
  {
    if q < |pat| {
      var q' := if pat[q] == PERCENT && q + 1 < |pat| then q + 2 else q + 1;
      assert Escaped(pat, start, q + 1) <==> pat[q] == PERCENT;
      if q' < |pat| && pat[q'] != RBRACKET { SetEndsFrom(pat, start, q'); }
    }
  }

  /** `%f[%w]` holds exactly at the beginning of a word, and `%f[%W]` exactly at its end. */
  lemma {:induction false} WordFrontier(src: Bytes, s: nat)
    requires s <= |src|
    ensures var pat := [LBRACKET, PERCENT, 'w' as int, RBRACKET];
            Frontier(src, pat, s, 0, 3) <==>
              (s == 0 || !InManual(src[s - 1], 'w')) && s < |src| && InManual(src[s], 'w')
    ensures var pat := [LBRACKET, PERCENT, 'W' as int, RBRACKET];
            Frontier(src, pat, s, 0, 3) <==>
              s > 0 && InManual(src[s - 1], 'w') && (s == |src| || !InManual(src[s], 'w'))
  {
    var w, W := [LBRACKET, PERCENT, 'w' as int, RBRACKET], [LBRACKET, PERCENT, 'W' as int, RBRACKET];
    forall c: Byte ensures (InSet(w, c, 0, 3) <==> InManual(c, 'w')) && (InSet(W, c, 0, 3) <==> !InManual(c, 'w')) {
      OneClass(w, c);
      OneClass(W, c);
      Classes(c, 'w' as int);
      Classes(c, 'W' as int);
    }
  }

  lemma {:induction false} OneClass(pat: Bytes, c: Byte)
    requires |pat| == 4 && pat[0] == LBRACKET && pat[1] == PERCENT
    ensures InSet(pat, c, 0, 3) <==> InClass(c, pat[2])
  {
    assert !InItems(pat, c, 3, 3);
  }

  // ---------------------------------------------------------------------------------------------
  // Text and repetitions

  /** A character that stands for itself wherever it is. */
  predicate Literal(c: Byte) {
    c as char !in "$*+?.([%-)"
  }

  /** A pattern without special characters matches itself and nothing else. */
  lemma {:induction false} TextMatches(src: Bytes, pat: Bytes, c: Point)
    requires Inside(src, pat, c) && forall i :: 0 <= i < |pat| ==> Literal(pat[i])
    ensures Hits(src, pat, c) == if TextAt(src, pat, c) then [Hit(c.s + (|pat| - c.p), c.caps)] else []
  {
    var f := HitsFrom(src, pat);
    TextIn(f, src, pat, c);
    assert Told(f, src, pat, c);
  }

  /** The pattern from c on is the text of the subject there. */
  predicate TextAt(src: Bytes, pat: Bytes, c: Point)
    requires Inside(src, pat, c)
  {
    c.s + (|pat| - c.p) <= |src| && src[c.s..c.s + (|pat| - c.p)] == pat[c.p..]
  }

  lemma {:induction false} TextIn(f: Point -> seq<Hit>, src: Bytes, pat: Bytes, c: Point)
    requires Tells(f, src, pat) && Inside(src, pat, c) && forall i :: 0 <= i < |pat| ==> Literal(pat[i])
    ensures f(c) == if TextAt(src, pat, c) then [Hit(c.s + (|pat| - c.p), c.caps)] else []
    decreases |pat| - c.p
  {
    if c.p == |pat| {
      EndTold(f, src, pat, c);
    } else {
      TextStep(f, src, pat, c);
      TextMore(src, pat, c);
      if c.s < |src| && src[c.s] == pat[c.p] { TextIn(f, src, pat, Point(c.p + 1, c.s + 1, c.caps)); }
    }
  }

  lemma TextMore(src: Bytes, pat: Bytes, c: Point)
    requires Inside(src, pat, c) && c.p < |pat|
    ensures TextAt(src, pat, c) <==>
            c.s < |src| && src[c.s] == pat[c.p] && TextAt(src, pat, Point(c.p + 1, c.s + 1, c.caps))
  {
    var n := |pat| - c.p;
    assert pat[c.p..] == [pat[c.p]] + pat[c.p + 1..];
    if c.s + n <= |src| { assert src[c.s..c.s + n] == [src[c.s]] + src[c.s + 1..c.s + n]; }
  }

  lemma {:induction false} TextStep(f: Point -> seq<Hit>, src: Bytes, pat: Bytes, c: Point)
    requires Tells(f, src, pat) && Inside(src, pat, c) && c.p < |pat| && forall i :: 0 <= i < |pat| ==> Literal(pat[i])
    ensures f(c) ==
            if c.s < |src| && src[c.s] == pat[c.p] then f(Point(c.p + 1, c.s + 1, c.caps)) else []
  {
    MovesTold(f, src, pat, c);
    assert Literal(pat[c.p]) && (c.p + 1 < |pat| ==> Literal(pat[c.p + 1]));
    assert ClassEnd(pat, c.p) == Some(c.p + 1) && Suffix(pat, c.p + 1) == 0;
    assert Single(src, pat, c.s, c.p, c.p + 1) <==> c.s < |src| && src[c.s] == pat[c.p];
  }

  /** Exactly n characters x, and no more, are at s. */
  predicate RunOf(src: Bytes, x: Byte, s: nat, n: nat) {
    s + n <= |src| && (forall k :: s <= k < s + n ==> src[k] == x) && (s + n < |src| ==> src[s + n] != x)
  }

  /** The first match of a character with each of the suffixes: the longest run for the star and the
      plus, which needs one, the shortest for the hyphen, at most one for the question mark. */
  lemma {:induction false} Repetitions(src: Bytes, x: Byte, suffix: char, s: nat, n: nat)
    requires Literal(x) && RunOf(src, x, s, n) && suffix in "*+-?"
    ensures var h := Hits(src, [x, suffix as int], Point(0, s, []));
            if suffix == '+' && n == 0 then h == []
            else h != [] &&
                 h[0] == Hit(if suffix == '-' then s else if suffix == '?' && n > 0 then s + 1 else s + n, [])
  {
    var pat, c := [x, suffix as int], Point(0, s, []);
    assert ClassEnd(pat, 0) == Some(1) && Suffix(pat, 1) == suffix as int;
    RunIs(src, pat, s, n);
    var sp := Moves(src, pat, c);
    assert sp == ItemSpan(1, suffix as int, s, n, []);
    if sp.lo <= sp.hi { AlternativesFirst(src, pat, sp.lo, sp.hi, sp.lazy); }
  }

  lemma {:induction false} RunIs(src: Bytes, pat: Bytes, s: nat, n: nat)
    requires |pat| == 2 && Literal(pat[0]) && RunOf(src, pat[0], s, n)
    ensures ClassEnd(pat, 0) == Some(1) && Run(src, pat, s, 0, 1) == n
    decreases n
  {
    assert Single(src, pat, s, 0, 1) <==> s < |src| && src[s] == pat[0];
    if n > 0 { RunIs(src, pat, s + 1, n - 1); }
  }

  lemma {:induction false} AlternativesFirst(src: Bytes, pat: Bytes, lo: nat, hi: nat, lazy: bool)
    requires lo <= hi <= |src|
    ensures var a := Alternatives(src, pat, |pat|, lo, hi, lazy, []);
            a != [] && a[0] == Hit(if lazy then lo else hi, [])
  {
    assert Hits(src, pat, Point(|pat|, lo, [])) == [Hit(lo, [])];
    assert Hits(src, pat, Point(|pat|, hi, [])) == [Hit(hi, [])];
  }

  /** The dot matches any character, and the dollar at the end matches the end. */
  lemma {:induction false} DotAndDollar(src: Bytes, s: nat)
    requires s <= |src|
    ensures Hits(src, ['.' as int], Point(0, s, [])) == if s < |src| then [Hit(s + 1, [])] else []
    ensures Hits(src, ['$' as int], Point(0, s, [])) == if s == |src| then [Hit(s, [])] else []
  {
    var dot, dollar := ['.' as int], ['$' as int];
    assert ClassEnd(dot, 0) == Some(1) && Suffix(dot, 1) == 0;
    assert Single(src, dot, s, 0, 1) <==> s < |src|;
    assert Run(src, dot, s, 0, 1) > 0 <==> s < |src|;
    assert s < |src| ==> Moves(src, dot, Point(0, s, [])) == Only(1, s + 1, []);
    assert s < |src| ==> Hits(src, dot, Point(1, s + 1, [])) == [Hit(s + 1, [])];
    assert AtDollar(dollar, 0);
    assert Hits(src, dollar, Point(1, s, [])) == [Hit(s, [])];
  }

  // ---------------------------------------------------------------------------------------------
  // Captures

  /** `((x)y)` captures x and y together, and x alone: captures are numbered by their left
      parentheses and hold the text from there to their right ones. */
  lemma {:induction false} NestedCaptures(src: Bytes, x: Byte, y: Byte, s: nat)
    requires Literal(x) && Literal(y) && s + 2 <= |src| && src[s] == x && src[s + 1] == y
    ensures Hits(src, [OPEN, OPEN, x, CLOSE, y, CLOSE], Point(0, s, [])) ==
            [Hit(s + 2, [Capture(s, 2), Capture(s, 1)])]
  {
    var pat: Bytes := [OPEN, OPEN, x, CLOSE, y, CLOSE];
    var f := HitsFrom(src, pat);
    NestedIn(f, src, pat, s);
    assert Told(f, src, pat, Point(0, s, []));
  }

  lemma {:induction false} NestedIn(f: Point -> seq<Hit>, src: Bytes, pat: Bytes, s: nat)
    requires Tells(f, src, pat) && |pat| == 6 && pat[0] == OPEN && pat[1] == OPEN && pat[3] == CLOSE && pat[5] == CLOSE
    requires Literal(pat[2]) && Literal(pat[4]) && s + 2 <= |src| && src[s] == pat[2] && src[s + 1] == pat[4]
    ensures f(Point(0, s, [])) == [Hit(s + 2, [Capture(s, 2), Capture(s, 1)])]
  {
    var u := Capture(s, UNFINISHED);
    assert [] + [u] == [u] && [u] + [u] == [u, u];
    Opens(f, src, pat, Point(0, s, []));
    Opens(f, src, pat, Point(1, s, [u]));
    ClosedTwice(f, src, pat, s);
  }

  lemma {:induction false} ClosedTwice(f: Point -> seq<Hit>, src: Bytes, pat: Bytes, s: nat)
    requires Tells(f, src, pat) && |pat| == 6 && pat[3] == CLOSE && pat[5] == CLOSE
    requires Literal(pat[2]) && Literal(pat[4])
    requires s + 2 <= |src| && src[s] == pat[2] && src[s + 1] == pat[4]
    ensures f(Point(2, s, [Capture(s, UNFINISHED), Capture(s, UNFINISHED)])) ==
            [Hit(s + 2, [Capture(s, 2), Capture(s, 1)])]
  {
    var u := Capture(s, UNFINISHED);
    var c2, c3, c6 := [u, u], [u, Capture(s, 1)], [Capture(s, 2), Capture(s, 1)];
    assert LastOpen(c2) == 1 && c2[1 := Capture(s, 1)] == c3;
    assert c3[..1] == [u] && LastOpen([u]) == 0 && LastOpen(c3) == 0 && c3[0 := Capture(s, 2)] == c6;
    Char(f, src, pat, Point(2, s, c2));
    Shuts(f, src, pat, Point(3, s + 1, c2));
    Char(f, src, pat, Point(4, s + 1, c3));
    Shuts(f, src, pat, Point(5, s + 2, c3));
    EndTold(f, src, pat, Point(6, s + 2, c6));
  }

  /** `(x)%1` matches x twice. */
  lemma {:induction false} RepeatedCapture(src: Bytes, x: Byte, s: nat)
    requires Literal(x) && s < |src| && src[s] == x
    ensures Hits(src, [OPEN, x, CLOSE, PERCENT, '1' as int], Point(0, s, [])) ==
            if s + 1 < |src| && src[s + 1] == x then [Hit(s + 2, [Capture(s, 1)])] else []
  {
    var pat: Bytes := [OPEN, x, CLOSE, PERCENT, '1' as int];
    var f := HitsFrom(src, pat);
    RepeatedIn(f, src, pat, s);
    assert Told(f, src, pat, Point(0, s, []));
  }

  lemma {:induction false} RepeatedIn(f: Point -> seq<Hit>, src: Bytes, pat: Bytes, s: nat)
    requires Tells(f, src, pat) && |pat| == 5 && pat[0] == OPEN && pat[2] == CLOSE && Literal(pat[1])
    requires pat[3] == PERCENT && pat[4] == '1' as int && s < |src| && src[s] == pat[1]
    ensures f(Point(0, s, [])) == if s + 1 < |src| && src[s + 1] == src[s] then [Hit(s + 2, [Capture(s, 1)])] else []
  {
    var u := Capture(s, UNFINISHED);
    assert [] + [u] == [u] && LastOpen([u]) == 0 && [u][0 := Capture(s, 1)] == [Capture(s, 1)];
    Opens(f, src, pat, Point(0, s, []));
    Char(f, src, pat, Point(1, s, [u]));
    Shuts(f, src, pat, Point(2, s + 1, [u]));
    OneBack(f, src, pat, s);
  }

  /** A reference to the one character at s. */
  lemma {:induction false} OneBack(f: Point -> seq<Hit>, src: Bytes, pat: Bytes, s: nat)
    requires Tells(f, src, pat) && |pat| == 5 && pat[3] == PERCENT && pat[4] == '1' as int && s < |src|
    ensures f(Point(3, s + 1, [Capture(s, 1)])) ==
            if s + 1 < |src| && src[s + 1] == src[s] then [Hit(s + 2, [Capture(s, 1)])] else []
  {
    var caps := [Capture(s, 1)];
    MovesTold(f, src, pat, Point(3, s + 1, caps));
    assert BackReference(pat, 3) && Refers(pat, 3, caps) && Referred(pat, 3, caps) == Capture(s, 1);
    SameOne(src, s);
    if s + 1 < |src| { EndTold(f, src, pat, Point(5, s + 2, caps)); }
  }

  lemma SameOne(src: Bytes, s: nat)
    requires s < |src|
    ensures SameText(src, Capture(s, 1), s + 1) <==> s + 1 < |src| && src[s + 1] == src[s]
  {
    assert src[s..s + 1] == [src[s]];
    if s + 1 < |src| { assert src[s + 1..s + 2] == [src[s + 1]]; }
  }

  lemma {:induction false} Opens(f: Point -> seq<Hit>, src: Bytes, pat: Bytes, c: Point)
    requires Tells(f, src, pat) && Inside(src, pat, c) && c.p + 1 < |pat|
    requires pat[c.p] == OPEN && pat[c.p + 1] != CLOSE && |c.caps| < MAX_CAPTURES
    ensures f(c) == f(Point(c.p + 1, c.s, c.caps + [Capture(c.s, UNFINISHED)]))
  {
    MovesTold(f, src, pat, c);
    assert Moves(src, pat, c) == Only(c.p + 1, c.s, c.caps + [Capture(c.s, UNFINISHED)]);
  }

  lemma {:induction false} Shuts(f: Point -> seq<Hit>, src: Bytes, pat: Bytes, c: Point)
    requires Tells(f, src, pat) && Inside(src, pat, c) && c.p < |pat| && pat[c.p] == CLOSE && LastOpen(c.caps) >= 0
    ensures var l := LastOpen(c.caps);
            f(c) == f(Point(c.p + 1, c.s, c.caps[l := Capture(c.caps[l].init, c.s - c.caps[l].init)]))
  {
    MovesTold(f, src, pat, c);
    assert Moves(src, pat, c) == Only(c.p + 1, c.s, Closed(c.caps, c.s));
  }

  lemma {:induction false} Char(f: Point -> seq<Hit>, src: Bytes, pat: Bytes, c: Point)
    requires Tells(f, src, pat) && Inside(src, pat, c) && c.p + 1 < |pat| && c.s < |src|
    requires Literal(pat[c.p]) && src[c.s] == pat[c.p] && Suffix(pat, c.p + 1) == 0
    ensures f(c) == f(Point(c.p + 1, c.s + 1, c.caps))
  {
    MovesTold(f, src, pat, c);
    assert ClassEnd(pat, c.p) == Some(c.p + 1) && Single(src, pat, c.s, c.p, c.p + 1);
    assert Moves(src, pat, c) == Only(c.p + 1, c.s + 1, c.caps);
  }

  // ---------------------------------------------------------------------------------------------
  // Malformed patterns

  /** Without parentheses, escapes and sets a pattern is not malformed. */
  lemma {:induction false} PlainSound(pat: Bytes, p: nat, shape: seq<CapState>)
    requires p <= |pat| && forall i :: p <= i < |pat| ==> pat[i] as char !in "()%["
    ensures Sound(pat, p, shape)
    decreases |pat| - p
  {
    if p < |pat| && !AtDollar(pat, p) {
      assert pat[p] as char !in "()%[" && ClassEnd(pat, p) == Some(p + 1);
      PlainSound(pat, if Suffix(pat, p + 1) == 0 then p + 1 else p + 2, shape);
    }
  }

  /** Patterns that end too early, close or refer to what is not there, are malformed at once. */
  lemma {:induction false} MalformedPatterns(src: Bytes, s: nat, x: Byte, pat: Bytes)
    requires s <= |src| && x as char !in "]%"
    requires pat == [PERCENT] || pat == [PERCENT, 'b' as int] || pat == [PERCENT, 'b' as int, x]
             || pat == [PERCENT, 'f' as int] || pat == [LBRACKET] || pat == [LBRACKET, x] || pat == [CLOSE]
             || pat == [PERCENT, '1' as int]
    ensures Hits(src, pat, Point(0, s, [])) == [Malformed]
  {
    assert pat[0] == LBRACKET ==> ClassEnd(pat, 0).None?;
    assert Breaks(pat, 0, []) && !Crashes(pat, 0, []);
  }
}
