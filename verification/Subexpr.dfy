/**
 The expression parser: subexpr climbs the table of priorities, and the tree it builds is the only
 one that the table allows.
 */
module Subexpr {
  import opened Options

  datatype BinOp =
    | Add | Sub | Mul | Mod | Pow | Div | IDiv | BAnd | BOr | BXor | Shl | Shr | Concat
    | Eq | Lt | Le | Ne | Gt | Ge | And | Or

  datatype UnOp = Minus | BNot | Not | Len

  /** An operand is an expression without operators of its own. The minus and the tilde are unary or
      binary, by their place. */
  datatype Token =
    Operand(id: nat) | LParen | RParen | MinusSign | Tilde | NotWord | Hash | Binary(op: BinOp) | Stop(id: nat)

  datatype Expr = Leaf(id: nat) | Paren(inner: Expr) | Unary(uop: UnOp, arg: Expr) | Bin(op: BinOp, l: Expr, r: Expr)

  // ---------------------------------------------------------------------------------------------
  // Operators

  function GetUnOp(t: Token): Option<UnOp> {
    match t
    case NotWord => Some(Not)
    case MinusSign => Some(Minus)
    case Tilde => Some(BNot)
    case Hash => Some(Len)
    case _ => None
  }

  function GetBinOp(t: Token): Option<BinOp> {
    match t
    case MinusSign => Some(Sub)
    case Tilde => Some(BXor)
    case Binary(op) => if op == Sub || op == BXor then None else Some(op)
    case _ => None
  }

  function UnToken(op: UnOp): Token {
    match op
    case Not => NotWord
    case Minus => MinusSign
    case BNot => Tilde
    case Len => Hash
  }

  function BinToken(op: BinOp): Token {
    match op
    case Sub => MinusSign
    case BXor => Tilde
    case _ => Binary(op)
  }

  /** The priority of an operator towards what is on its left, and on its right. */
  function Left(op: BinOp): nat {
    match op
    case Or => 1
    case And => 2
    case Eq => 3
    case Lt => 3
    case Le => 3
    case Ne => 3
    case Gt => 3
    case Ge => 3
    case BOr => 4
    case BXor => 5
    case BAnd => 6
    case Shl => 7
    case Shr => 7
    case Concat => 9
    case Add => 10
    case Sub => 10
    case Mul => 11
    case Mod => 11
    case Div => 11
    case IDiv => 11
    case Pow => 14
  }

  function Right(op: BinOp): nat {
    match op
    case Concat => 8
    case Pow => 13
    case _ => Left(op)
  }

  const UNARY_PRIORITY := 12

  // ---------------------------------------------------------------------------------------------
  // Trees and tokens

  /** The tree without what is not written: its tokens, in order. */
  function Tokens(e: Expr): (ts: seq<Token>)
    ensures |ts| > 0
  {
    match e
    case Leaf(n) => [Operand(n)]
    case Paren(a) => [LParen] + (Tokens(a) + [RParen])
    case Unary(op, a) => [UnToken(op)] + Tokens(a)
    case Bin(op, a, b) => Tokens(a) + ([BinToken(op)] + Tokens(b))
  }

  function Size(e: Expr): (n: nat)
    ensures n > 0
  {
    match e
    case Leaf(_) => 1
    case Paren(a) => Size(a) + 2
    case Unary(_, a) => Size(a) + 1
    case Bin(_, a, b) => Size(a) + 1 + Size(b)
  }

  /** The tokens of e are at pos. */
  predicate At(ts: seq<Token>, pos: nat, e: Expr)
    decreases e
  {
    && pos + Size(e) <= |ts|
    && match e
       case Leaf(n) => ts[pos] == Operand(n)
       case Paren(a) => ts[pos] == LParen && At(ts, pos + 1, a) && ts[pos + 1 + Size(a)] == RParen
       case Unary(op, a) => ts[pos] == UnToken(op) && At(ts, pos + 1, a)
       case Bin(op, a, b) => At(ts, pos, a) && ts[pos + Size(a)] == BinToken(op) && At(ts, pos + Size(a) + 1, b)
  }

  /** At says that the tokens are there. */
  ghost predicate Spelled(ts: seq<Token>, pos: nat, e: Expr)
    requires pos + Size(e) <= |ts|
  {
    |Tokens(e)| == Size(e) && (At(ts, pos, e) <==> Holds(ts, pos, Tokens(e)))
  }

  lemma {:induction false} TokensAt(ts: seq<Token>, pos: nat, e: Expr)
    requires pos + Size(e) <= |ts|
    ensures Spelled(ts, pos, e)
    decreases e
  {
    match e
    case Leaf(_) =>
    case Paren(a) =>
      TokensAt(ts, pos + 1, a);
      ParenAt(ts, pos, a);
    case Unary(op, a) =>
      TokensAt(ts, pos + 1, a);
      UnaryAt(ts, pos, op, a);
    case Bin(op, a, b) =>
      TokensAt(ts, pos, a);
      TokensAt(ts, pos + Size(a) + 1, b);
      BinAt(ts, pos, op, a, b);
  }

  lemma {:induction false} ParenAt(ts: seq<Token>, pos: nat, a: Expr)
    requires pos + Size(a) + 2 <= |ts| && Spelled(ts, pos + 1, a)
    ensures Spelled(ts, pos, Paren(a))
  {
    HoldsAppend(ts, pos, [LParen], Tokens(a) + [RParen]);
    HoldsAppend(ts, pos + 1, Tokens(a), [RParen]);
    HoldsOne(ts, pos, LParen);
    HoldsOne(ts, pos + 1 + Size(a), RParen);
  }

  lemma {:induction false} UnaryAt(ts: seq<Token>, pos: nat, op: UnOp, a: Expr)
    requires pos + Size(a) + 1 <= |ts| && Spelled(ts, pos + 1, a)
    ensures Spelled(ts, pos, Unary(op, a))
  {
    HoldsAppend(ts, pos, [UnToken(op)], Tokens(a));
    HoldsOne(ts, pos, UnToken(op));
  }

  lemma {:induction false} BinAt(ts: seq<Token>, pos: nat, op: BinOp, a: Expr, b: Expr)
    requires pos + Size(a) + 1 + Size(b) <= |ts| && Spelled(ts, pos, a) && Spelled(ts, pos + Size(a) + 1, b)
    ensures Spelled(ts, pos, Bin(op, a, b))
  {
    assert Tokens(Bin(op, a, b)) == Tokens(a) + ([BinToken(op)] + Tokens(b));
    HoldsBetween(ts, pos, Tokens(a), BinToken(op), Tokens(b));
  }

  /** The tokens s are at pos. */
  predicate Holds(ts: seq<Token>, pos: nat, s: seq<Token>) {
    pos + |s| <= |ts| && ts[pos..pos + |s|] == s
  }

  lemma HoldsOne(ts: seq<Token>, pos: nat, t: Token)
    ensures Holds(ts, pos, [t]) <==> pos < |ts| && ts[pos] == t
  {
  }

  lemma HoldsAppend(ts: seq<Token>, pos: nat, a: seq<Token>, b: seq<Token>)
    ensures Holds(ts, pos, a + b) <==> Holds(ts, pos, a) && Holds(ts, pos + |a|, b)
  {
    if pos + |a| + |b| <= |ts| {
      var s := ts[pos..pos + |a| + |b|];
      assert s[..|a|] == ts[pos..pos + |a|] && s[|a|..] == ts[pos + |a|..pos + |a| + |b|];
      assert s == s[..|a|] + s[|a|..];
      assert (a + b)[..|a|] == a && (a + b)[|a|..] == b;
    }
  }

  lemma HoldsBetween(ts: seq<Token>, pos: nat, a: seq<Token>, t: Token, b: seq<Token>)
    ensures Holds(ts, pos, a + ([t] + b)) <==>
            Holds(ts, pos, a) && pos + |a| < |ts| && ts[pos + |a|] == t && Holds(ts, pos + |a| + 1, b)
  {
    HoldsAppend(ts, pos, a, [t] + b);
    HoldsAppend(ts, pos + |a|, [t], b);
    HoldsOne(ts, pos + |a|, t);
  }

  // ---------------------------------------------------------------------------------------------
  // What the table allows

  function Min(a: int, b: int): int {
    if a < b then a else b
  }

  const ABOVE_ALL := 15

  /** The strongest operator that e, on its right, leaves to what is around it: an operator after e
      with a higher priority would belong to an operand inside e. */
  function Edge(e: Expr): int {
    match e
    case Leaf(_) => ABOVE_ALL
    case Paren(_) => ABOVE_ALL
    case Unary(_, a) => Min(UNARY_PRIORITY, Edge(a))
    case Bin(op, _, b) => Min(Right(op), Edge(b))
  }

  /** Every operator in e has the operands that the priorities give it, and those of e itself are
      above the limit. */
  predicate Allowed(e: Expr, limit: nat) {
    match e
    case Leaf(_) => true
    case Paren(a) => Allowed(a, 0)
    case Unary(_, a) => Allowed(a, UNARY_PRIORITY)
    case Bin(op, a, b) => limit < Left(op) <= Edge(a) && Allowed(a, limit) && Allowed(b, Right(op))
  }

  /** No operator at pos takes its left operand from something of priority p. */
  predicate Ends(ts: seq<Token>, pos: nat, p: int) {
    pos < |ts| && GetBinOp(ts[pos]).Some? ==> Left(GetBinOp(ts[pos]).value) <= p
  }

  /** How deep the parser recurses for e. */
  function Depth(e: Expr): nat {
    match e
    case Leaf(_) => 1
    case Paren(a) => 1 + Depth(a)
    case Unary(_, a) => 1 + Depth(a)
    case Bin(_, a, b) => if Depth(a) > 1 + Depth(b) then Depth(a) else 1 + Depth(b)
  }

  // ---------------------------------------------------------------------------------------------
  // The parser

  datatype Result = Parsed(e: Expr, pos: nat) | Failed

  /** simpleexp, or an operator and its operand. */
  function Primary(ts: seq<Token>, pos: nat, max: nat, level: nat): (r: Result)
    ensures r.Parsed? ==> pos < r.pos <= |ts|
    decreases |ts| - pos, 1
  {
    if pos >= |ts| then Failed
    else if GetUnOp(ts[pos]).Some? then
      match Climb(ts, pos + 1, UNARY_PRIORITY, max, level)
      case Parsed(e, p) => Parsed(Unary(GetUnOp(ts[pos]).value, e), p)
      case Failed => Failed
    else
      match ts[pos]
      case Operand(n) => Parsed(Leaf(n), pos + 1)
      case LParen =>
        (match Climb(ts, pos + 1, 0, max, level)
         case Parsed(e, p) => if p < |ts| && ts[p] == RParen then Parsed(Paren(e), p + 1) else Failed
         case Failed => Failed)
      case _ => Failed
  }

  /** subexpr */
  function Climb(ts: seq<Token>, pos: nat, limit: nat, max: nat, level: nat): (r: Result)
    ensures r.Parsed? ==> pos < r.pos <= |ts|
    decreases |ts| - pos, 2
  {
    if level + 1 > max then Failed
    else
      match Primary(ts, pos, max, level + 1)
      case Parsed(e, p) => Extend(ts, p, limit, max, level + 1, e)
      case Failed => Failed
  }

  /** The loop of subexpr, with the tree so far. */
  function Extend(ts: seq<Token>, pos: nat, limit: nat, max: nat, level: nat, e: Expr): (r: Result)
    requires pos <= |ts|
    ensures r.Parsed? ==> pos <= r.pos <= |ts|
    decreases |ts| - pos, 0
  {
    if Ends(ts, pos, limit) then Parsed(e, pos)
    else
      var op := GetBinOp(ts[pos]).value;
      match Climb(ts, pos + 1, Right(op), max, level)
      case Parsed(b, p) => Extend(ts, p, limit, max, level, Bin(op, e, b))
      case Failed => Failed
  }

  /** The parser, started at pos, comes to have built e. */
  ghost predicate Builds(ts: seq<Token>, pos: nat, limit: nat, max: nat, level: nat, e: Expr) {
    pos + Size(e) <= |ts| && Climb(ts, pos, limit, max, level) == Extend(ts, pos + Size(e), limit, max, level + 1, e)
  }

  /** e is written at pos and allowed, all of it and no more, and not too deep. */
  ghost predicate Fitting(ts: seq<Token>, pos: nat, limit: nat, max: nat, level: nat, e: Expr) {
    At(ts, pos, e) && Allowed(e, limit) && Ends(ts, pos + Size(e), Edge(e)) && level + Depth(e) <= max
  }

  /** A tree that the table allows is what the parser builds. */
  lemma {:induction false} ClimbsThrough(ts: seq<Token>, pos: nat, limit: nat, max: nat, level: nat, e: Expr)
    requires Fitting(ts, pos, limit, max, level, e)
    ensures Builds(ts, pos, limit, max, level, e)
    decreases e
  {
    match e
    case Leaf(n) =>
      LeafStep(ts, pos, limit, max, level, n);
    case Paren(a) =>
      FittingParen(ts, pos, limit, max, level, a);
      ClimbsThrough(ts, pos + 1, 0, max, level + 1, a);
      ParenStep(ts, pos, limit, max, level, a);
    case Unary(op, a) =>
      FittingUnary(ts, pos, limit, max, level, op, a);
      ClimbsThrough(ts, pos + 1, UNARY_PRIORITY, max, level + 1, a);
      UnaryStep(ts, pos, limit, max, level, op, a);
    case Bin(op, a, b) =>
      FittingBin(ts, pos, limit, max, level, op, a, b);
      ClimbsThrough(ts, pos, limit, max, level, a);
      ClimbsThrough(ts, pos + Size(a) + 1, Right(op), max, level + 1, b);
      BinStep(ts, pos, limit, max, level, op, a, b);
  }

  lemma {:induction false} FittingParen(ts: seq<Token>, pos: nat, limit: nat, max: nat, level: nat, a: Expr)
    requires Fitting(ts, pos, limit, max, level, Paren(a))
    ensures Fitting(ts, pos + 1, 0, max, level + 1, a) && level < max
  {
  }

  lemma {:induction false} FittingUnary(ts: seq<Token>, pos: nat, limit: nat, max: nat, level: nat, op: UnOp, a: Expr)
    requires Fitting(ts, pos, limit, max, level, Unary(op, a))
    ensures Fitting(ts, pos + 1, UNARY_PRIORITY, max, level + 1, a) && level < max
            && Ends(ts, pos + 1 + Size(a), UNARY_PRIORITY)
  {
  }

  lemma {:induction false} FittingBin(ts: seq<Token>, pos: nat, limit: nat, max: nat, level: nat, op: BinOp, a: Expr,
                                      b: Expr)
    requires Fitting(ts, pos, limit, max, level, Bin(op, a, b))
    ensures Fitting(ts, pos, limit, max, level, a) && Fitting(ts, pos + Size(a) + 1, Right(op), max, level + 1, b)
    ensures Left(op) > limit && Ends(ts, pos + Size(a) + 1 + Size(b), Right(op))
    ensures GetBinOp(ts[pos + Size(a)]) == Some(op)
  {
    assert GetBinOp(ts[pos + Size(a)]) == Some(op);
  }

  lemma {:induction false} LeafStep(ts: seq<Token>, pos: nat, limit: nat, max: nat, level: nat, n: nat)
    requires At(ts, pos, Leaf(n)) && level < max
    ensures Builds(ts, pos, limit, max, level, Leaf(n))
  {
  }

  lemma {:induction false} ParenStep(ts: seq<Token>, pos: nat, limit: nat, max: nat, level: nat, a: Expr)
    requires At(ts, pos, Paren(a)) && level < max && Builds(ts, pos + 1, 0, max, level + 1, a)
    ensures Builds(ts, pos, limit, max, level, Paren(a))
  {
  }

  lemma {:induction false} UnaryStep(ts: seq<Token>, pos: nat, limit: nat, max: nat, level: nat, op: UnOp, a: Expr)
    requires At(ts, pos, Unary(op, a)) && level < max && Ends(ts, pos + 1 + Size(a), UNARY_PRIORITY)
    requires Builds(ts, pos + 1, UNARY_PRIORITY, max, level + 1, a)
    ensures Builds(ts, pos, limit, max, level, Unary(op, a))
  {
    assert GetUnOp(ts[pos]) == Some(op);
  }

  lemma {:induction false} BinStep(ts: seq<Token>, pos: nat, limit: nat, max: nat, level: nat, op: BinOp, a: Expr,
                                   b: Expr)
    requires pos + Size(a) + 1 + Size(b) <= |ts| && GetBinOp(ts[pos + Size(a)]) == Some(op)
    requires Left(op) > limit && Ends(ts, pos + Size(a) + 1 + Size(b), Right(op))
    requires Builds(ts, pos, limit, max, level, a) && Builds(ts, pos + Size(a) + 1, Right(op), max, level + 1, b)
    ensures Builds(ts, pos, limit, max, level, Bin(op, a, b))
  {
    var p := pos + Size(a);
    ExtendEnds(ts, p + 1 + Size(b), Right(op), max, level + 2, b);
    ExtendStep(ts, p, limit, max, level + 1, a, op, b, p + 1 + Size(b));
  }

  lemma {:induction false} ExtendEnds(ts: seq<Token>, pos: nat, limit: nat, max: nat, level: nat, e: Expr)
    requires pos <= |ts| && Ends(ts, pos, limit)
    ensures Extend(ts, pos, limit, max, level, e) == Parsed(e, pos)
  {
  }

  lemma {:induction false} ExtendStep(ts: seq<Token>, pos: nat, limit: nat, max: nat, level: nat, e: Expr, op: BinOp,
                                      b: Expr, end: nat)
    requires pos < |ts| && GetBinOp(ts[pos]) == Some(op) && Left(op) > limit
    requires end <= |ts| && Climb(ts, pos + 1, Right(op), max, level) == Parsed(b, end)
    ensures Extend(ts, pos, limit, max, level, e) == Extend(ts, end, limit, max, level, Bin(op, e, b))
  {
  }

  /** What the parser builds is written there, and allowed, and ends where it must. */
  ghost predicate Sound(ts: seq<Token>, pos: nat, limit: nat, max: nat, level: nat, r: Result) {
    r.Parsed? ==>
      && At(ts, pos, r.e) && r.pos == pos + Size(r.e) && level + Depth(r.e) <= max
      && Allowed(r.e, limit) && Ends(ts, r.pos, limit) && Ends(ts, r.pos, Edge(r.e))
  }

  lemma {:induction false} PrimarySound(ts: seq<Token>, pos: nat, limit: nat, max: nat, level: nat)
    requires 0 < level <= max
    ensures var r := Primary(ts, pos, max, level);
            r.Parsed? ==>
              && At(ts, pos, r.e) && r.pos == pos + Size(r.e) && level - 1 + Depth(r.e) <= max
              && Allowed(r.e, limit) && Ends(ts, r.pos, Edge(r.e))
    decreases |ts| - pos, 1
  {
    if pos < |ts| {
      if GetUnOp(ts[pos]).Some? {
        ClimbSound(ts, pos + 1, UNARY_PRIORITY, max, level);
      } else if ts[pos] == LParen {
        ClimbSound(ts, pos + 1, 0, max, level);
      }
    }
  }

  lemma {:induction false} ClimbSound(ts: seq<Token>, pos: nat, limit: nat, max: nat, level: nat)
    ensures Sound(ts, pos, limit, max, level, Climb(ts, pos, limit, max, level))
    decreases |ts| - pos, 2
  {
    if level + 1 <= max {
      PrimarySound(ts, pos, limit, max, level + 1);
      var r := Primary(ts, pos, max, level + 1);
      if r.Parsed? { ExtendSound(ts, pos, r.pos, limit, max, level + 1, r.e); }
    }
  }

  lemma {:induction false} ExtendSound(ts: seq<Token>, start: nat, pos: nat, limit: nat, max: nat, level: nat, e: Expr)
    requires At(ts, start, e) && pos == start + Size(e) && Allowed(e, limit) && Ends(ts, pos, Edge(e))
    requires level > 0 && level - 1 + Depth(e) <= max
    ensures Sound(ts, start, limit, max, level - 1, Extend(ts, pos, limit, max, level, e))
    decreases |ts| - pos, 0
  {
    if !Ends(ts, pos, limit) {
      var op := GetBinOp(ts[pos]).value;
      ClimbSound(ts, pos + 1, Right(op), max, level);
      var r := Climb(ts, pos + 1, Right(op), max, level);
      if r.Parsed? { ExtendSound(ts, start, r.pos, limit, max, level, Bin(op, e, r.e)); }
    }
  }

  /** e is at pos, is allowed above the limit, and no operator follows that should be part of it. */
  ghost predicate Proper(ts: seq<Token>, pos: nat, limit: nat, e: Expr) {
    At(ts, pos, e) && Allowed(e, limit) && Ends(ts, pos + Size(e), limit) && Ends(ts, pos + Size(e), Edge(e))
  }

  /** subexpr finds exactly the proper tree, and refuses it exactly if it is too deep. */
  lemma {:induction false} ParseExact(ts: seq<Token>, pos: nat, limit: nat, max: nat, level: nat, e: Expr)
    ensures Proper(ts, pos, limit, e) && level + Depth(e) <= max
            <==> Climb(ts, pos, limit, max, level) == Parsed(e, pos + Size(e))
  {
    if Proper(ts, pos, limit, e) && level + Depth(e) <= max { ClimbsThrough(ts, pos, limit, max, level, e); }
    ClimbSound(ts, pos, limit, max, level);
  }

  /** There is only one. */
  lemma {:induction false} OneTree(ts: seq<Token>, pos: nat, limit: nat, e: Expr, e': Expr)
    requires Proper(ts, pos, limit, e) && Proper(ts, pos, limit, e')
    ensures e == e'
  {
    var max := Depth(e) + Depth(e');
    ParseExact(ts, pos, limit, max, 0, e);
    ParseExact(ts, pos, limit, max, 0, e');
  }

  /** An expression with the parentheses that it needs is read back from its tokens. */
  lemma {:induction false} RoundTrip(e: Expr, max: nat)
    requires Allowed(e, 0) && Depth(e) <= max
    ensures Climb(Tokens(e), 0, 0, max, 0) == Parsed(e, |Tokens(e)|)
  {
    TokensSize(e);
    TokensAt(Tokens(e), 0, e);
    ParseExact(Tokens(e), 0, 0, max, 0, e);
  }

  lemma {:induction false} TokensSize(e: Expr)
    ensures |Tokens(e)| == Size(e)
  {
    match e
    case Leaf(_) =>
    case Paren(a) => TokensSize(a);
    case Unary(_, a) => TokensSize(a);
    case Bin(_, a, b) => TokensSize(a); TokensSize(b);
  }

  /** Concatenation and powers associate to the right, all other operators to the left. */
  lemma Associates(op: BinOp, x: nat, y: nat, z: nat)
    ensures Allowed(Bin(op, Bin(op, Leaf(x), Leaf(y)), Leaf(z)), 0) <==> !(op.Concat? || op.Pow?)
    ensures Allowed(Bin(op, Leaf(x), Bin(op, Leaf(y), Leaf(z))), 0) <==> op.Concat? || op.Pow?
  {
    assert forall n: nat, limit: nat :: Allowed(Leaf(n), limit);
    assert Allowed(Bin(op, Leaf(y), Leaf(z)), Right(op)) <==> Right(op) < Left(op);
    assert Allowed(Bin(op, Leaf(x), Leaf(y)), 0);
    assert Edge(Bin(op, Leaf(x), Leaf(y))) == Right(op);
  }

  // ---------------------------------------------------------------------------------------------
  // The table says what section 3.4.8 of the Lua 5.4 Reference Manual says

  /** An operator before an operand. */
  datatype Operator = Infix(op: BinOp) | Prefix

  /** The operators in groups, from the weakest to the strongest. */
  const MANUAL: seq<seq<Operator>> := [
    [Infix(Or)], [Infix(And)], [Infix(Lt), Infix(Gt), Infix(Le), Infix(Ge), Infix(Ne), Infix(Eq)], [Infix(BOr)],
    [Infix(BXor)], [Infix(BAnd)], [Infix(Shl), Infix(Shr)], [Infix(Concat)], [Infix(Add), Infix(Sub)],
    [Infix(Mul), Infix(Div), Infix(IDiv), Infix(Mod)], [Prefix], [Infix(Pow)]]

  function Group(x: Operator): (i: nat)
    ensures i < |MANUAL| && x in MANUAL[i]
  {
    match x
    case Prefix => 10
    case Infix(op) =>
      match op
      case Or => 0
      case And => 1
      case Eq | Ne | Lt | Le | Gt | Ge => 2
      case BOr => 3
      case BXor => 4
      case BAnd => 5
      case Shl | Shr => 6
      case Concat => 7
      case Add | Sub => 8
      case Mul | Div | IDiv | Mod => 9
      case Pow => 11
  }

  /** The operand between x and q belongs to q: q is stronger, or they are the same operator and it
      associates to the right. */
  predicate Yields(x: Operator, q: BinOp) {
    Group(Infix(q)) > Group(x) || (x == Infix(q) && (q == Concat || q == Pow))
  }

  /** Before e, x leaves to e all the operands that e starts with. */
  predicate YieldsTo(x: Operator, e: Expr) {
    e.Bin? ==> Yields(x, e.op) && YieldsTo(x, e.l)
  }

  /** Before q, e keeps all the operands that it ends with. */
  predicate KeepsFrom(e: Expr, q: BinOp) {
    match e
    case Leaf(_) => true
    case Paren(_) => true
    case Unary(_, a) => !Yields(Prefix, q) && KeepsFrom(a, q)
    case Bin(op, _, b) => !Yields(Infix(op), q) && KeepsFrom(b, q)
  }

  /** Between any two operators, the operand belongs to the one that the manual says. */
  predicate ByManual(e: Expr) {
    match e
    case Leaf(_) => true
    case Paren(a) => ByManual(a)
    case Unary(_, a) => ByManual(a) && YieldsTo(Prefix, a)
    case Bin(op, a, b) => ByManual(a) && ByManual(b) && KeepsFrom(a, op) && YieldsTo(Infix(op), b)
  }

  /** The priorities of two operators around an operand. */
  lemma Priorities(x: Operator, q: BinOp)
    ensures Left(q) > (if x.Prefix? then UNARY_PRIORITY else Right(x.op)) <==> Yields(x, q)
    ensures 0 < Left(q) < ABOVE_ALL
  {
    PriorityOf(q);
    if x.Infix? { PriorityOf(x.op); }
  }

  /** The priority of a group leaves room below it if the group associates to the right. */
  lemma PriorityOf(op: BinOp)
    ensures var g := Group(Infix(op));
            && (op == Concat <==> g == 7) && (op == Pow <==> g == 11) && g != 10
            && Left(op) == (if g < 7 then g + 1 else if g == 11 then 14 else g + 2)
            && Right(op) == if g == 7 || g == 11 then Left(op) - 1 else Left(op)
  {
  }

  /** Everything that e starts with is above the limit. */
  predicate StartsAbove(e: Expr, limit: nat) {
    e.Bin? ==> Left(e.op) > limit && StartsAbove(e.l, limit)
  }

  lemma {:induction false} StartsYield(x: Operator, e: Expr)
    ensures StartsAbove(e, if x.Prefix? then UNARY_PRIORITY else Right(x.op)) <==> YieldsTo(x, e)
    ensures StartsAbove(e, 0)
  {
    if e.Bin? {
      Priorities(x, e.op);
      StartsYield(x, e.l);
    }
  }

  lemma {:induction false} EdgeKeeps(e: Expr, q: BinOp)
    ensures Left(q) <= Edge(e) <==> KeepsFrom(e, q)
  {
    Priorities(Prefix, q);
    match e
    case Leaf(_) =>
    case Paren(_) =>
    case Unary(_, a) => EdgeKeeps(a, q);
    case Bin(op, _, b) => Priorities(Infix(op), q); EdgeKeeps(b, q);
  }

  lemma {:induction false} AllowedAbove(e: Expr, limit: nat)
    ensures Allowed(e, limit) <==> ByManual(e) && StartsAbove(e, limit)
  {
    match e
    case Leaf(_) =>
    case Paren(a) => AllowedAbove(a, 0); StartsYield(Prefix, a);
    case Unary(_, a) => AllowedAbove(a, UNARY_PRIORITY); StartsYield(Prefix, a);
    case Bin(op, a, b) =>
      AllowedAbove(a, limit);
      AllowedAbove(b, Right(op));
      StartsYield(Infix(op), b);
      EdgeKeeps(a, op);
  }

  /** The trees that the priorities allow are those in which every operand belongs to the operator
      that the manual says. */
  lemma {:induction false} AllowedByManual(e: Expr)
    ensures Allowed(e, 0) <==> ByManual(e)
  {
    AllowedAbove(e, 0);
    StartsYield(Prefix, e);
  }

  /** All the tokens are parsed as e exactly if they are the tokens of e, e is grouped as the manual
      says, and it is not too deep. */
  lemma {:induction false} ParsedByManual(ts: seq<Token>, max: nat, e: Expr)
    ensures Climb(ts, 0, 0, max, 0) == Parsed(e, |ts|) <==> Tokens(e) == ts && ByManual(e) && Depth(e) <= max
  {
    AllowedByManual(e);
    TokensSize(e);
    ParseExact(ts, 0, 0, max, 0, e);
    ClimbSound(ts, 0, 0, max, 0);
    if Size(e) == |ts| {
      TokensAt(ts, 0, e);
      assert ts[0..|ts|] == ts;
    }
  }

  /** What `x op y q z` is. */
  lemma {:induction false} TwoOperators(op: BinOp, q: BinOp, x: nat, y: nat, z: nat)
    ensures Climb([Operand(x), BinToken(op), Operand(y), BinToken(q), Operand(z)], 0, 0, 3, 0) ==
            Parsed(if Yields(Infix(op), q) then Bin(op, Leaf(x), Bin(q, Leaf(y), Leaf(z)))
                   else Bin(q, Bin(op, Leaf(x), Leaf(y)), Leaf(z)), 5)
  {
    var ts := [Operand(x), BinToken(op), Operand(y), BinToken(q), Operand(z)];
    var yz, xy := Bin(q, Leaf(y), Leaf(z)), Bin(op, Leaf(x), Leaf(y));
    OneOperator(q, y, z);
    OneOperator(op, x, y);
    assert Tokens(Bin(op, Leaf(x), yz)) == ts && Tokens(Bin(q, xy, Leaf(z))) == ts;
    assert YieldsTo(Infix(op), yz) <==> Yields(Infix(op), q);
    assert KeepsFrom(xy, q) <==> !Yields(Infix(op), q);
    ParsedByManual(ts, 3, Bin(op, Leaf(x), yz));
    ParsedByManual(ts, 3, Bin(q, xy, Leaf(z)));
  }

  lemma OneOperator(op: BinOp, x: nat, y: nat)
    ensures var e := Bin(op, Leaf(x), Leaf(y));
            Tokens(e) == [Operand(x), BinToken(op), Operand(y)] && ByManual(e) && Depth(e) == 2
  {
    assert KeepsFrom(Leaf(x), op) && YieldsTo(Infix(op), Leaf(y));
  }

  /** What `u x q y` and `x q u y` are. */
  lemma {:induction false} UnaryAndBinary(u: UnOp, q: BinOp, x: nat, y: nat)
    ensures Climb([UnToken(u), Operand(x), BinToken(q), Operand(y)], 0, 0, 3, 0) ==
            Parsed(if q == Pow then Unary(u, Bin(q, Leaf(x), Leaf(y))) else Bin(q, Unary(u, Leaf(x)), Leaf(y)), 4)
    ensures Climb([Operand(x), BinToken(q), UnToken(u), Operand(y)], 0, 0, 3, 0) ==
            Parsed(Bin(q, Leaf(x), Unary(u, Leaf(y))), 4)
  {
    var ts, ts' := [UnToken(u), Operand(x), BinToken(q), Operand(y)], [Operand(x), BinToken(q), UnToken(u), Operand(y)];
    OneOperator(q, x, y);
    OnePrefix(u, x);
    OnePrefix(u, y);
    var xy, ux, uy := Bin(q, Leaf(x), Leaf(y)), Unary(u, Leaf(x)), Unary(u, Leaf(y));
    assert Tokens(Unary(u, xy)) == ts && Tokens(Bin(q, ux, Leaf(y))) == ts && Tokens(Bin(q, Leaf(x), uy)) == ts';
    assert Yields(Prefix, q) <==> q == Pow by { PriorityOf(q); }
    assert YieldsTo(Prefix, xy) <==> Yields(Prefix, q);
    assert KeepsFrom(ux, q) <==> !Yields(Prefix, q);
    ParsedByManual(ts, 3, Unary(u, xy));
    ParsedByManual(ts, 3, Bin(q, ux, Leaf(y)));
    ParsedByManual(ts', 3, Bin(q, Leaf(x), uy));
  }

  lemma OnePrefix(u: UnOp, x: nat)
    ensures Tokens(Unary(u, Leaf(x))) == [UnToken(u), Operand(x)]
    ensures ByManual(Unary(u, Leaf(x))) && Depth(Unary(u, Leaf(x))) == 2
  {
    assert YieldsTo(Prefix, Leaf(x));
  }

  /** The parser that makes the tree, for all operators; the one that makes code instead, for those
      of its fragment, is in Parse and uses this state. */
  class Parser {
    const ts: seq<Token>
    const max: nat
    var pos: nat
    var depth: nat

    constructor (ts: seq<Token>, max: nat)
      ensures this.ts == ts && this.max == max && pos == 0 && depth == 0
    {
      this.ts, this.max, pos, depth := ts, max, 0, 0;
    }

    function Next(): Option<BinOp>
      reads this
    {
      if pos < |ts| then GetBinOp(ts[pos]) else None
    }

    method SimpleExp() returns (ok: bool, e: Expr)
      requires pos <= |ts|
      modifies this
      ensures var r := Primary(ts, old(pos), max, depth);
              depth == old(depth) && ok == r.Parsed? && (ok ==> e == r.e && pos == r.pos)
      decreases |ts| - pos, 0
    {
      var start, level := pos, depth;
      e := Leaf(0);
      if pos == |ts| {
        return false, e;
      }
      var uop, op := GetUnOp(ts[pos]), None;
      if uop.Some? {
        pos := pos + 1;
        ok, e, op := SubExpr(UNARY_PRIORITY);
        e := Unary(uop.value, e);
      } else if ts[pos].Operand? {
        ok, e := true, Leaf(ts[pos].id);
        pos := pos + 1;
      } else if ts[pos] == LParen {
        pos := pos + 1;
        ok, e, op := SubExpr(0);
        e := Paren(e);
        ok := ok && pos < |ts| && ts[pos] == RParen;
        if ok { pos := pos + 1; }
      } else {
        ok := false;
      }
      depth := level;
    }

    /** subexpr: the tree, and the operator after it. */
    method SubExpr(limit: nat) returns (ok: bool, e: Expr, op: Option<BinOp>)
      requires pos <= |ts|
      modifies this
      ensures var r := Climb(ts, old(pos), limit, max, old(depth));
              ok == r.Parsed? && (ok ==> e == r.e && pos == r.pos && depth == old(depth) && op == Next())
      decreases |ts| - pos, 1
    {
      depth := depth + 1;
      op, e := None, Leaf(0);
      if depth > max {
        return false, e, op;
      }
      ok, e := SimpleExp();
      if !ok {
        return;
      }
      op := Next();
      while op.Some? && Left(op.value) > limit
        invariant ok && old(pos) < pos <= |ts| && depth == old(depth) + 1 && op == Next()
        invariant Extend(ts, pos, limit, max, depth, e) == Climb(ts, old(pos), limit, max, old(depth))
        decreases |ts| - pos
      {
        pos := pos + 1;
        var e2, nextop;
        ok, e2, nextop := SubExpr(Right(op.value));
        if !ok {
          return;
        }
        e := Bin(op.value, e, e2);
        op := nextop;
      }
      depth := depth - 1;
    }
  }
}
