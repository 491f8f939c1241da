/**
 The `%q` printer for strings and the string reader of the lexer: reading back what was printed
 gives the same bytes.
 */
module Quote {
  import opened ByteStrings
  import opened Results

  const QUOTE: Byte := 34
  const BACKSLASH: Byte := 92
  const LF: Byte := 10
  const CR: Byte := 13
  const EOZ := -1
  const MAX_LINES := 0x7FFF_FFFF

  predicate IsControl(c: Byte) {
    c < 32 || c == 127
  }

  // ---------------------------------------------------------------------------------------------
  // The printer

  /** `%d` and `%03d` of a byte. */
  function Decimal(c: Byte, pad: bool): Bytes {
    if pad || c >= 100 then [48 + c / 100, 48 + c / 10 % 10, 48 + c % 10]
    else if c >= 10 then [48 + c / 10, 48 + c % 10]
    else [48 + c]
  }

  /** How one byte is written; a decimal escape is padded when a digit follows. */
  function Escaped(c: Byte, digitNext: bool): Bytes {
    if c == QUOTE || c == BACKSLASH || c == LF then [BACKSLASH, c]
    else if IsControl(c) then [BACKSLASH] + Decimal(c, digitNext)
    else [c]
  }

  predicate DigitAt(s: Bytes, j: nat) {
    j < |s| && IsDigit(s[j])
  }

  /** The bytes from index j on, as written. */
  function Body(s: Bytes, j: nat): Bytes
    requires j <= |s|
    decreases |s| - j
  {
    if j == |s| then [] else Escaped(s[j], DigitAt(s, j + 1)) + Body(s, j + 1)
  }

  function Quoted(s: Bytes): Bytes {
    [QUOTE] + Body(s, 0) + [QUOTE]
  }

  method AddQuoted(s: Bytes) returns (out: Bytes)
    ensures out == Quoted(s)
  {
    out := [QUOTE];
    for j := 0 to |s|
      invariant out + Body(s, j) == [QUOTE] + Body(s, 0)
    {
      var c := s[j];
      ghost var out0 := out;
      if c == QUOTE || c == BACKSLASH || c == LF {
        out := out + [BACKSLASH, c];
      } else if IsControl(c) {
        out := out + ([BACKSLASH] + Decimal(c, j + 1 < |s| && IsDigit(s[j + 1])));
      } else {
        out := out + [c];
      }
      Regroup(out0, Escaped(c, DigitAt(s, j + 1)), Body(s, j + 1));
    }
    out := out + [QUOTE];
  }

  lemma Regroup(a: Bytes, b: Bytes, c: Bytes)
    ensures a + b + c == a + (b + c)
  {
  }

  // ---------------------------------------------------------------------------------------------
  // Decimal escapes

  /** The number of digits at the start, at most n. */
  function Digits(z: Bytes, n: nat): (i: nat)
    ensures i <= n && i <= |z| && forall k :: 0 <= k < i ==> IsDigit(z[k])
    ensures i < n && i < |z| ==> !IsDigit(z[i])
  {
    if n > 0 && z != [] && IsDigit(z[0]) then 1 + Digits(z[1..], n - 1) else 0
  }

  function ValueOf(ds: Bytes): int {
    if ds == [] then 0 else 10 * ValueOf(ds[..|ds| - 1]) + (ds[|ds| - 1] as int - 48)
  }

  /** The escape ends where it was written to end, and denotes its byte. */
  lemma DecimalBack(c: Byte, pad: bool, rest: Bytes)
    requires pad || rest == [] || !IsDigit(rest[0])
    ensures var z := Decimal(c, pad) + rest;
            Digits(z, 3) == |Decimal(c, pad)| && ValueOf(z[..|Decimal(c, pad)|]) == c
  {
    var ds := Decimal(c, pad);
    assert (ds + rest)[..|ds|] == ds;
    DecimalDigits(c, pad, rest);
    DecimalValue(c, pad);
  }

  lemma DecimalDigits(c: Byte, pad: bool, rest: Bytes)
    requires pad || rest == [] || !IsDigit(rest[0])
    ensures Digits(Decimal(c, pad) + rest, 3) == |Decimal(c, pad)|
  {
    var ds := Decimal(c, pad);
    var z := ds + rest;
    assert forall k :: 0 <= k < |ds| ==> z[k] == ds[k] && IsDigit(ds[k]);
    if |rest| > 0 { assert z[|ds|] == rest[0]; }
  }

  lemma DecimalValue(c: Byte, pad: bool)
    ensures ValueOf(Decimal(c, pad)) == c
  {
    var ds := Decimal(c, pad);
    if |ds| == 1 {
      assert ds[..0] == [];
    } else if |ds| == 2 {
      ValueOfTwo(ds[0], ds[1]);
      assert ds == [ds[0], ds[1]];
    } else {
      ValueOfTwo(ds[0], ds[1]);
      assert ds[..2] == [ds[0], ds[1]];
      assert c == 100 * (c / 100) + 10 * (c / 10 % 10) + c % 10;
    }
  }

  lemma ValueOfTwo(a: Byte, b: Byte)
    ensures ValueOf([a, b]) == 10 * (a as int - 48) + (b as int - 48)
  {
    assert [a, b][..1] == [a] && [a][..0] == [];
    assert ValueOf([a]) == a as int - 48;
  }

  // ---------------------------------------------------------------------------------------------
  // The lexer

  predicate IsHex(c: int) {
    IsDigit(c) || 97 <= c <= 102 || 65 <= c <= 70
  }

  function HexValue(c: int): int
    requires IsHex(c)
  {
    if IsDigit(c) then c - 48 else if 97 <= c <= 102 then c - 97 + 10 else c - 65 + 10
  }

  predicate AllHex(z: Bytes, i: nat, j: nat) {
    i <= j <= |z| && forall k :: i <= k < j ==> IsHex(z[k])
  }

  /** The number that the hexadecimal digits from i to j denote. */
  function HexNumber(z: Bytes, i: nat, j: nat): nat
    requires AllHex(z, i, j)
  {
    if i == j then 0 else 16 * HexNumber(z, i, j - 1) + HexValue(z[j - 1])
  }

  const UTF8_LIMIT := 0x8000_0000

  /** UTF-8, with the sequences of up to six bytes of RFC 2279. */
  function Utf8(x: nat): Bytes
    requires x < UTF8_LIMIT
  {
    if x < 0x80 then [x]
    else if x < 0x800 then [0xC0 + x / 0x40] + Continued(x, 1)
    else if x < 0x1_0000 then [0xE0 + x / 0x1000] + Continued(x, 2)
    else if x < 0x20_0000 then [0xF0 + x / 0x4_0000] + Continued(x, 3)
    else if x < 0x400_0000 then [0xF8 + x / 0x100_0000] + Continued(x, 4)
    else [0xFC + x / 0x4000_0000] + Continued(x, 5)
  }

  /** The low 6 * n bits of x, six to a byte. */
  function Continued(x: nat, n: nat): (b: Bytes)
    ensures |b| == n
  {
    if n == 0 then [] else Continued(x / 64, n - 1) + [0x80 + x % 64]
  }

  function Shifted(x: nat, n: nat): nat {
    if n == 0 then x else Shifted(x / 64, n - 1)
  }

  lemma {:induction false} ShiftedMore(x: nat, n: nat)
    ensures Shifted(x, n + 1) == Shifted(x, n) / 64
  {
    if n > 0 { ShiftedMore(x / 64, n - 1); }
  }

  lemma {:induction false} ContinuedMore(x: nat, n: nat)
    ensures Continued(x, n + 1) == [0x80 + Shifted(x, n) % 64] + Continued(x, n)
  {
    if n > 0 { ContinuedMore(x / 64, n - 1); }
  }

  /** The bits that the first of n + 1 bytes has room for. */
  function Mask(n: nat): nat {
    if n == 0 then 0x3F else if n == 1 then 0x1F else if n == 2 then 0xF else if n == 3 then 7
    else if n == 4 then 3 else 1
  }

  lemma ShiftedIs(x: nat)
    ensures Shifted(x, 1) == x / 0x40 && Shifted(x, 2) == x / 0x1000 && Shifted(x, 3) == x / 0x4_0000
    ensures Shifted(x, 4) == x / 0x100_0000 && Shifted(x, 5) == x / 0x4000_0000
  {
    ShiftedMore(x, 1);
    ShiftedMore(x, 2);
    ShiftedMore(x, 3);
    ShiftedMore(x, 4);
  }

  /** When the rest of x has room in the first byte, the bytes are those of x. */
  lemma FirstByte(x: nat, n: nat)
    requires 0x80 <= x < UTF8_LIMIT && 1 <= n <= 5 && Shifted(x, n) <= Mask(n)
             && (n > 1 ==> Shifted(x, n - 1) > Mask(n - 1))
    ensures Utf8(x) == [256 - 2 * Mask(n) - 2 + Shifted(x, n)] + Continued(x, n)
  {
    ShiftedIs(x);
  }

  /** utf8esc: from the last byte to the first. */
  method Utf8Esc(x: nat) returns (b: Bytes)
    requires x < UTF8_LIMIT
    ensures b == Utf8(x)
  {
    if x < 0x80 {
      return [x];
    }
    ShiftedIs(x);
    b := [0x80 + x % 64];
    var y: nat, mfb: nat, n := x / 64, 0x1F, 1;
    while y > mfb
      invariant 1 <= n <= 5 && b == Continued(x, n) && y == Shifted(x, n) && mfb == Mask(n)
      invariant n > 1 ==> Shifted(x, n - 1) > Mask(n - 1)
      decreases 5 - n
    {
      ContinuedMore(x, n);
      ShiftedMore(x, n);
      b := [0x80 + y % 64] + b;
      n := n + 1;
      y := y / 64;
      mfb := mfb / 2;
    }
    FirstByte(x, n);
    b := [256 - 2 * mfb - 2 + y] + b;
  }

  predicate IsSpace(c: int) {
    c == 32 || 9 <= c <= 13
  }

  /** The escapes of one letter. */
  function SimpleEscape(c: int): (e: int)
    ensures e == EOZ || 0 <= e < 256
  {
    if c == 97 then 7 else if c == 98 then 8 else if c == 102 then 12 else if c == 110 then LF
    else if c == 114 then CR else if c == 116 then 9 else if c == 118 then 11 else EOZ
  }

  function LineEnd(c: Byte): nat {
    if c == LF then 1 else 0
  }

  /** The number of line ends among the first n bytes. */
  function Lines(s: Bytes, n: nat): nat
    requires n <= |s|
  {
    if n == 0 then 0 else Lines(s, n - 1) + LineEnd(s[n - 1])
  }

  lemma {:induction false} LinesGrow(s: Bytes, n: nat, m: nat)
    requires n <= m <= |s|
    ensures Lines(s, n) <= Lines(s, m)
    decreases m
  {
    if n < m { LinesGrow(s, n, m - 1); }
  }

  // What string literals denote

  datatype Lexed = Text(value: Bytes, rest: Bytes, line: nat) | Bad

  predicate IsLineEnd(c: int) {
    c == LF || c == CR
  }

  /** What follows a line end of one or two bytes. */
  function SkipLine(z: Bytes): (r: Bytes)
    requires z != []
    ensures |r| < |z|
  {
    if |z| > 1 && IsLineEnd(z[1]) && z[1] != z[0] then z[2..] else z[1..]
  }

  /** The spaces after `\z` count for nothing, but line ends among them are counted. */
  function Spaces(z: Bytes, line: nat): (r: Lexed)
    ensures r.Text? ==> r.value == [] && |r.rest| <= |z|
    decreases |z|
  {
    if z == [] || !IsSpace(z[0]) then Text([], z, line)
    else if !IsLineEnd(z[0]) then Spaces(z[1..], line)
    else if line + 1 < MAX_LINES then Spaces(SkipLine(z), line + 1)
    else Bad
  }

  /** Where the hexadecimal digits from index i on end. */
  function HexEnd(z: Bytes, i: nat): (e: nat)
    requires i <= |z|
    ensures AllHex(z, i, e)
    ensures e < |z| ==> !IsHex(z[e])
    decreases |z| - i
  {
    if i < |z| && IsHex(z[i]) then HexEnd(z, i + 1) else i
  }

  lemma {:induction false} HexGrow(z: Bytes, i: nat, j: nat, n: nat)
    requires i <= j <= n && AllHex(z, i, n)
    ensures HexNumber(z, i, j) <= HexNumber(z, i, n)
    decreases n
  {
    if j < n { HexGrow(z, i, j, n - 1); }
  }

  /** One digit more. */
  lemma {:induction false} HexStep(z: Bytes, i: nat, j: nat)
    requires i <= j < |z| && AllHex(z, i, j) && IsHex(z[j]) && HexEnd(z, i) == HexEnd(z, j)
    ensures AllHex(z, i, j + 1) && HexEnd(z, i) == HexEnd(z, j + 1)
    ensures HexNumber(z, i, j + 1) == 16 * HexNumber(z, i, j) + HexValue(z[j])
    ensures if HexNumber(z, i, j) <= 0x7FF_FFFF then HexNumber(z, i, j + 1) < UTF8_LIMIT
            else HexNumber(z, i, HexEnd(z, i)) >= UTF8_LIMIT
  {
    HexGrow(z, i, j + 1, HexEnd(z, i));
  }

  /** `\xXX`, from the x on. */
  function HexEscape(z: Bytes, line: nat): (r: Lexed)
    ensures r.Text? ==> |r.rest| <= |z|
  {
    if |z| >= 3 && IsHex(z[1]) && IsHex(z[2]) then Text([16 * HexValue(z[1]) + HexValue(z[2])], z[3..], line) else Bad
  }

  /** `\u{XXX}`, from the u on: any number of digits, for a number below 2^31. */
  function Utf8Escape(z: Bytes, line: nat): (r: Lexed)
    ensures r.Text? ==> |r.rest| <= |z|
  {
    if |z| < 2 || z[1] != 123 then Bad
    else
      var e := HexEnd(z, 2);
      if 2 < e < |z| && z[e] == 125 && HexNumber(z, 2, e) < UTF8_LIMIT then
        Text(Utf8(HexNumber(z, 2, e)), z[e + 1..], line)
      else Bad
  }

  /** `\ddd`: up to three digits. */
  function DecimalEscape(z: Bytes, line: nat): (r: Lexed)
    ensures r.Text? ==> |r.rest| <= |z|
  {
    var v := ValueOf(z[..Digits(z, 3)]);
    if 0 <= v <= 255 then Text([v], z[Digits(z, 3)..], line) else Bad
  }

  /** What follows the backslash. */
  function Escape(z: Bytes, line: nat): (r: Lexed)
    ensures r.Text? ==> |r.rest| <= |z|
  {
    if z == [] then Text([BACKSLASH], [], line)            // unfinished, as the next character tells
    else
      var c := z[0];
      if IsDigit(c) then DecimalEscape(z, line)
      else if SimpleEscape(c) != EOZ then Text([SimpleEscape(c)], z[1..], line)
      else if IsLineEnd(c) then if line + 1 < MAX_LINES then Text([LF], SkipLine(z), line + 1) else Bad
      else if c == BACKSLASH || c == QUOTE || c == 39 then Text([c], z[1..], line)
      else if c == 120 then HexEscape(z, line)
      else if c == 117 then Utf8Escape(z, line)
      else if c == 122 then Spaces(z[1..], line)
      else Bad
  }

  /** One character of a literal. */
  function Piece(z: Bytes, line: nat): (r: Lexed)
    ensures r.Text? ==> |r.rest| < |z|
  {
    if z == [] || IsLineEnd(z[0]) then Bad
    else if z[0] == BACKSLASH then Escape(z[1..], line)
    else Text([z[0]], z[1..], line)
  }

  function Onto(v: Bytes, x: Lexed): Lexed {
    if x.Text? then x.(value := v + x.value) else Bad
  }

  /** A literal, after its opening delimiter: what it denotes, and what follows its closing one. */
  function Literal(z: Bytes, del: Byte, line: nat): Lexed
    decreases |z|
  {
    if z != [] && z[0] == del then Text([], z[1..], line)
    else
      var p := Piece(z, line);
      if p.Bad? then Bad else Onto(p.value, Literal(p.rest, del, p.line))
  }

  /** One character more. */
  lemma {:induction false} LiteralStep(v: Bytes, z: Bytes, del: Byte, line: nat)
    requires z == [] || z[0] != del
    ensures var p := Piece(z, line);
            && (p.Bad? ==> Onto(v, Literal(z, del, line)) == Bad)
            && (p.Text? ==> Onto(v, Literal(z, del, line)) == Onto(v + p.value, Literal(p.rest, del, p.line)))
  {
    var p := Piece(z, line);
    if p.Text? { OntoTwice(v, p.value, Literal(p.rest, del, p.line)); }
  }

  lemma {:induction false} LiteralOn(z: Bytes, del: Byte, line: nat, x: Lexed)
    requires z == [] || z[0] != del
    requires Piece(z, line).Text? && Literal(Piece(z, line).rest, del, Piece(z, line).line) == x
    ensures Literal(z, del, line) == Onto(Piece(z, line).value, x)
  {
  }

  lemma OntoTwice(v: Bytes, w: Bytes, x: Lexed)
    ensures Onto(v, Onto(w, x)) == Onto(v + w, x)
  {
    if x.Text? { assert v + (w + x.value) == v + w + x.value; }
  }

  // The quoted form denotes the string

  /** The input z is the escape of c, as printed, before rest. */
  ghost predicate Restores(z: Bytes, line: nat, c: Byte, pad: bool, rest: Bytes) {
    && z == Escaped(c, pad) + rest && (c == QUOTE || c == BACKSLASH || IsControl(c))
    && (pad || rest == [] || !IsDigit(rest[0])) && (rest == [] || rest[0] != CR)
    && line + LineEnd(c) < MAX_LINES
  }

  lemma EscapeFacts(z: Bytes, line: nat, c: Byte, pad: bool, rest: Bytes)
    requires Restores(z, line, c, pad, rest)
    ensures |z| >= 2 && z[0] == BACKSLASH
    ensures c == QUOTE || c == BACKSLASH || c == LF ==> z[1..] == [c] + rest && z[1..][1..] == rest
    ensures !(c == QUOTE || c == BACKSLASH || c == LF) ==>
              && IsDigit(z[1]) && Digits(z[1..], 3) <= |z[1..]|
              && ValueOf(z[1..][..Digits(z[1..], 3)]) == c && z[1..][Digits(z[1..], 3)..] == rest
  {
    if !(c == QUOTE || c == BACKSLASH || c == LF) {
      assert z[1..] == Decimal(c, pad) + rest;
      DecimalBack(c, pad, rest);
    }
  }

  /** What is still to be read once the first j bytes of s are. */
  function Remaining(s: Bytes, j: nat, tail: Bytes): (z: Bytes)
    requires j <= |s|
    ensures |z| > 0
  {
    Body(s, j) + ([QUOTE] + tail)
  }

  /** What is written first tells what is printed. */
  lemma RemainingFirst(s: Bytes, j: nat, tail: Bytes)
    requires j <= |s|
    ensures var z := Remaining(s, j, tail);
            && z[0] != CR && z[0] != LF && (z[0] == QUOTE <==> j == |s|) && (IsDigit(z[0]) <==> DigitAt(s, j))
            && (j < |s| ==> z[0] == if s[j] == QUOTE || s[j] == BACKSLASH || IsControl(s[j]) then BACKSLASH else s[j])
  {
  }

  lemma RemainingStep(s: Bytes, j: nat, tail: Bytes)
    requires j < |s|
    ensures Remaining(s, j, tail) == Escaped(s[j], DigitAt(s, j + 1)) + Remaining(s, j + 1, tail)
  {
    Regroup(Escaped(s[j], DigitAt(s, j + 1)), Body(s, j + 1), [QUOTE] + tail);
  }

  /** The next byte of s, from its printed form. */
  lemma Ahead(z: Bytes, s: Bytes, j: nat, tail: Bytes, line: nat, l: nat)
    requires j < |s| && z == Remaining(s, j, tail) && line == l + Lines(s, j) && l + Lines(s, |s|) < MAX_LINES
    ensures var c, rest := s[j], Remaining(s, j + 1, tail);
            && z[0] == (if c == QUOTE || c == BACKSLASH || IsControl(c) then BACKSLASH else c)
            && if z[0] == BACKSLASH then Restores(z, line, c, DigitAt(s, j + 1), rest) else z[1..] == rest
  {
    RemainingStep(s, j, tail);
    RemainingFirst(s, j, tail);
    RemainingFirst(s, j + 1, tail);
    LinesGrow(s, j + 1, |s|);
  }

  /** The input z, on this line, goes on with the character c and then rest. (Comparing with true
      keeps the verifier from taking the conjunction apart.) */
  ghost predicate Goes(z: Bytes, line: nat, c: Byte, rest: Bytes, line': nat) {
    (z != [] && z[0] != QUOTE && Piece(z, line) == Text([c], rest, line')) == true
  }

  lemma {:induction false} EscapeBack(z: Bytes, line: nat, c: Byte, pad: bool, rest: Bytes)
    requires Restores(z, line, c, pad, rest)
    ensures Goes(z, line, c, rest, line + LineEnd(c))
  {
    EscapeFacts(z, line, c, pad, rest);
  }

  lemma {:induction false} PlainBack(z: Bytes, line: nat, c: Byte, rest: Bytes)
    requires z != [] && z[0] == c && c != QUOTE && c != BACKSLASH && !IsLineEnd(c) && z[1..] == rest
    ensures Goes(z, line, c, rest, line + LineEnd(c))
  {
  }

  /** What is printed for the next byte of s denotes it. */
  lemma {:induction false} PieceBack(s: Bytes, j: nat, tail: Bytes, l: nat)
    requires j < |s| && l + Lines(s, |s|) < MAX_LINES
    ensures Goes(Remaining(s, j, tail), l + Lines(s, j), s[j], Remaining(s, j + 1, tail), l + Lines(s, j + 1))
  {
    var z, c, rest, line := Remaining(s, j, tail), s[j], Remaining(s, j + 1, tail), l + Lines(s, j);
    RemainingFirst(s, j, tail);
    Ahead(z, s, j, tail, line, l);
    LineAhead(s, j);
    if z[0] == BACKSLASH {
      EscapeBack(z, line, c, DigitAt(s, j + 1), rest);
    } else {
      PlainBack(z, line, c, rest);
    }
  }

  lemma LineAhead(s: Bytes, j: nat)
    requires j < |s|
    ensures Lines(s, j + 1) == Lines(s, j) + LineEnd(s[j])
  {
  }

  /** The input before character i of s, on its line, goes on with that character. */
  ghost predicate PieceAt(s: Bytes, z: seq<Bytes>, line: seq<nat>, i: nat)
    requires i < |s| && |z| == |line| == |s| + 1
  {
    Goes(z[i], line[i], s[i], z[i + 1], line[i + 1])
  }

  /** What goes on with the characters of s, and then the delimiter, is a literal that denotes s. */
  lemma {:induction false} Pieced(s: Bytes, z: seq<Bytes>, line: seq<nat>, tail: Bytes)
    requires |z| == |line| == |s| + 1 && forall i :: 0 <= i < |s| ==> PieceAt(s, z, line, i)
    requires z[|s|] == [QUOTE] + tail
    ensures Literal(z[0], QUOTE, line[0]) == Text(s, tail, line[|s|])
  {
    var x := seq(|s| + 1, i requires 0 <= i <= |s| => Literal(z[i], QUOTE, line[i]));
    forall i | 0 <= i < |s| ensures OneMore(s, x, i) {
      PieceOn(s, z, line, i, x[i + 1]);
    }
    Together(s, x, 0, tail, line[|s|]);
    assert s[0..] == s;
  }

  ghost predicate OneMore(s: Bytes, x: seq<Lexed>, i: nat)
    requires i < |s| && |x| == |s| + 1
  {
    x[i] == Onto([s[i]], x[i + 1])
  }

  lemma {:induction false} Together(s: Bytes, x: seq<Lexed>, j: nat, tail: Bytes, line: nat)
    requires j <= |s| && |x| == |s| + 1 && x[|s|] == Text([], tail, line)
    requires forall i :: 0 <= i < |s| ==> OneMore(s, x, i)
    ensures x[j] == Text(s[j..], tail, line)
    decreases |s| - j
  {
    if j < |s| {
      Together(s, x, j + 1, tail, line);
      assert OneMore(s, x, j) && [s[j]] + s[j + 1..] == s[j..];
    }
  }

  lemma {:induction false} PieceOn(s: Bytes, z: seq<Bytes>, line: seq<nat>, j: nat, x: Lexed)
    requires j < |s| && |z| == |line| == |s| + 1 && PieceAt(s, z, line, j)
    requires x == Literal(z[j + 1], QUOTE, line[j + 1])
    ensures Literal(z[j], QUOTE, line[j]) == Onto([s[j]], x)
  {
    LiteralOn(z[j], QUOTE, line[j], x);
  }

  lemma {:induction false} PiecesOf(s: Bytes, tail: Bytes, l: nat) returns (z: seq<Bytes>, line: seq<nat>)
    requires l + Lines(s, |s|) < MAX_LINES
    ensures |z| == |line| == |s| + 1 && forall i :: 0 <= i < |s| ==> PieceAt(s, z, line, i)
    ensures z[0] == (Quoted(s) + tail)[1..] && z[|s|] == [QUOTE] + tail
    ensures line[0] == l && line[|s|] == l + Lines(s, |s|)
  {
    z := seq(|s| + 1, i requires 0 <= i <= |s| => Remaining(s, i, tail));
    line := seq(|s| + 1, i requires 0 <= i <= |s| => l + Lines(s, i));
    forall i | 0 <= i < |s| ensures PieceAt(s, z, line, i) {
      PieceIs(s, z, line, i, tail, l);
    }
    RemainingEnds(s, tail);
  }

  lemma {:induction false} PieceIs(s: Bytes, z: seq<Bytes>, line: seq<nat>, i: nat, tail: Bytes, l: nat)
    requires l + Lines(s, |s|) < MAX_LINES && i < |s| && |z| == |line| == |s| + 1
    requires z[i] == Remaining(s, i, tail) && z[i + 1] == Remaining(s, i + 1, tail)
    requires line[i] == l + Lines(s, i) && line[i + 1] == l + Lines(s, i + 1)
    ensures PieceAt(s, z, line, i)
  {
    PieceBack(s, i, tail, l);
  }

  lemma {:induction false} RemainingEnds(s: Bytes, tail: Bytes)
    ensures (Quoted(s) + tail)[1..] == Remaining(s, 0, tail) && Remaining(s, |s|, tail) == [QUOTE] + tail
  {
  }

  /** The quoted form of a string, followed by anything, is a literal that denotes the string. */
  lemma {:induction false} LiteralQuoted(s: Bytes, tail: Bytes, l: nat)
    requires l + Lines(s, |s|) < MAX_LINES
    ensures Literal((Quoted(s) + tail)[1..], QUOTE, l) == Text(s, tail, l + Lines(s, |s|))
  {
    var z, line := PiecesOf(s, tail, l);
    Pieced(s, z, line, tail);
  }

  class LexState {
    var z: Bytes          // input not yet read
    var current: int      // current character, or EOZ
    var line: nat
    var buff: Bytes

    constructor (input: Bytes, line: nat)
      ensures Valid() && Rest() == input && this.line == line && buff == []
    {
      this.line, buff := line, [];
      current := if input == [] then EOZ else input[0];
      z := if input == [] then [] else input[1..];
    }

    predicate Valid()
      reads this
    {
      -1 <= current < 256 && (current == EOZ ==> z == [])
    }

    /** The current character and what follows. */
    function Rest(): Bytes
      requires Valid()
      reads this
    {
      if current == EOZ then [] else [current as Byte] + z
    }

    method Next()
      requires Valid()
      modifies this`z, this`current
      ensures Valid() && Rest() == old(if Rest() == [] then [] else Rest()[1..])
    {
      if z == [] {
        current := EOZ;
      } else {
        current, z := z[0], z[1..];
      }
    }

    method Save(c: Byte)
      modifies this`buff
      ensures buff == old(buff) + [c]
    {
      buff := buff + [c];
    }

    method SaveAndNext()
      requires Valid() && current != EOZ
      modifies this`z, this`current, this`buff
      ensures Valid() && Rest() == old(Rest())[1..] && buff == old(buff) + [old(current)]
    {
      Save(current);
      Next();
    }

    predicate OnNewline()
      reads this
    {
      current == LF || current == CR
    }

    /** inclinenumber: a line end of one or two characters. */
    method IncLineNumber() returns (st: Status)
      requires Valid() && OnNewline()
      modifies this`z, this`current, this`line
      ensures Valid() && |Rest()| < |old(Rest())|
      ensures var r := old(Rest());
              Rest() == if |r| > 1 && (r[1] == LF || r[1] == CR) && r[1] != r[0] then r[2..] else r[1..]
      ensures line == old(line) + 1 && (st.Ok? <==> line < MAX_LINES)
    {
      var first := current;
      Next();
      if OnNewline() && current != first {
        Next();
      }
      line := line + 1;
      st := if line >= MAX_LINES then Failed("chunk has too many lines") else Ok;
    }

    /** readdecesc: up to three digits. */
    method ReadDecEsc() returns (st: Status, r: int)
      requires Valid()
      modifies this`z, this`current, this`buff
      ensures Valid() && Rest() == old(Rest())[Digits(old(Rest()), 3)..]
      ensures r == ValueOf(old(Rest())[..Digits(old(Rest()), 3)])
      ensures st.Ok? <==> r <= 255
      ensures st.Ok? ==> buff == old(buff) && r >= 0
    {
      ghost var all := Rest();
      var i := 0;
      r := 0;
      while i < 3 && IsDigit(current)
        invariant Valid() && 0 <= i <= 3 && i <= |all| && Rest() == all[i..] && buff == old(buff) + all[..i]
        invariant Digits(all, 3) == i + Digits(all[i..], 3 - i) && r == ValueOf(all[..i]) >= 0
      {
        assert all[..i + 1][..i] == all[..i];
        assert all[i..][1..] == all[i + 1..];
        r := 10 * r + (current - 48);
        SaveAndNext();
        i := i + 1;
      }
      if r > 255 {
        return Failed("decimal escape too large"), r;
      }
      buff := buff[..|buff| - i];
      st := Ok;
    }

    /** The lexer has got from x what it denotes, or failed where it denotes nothing. */
    ghost predicate Answers(st: Status, x: Lexed, b: Bytes)
      requires Valid()
      reads this
    {
      (if x.Text? then st.Ok? && Rest() == x.rest && line == x.line && buff == b + x.value else st.Failed?) == true
    }

    /** The first i bytes of z have been put in the buffer, after b. */
    ghost predicate Taken(z: Bytes, b: Bytes, i: nat)
      reads this
    {
      (Valid() && i <= |z| && Rest() == z[i..] && buff == b + z[..i]) == true
    }

    method TakeNext(ghost z: Bytes, ghost b: Bytes, ghost i: nat)
      requires Taken(z, b, i) && i < |z|
      modifies this`z, this`current, this`buff
      ensures Taken(z, b, i + 1)
    {
      SaveAndNext();
      assert z[..i + 1] == z[..i] + [z[i]];
    }

    lemma TakenFacts(z: Bytes, b: Bytes, i: nat)
      requires Taken(z, b, i)
      ensures Valid() && i <= |z| && Rest() == z[i..] && |buff| == |b| + i && buff[..|b|] == b
      ensures current == if i < |z| then z[i] else EOZ
    {
      if current != EOZ { assert Rest()[0] == current; }
      assert i < |z| ==> z[i..][0] == z[i];
    }

    /** readhexaesc: exactly two digits after the x; the second is still the current character. */
    method ReadHexaEsc() returns (st: Status, r: int)
      requires Valid() && current == 120
      modifies this`z, this`current, this`buff
      ensures Valid() && (st.Ok? <==> HexEscape(old(Rest()), line).Text?)
      ensures st.Ok? ==> Rest() == old(Rest())[2..] && buff == old(buff) && [r] == HexEscape(old(Rest()), line).value
    {
      ghost var z, b := Rest(), buff;
      r := 0;
      TakeNext(z, b, 0);
      TakenFacts(z, b, 1);
      if !IsHex(current) {
        return Failed("hexadecimal digit expected"), 0;
      }
      r := HexValue(current);
      TakeNext(z, b, 1);
      TakenFacts(z, b, 2);
      if !IsHex(current) {
        return Failed("hexadecimal digit expected"), 0;
      }
      r := 16 * r + HexValue(current);
      buff := buff[..|buff| - 2];
      st := Ok;
    }

    /** The hexadecimal digits of a number, as many as there are, and their count. */
    method ReadHexDigits(ghost z: Bytes, ghost b: Bytes, ghost i0: nat) returns (st: Status, r: int, i: nat)
      requires Taken(z, b, i0) && i0 < |z| && IsHex(z[i0])
      modifies this`z, this`current, this`buff
      ensures Valid() && (st.Ok? <==> HexNumber(z, i0, HexEnd(z, i0)) < UTF8_LIMIT)
      ensures st.Ok? ==> i0 + i == HexEnd(z, i0) && r == HexNumber(z, i0, i0 + i) && Taken(z, b, i0 + i)
    {
      ghost var j := i0 + 1;
      TakenFacts(z, b, i0);
      HexStep(z, i0, i0);
      r, i := HexValue(current), 1;
      TakeNext(z, b, i0);
      TakenFacts(z, b, j);
      while IsHex(current)
        invariant i0 < j == i0 + i && AllHex(z, i0, j) && HexEnd(z, i0) == HexEnd(z, j) && Taken(z, b, j)
        invariant current == if j < |z| then z[j] else EOZ
        invariant r == HexNumber(z, i0, j) < UTF8_LIMIT
        decreases |z| - j
      {
        HexStep(z, i0, j);
        if r > 0x7FF_FFFF {
          st := Failed("UTF-8 value too large");
          return;
        }
        r := 16 * r + HexValue(current);
        TakeNext(z, b, j);
        i, j := i + 1, j + 1;
        TakenFacts(z, b, j);
      }
      st := Ok;
    }

    /** readutf8esc: the number in braces after the u, in hexadecimal. */
    method ReadUtf8Esc() returns (st: Status, r: int)
      requires Valid() && current == 117 && buff != []
      modifies this`z, this`current, this`buff
      ensures Valid() && (st.Ok? <==> Utf8Escape(old(Rest()), line).Text?)
      ensures st.Ok? ==>
                && 0 <= r < UTF8_LIMIT && Text(Utf8(r), Rest(), line) == Utf8Escape(old(Rest()), line)
                && buff == old(buff)[..|old(buff)| - 1]
    {
      ghost var z, b := Rest(), buff;
      r := 0;
      TakeNext(z, b, 0);
      TakenFacts(z, b, 1);
      if current != 123 {                         // '{'
        return Failed("missing '{'"), r;
      }
      TakeNext(z, b, 1);
      TakenFacts(z, b, 2);
      if !IsHex(current) {
        return Failed("hexadecimal digit expected"), r;
      }
      st, r := ReadBraced(z, b);
    }

    /** The number, and the brace after it. */
    method ReadBraced(ghost z: Bytes, ghost b: Bytes) returns (st: Status, r: int)
      requires Taken(z, b, 2) && b != [] && 2 < |z| && z[1] == 123 && IsHex(z[2])
      modifies this`z, this`current, this`buff
      ensures Valid() && (st.Ok? <==> Utf8Escape(z, line).Text?)
      ensures st.Ok? ==>
                && 0 <= r < UTF8_LIMIT && Text(Utf8(r), Rest(), line) == Utf8Escape(z, line)
                && buff == b[..|b| - 1]
    {
      var i;
      r, i :- ReadHexDigits(z, b, 2);
      TakenFacts(z, b, i + 2);
      if current != 125 {                         // '}'
        return Failed("missing '}'"), r;
      }
      Next();
      buff := buff[..|buff| - (i + 3)];           // the backslash, the u, the brace and the digits
      st := Ok;
    }

    /** escReadSave: the backslash in the buffer is replaced by the byte the escape denotes. */
    method EscReadSave(c: Byte)
      requires Valid() && buff != []
      modifies this`z, this`current, this`buff
      ensures Valid() && Rest() == old(if Rest() == [] then [] else Rest()[1..])
              && buff == old(buff)[..|old(buff)| - 1] + [c]
    {
      Next();
      EscOnlySave(c);
    }

    method EscOnlySave(c: Byte)
      requires buff != []
      modifies this`buff
      ensures buff == old(buff)[..|old(buff)| - 1] + [c]
    {
      buff := buff[..|buff| - 1];
      Save(c);
    }

    /** The spaces after `\z`. */
    method SkipSpaces() returns (st: Status)
      requires Valid()
      modifies this`z, this`current, this`line
      ensures Valid() && Answers(st, Spaces(old(Rest()), old(line)), buff)
    {
      ghost var x := Spaces(Rest(), line);
      while IsSpace(current)
        invariant Valid() && Spaces(Rest(), line) == x
        decreases |Rest()|
      {
        if OnNewline() {
          :- IncLineNumber();
        } else {
          Next();
        }
      }
      st := Ok;
    }

    /** An escape sequence, from the backslash on. */
    method ReadEscape() returns (st: Status)
      requires Valid() && current == BACKSLASH
      modifies this
      ensures Valid() && Answers(st, Escape(old(Rest())[1..], old(line)), old(buff))
    {
      ghost var z, b := Rest(), buff;
      SaveAndNext();
      assert buff[..|buff| - 1] == b;
      if IsDigit(current) {
        var r :- ReadDecEsc();
        EscOnlySave(r);
        st := Ok;
      } else {
        st := ReadLetterEscape();
      }
    }

    /** The escapes other than decimal ones, after the backslash. */
    method ReadLetterEscape() returns (st: Status)
      requires Valid() && buff != [] && buff[|buff| - 1] == BACKSLASH && !IsDigit(current)
      modifies this
      ensures Valid() && Answers(st, Escape(old(Rest()), old(line)), old(buff)[..|old(buff)| - 1])
    {
      ghost var b := buff;
      st := Ok;
      var esc := SimpleEscape(current);
      if esc != EOZ {
        EscReadSave(esc);
      } else if OnNewline() {
        :- IncLineNumber();
        EscOnlySave(LF);
      } else if current == BACKSLASH || current == QUOTE || current == 39 {
        EscReadSave(current);
      } else if current == EOZ {
        assert b == b[..|b| - 1] + [BACKSLASH];
      } else {
        st := ReadOtherEscape();
      }
    }

    /** `\x`, `\u` and `\z`. */
    method ReadOtherEscape() returns (st: Status)
      requires Valid() && buff != [] && current != EOZ
      requires !IsDigit(current) && SimpleEscape(current) == EOZ && !OnNewline()
      requires current != BACKSLASH && current != QUOTE && current != 39
      modifies this
      ensures Valid() && Answers(st, Escape(old(Rest()), old(line)), old(buff)[..|old(buff)| - 1])
    {
      ghost var z := Rest();
      if current == 120 {                         // 'x'
        var r :- ReadHexaEsc();
        EscReadSave(r);
        assert z[2..][1..] == z[3..];
        st := Ok;
      } else if current == 117 {                  // 'u'
        var r :- ReadUtf8Esc();
        var bytes := Utf8Esc(r);
        buff := buff + bytes;
        st := Ok;
      } else if current == 122 {                  // 'z'
        buff := buff[..|buff| - 1];
        Next();
        st := SkipSpaces();
      } else {
        st := Failed("invalid escape sequence");
      }
    }

    /** One round of readString. */
    method ReadChar() returns (st: Status)
      requires Valid()
      modifies this
      ensures Valid() && Answers(st, Piece(old(Rest()), old(line)), old(buff))
    {
      if current == EOZ || OnNewline() {
        return Failed("unfinished string");
      } else if current == BACKSLASH {
        st := ReadEscape();
      } else {
        SaveAndNext();
        st := Ok;
      }
    }

    /** What is in the buffer and what is still to be read make x. */
    ghost predicate Reading(x: Lexed, del: Byte)
      requires Valid()
      reads this
    {
      (|buff| >= 1 && x == Onto(buff[1..], Literal(Rest(), del, line))) == true
    }

    method ReadMore(del: Byte, ghost x: Lexed) returns (st: Status)
      requires Valid() && Reading(x, del) && current != del as int
      modifies this
      ensures Valid() && if st.Ok? then Reading(x, del) && |Rest()| < |old(Rest())| else x == Bad
    {
      ghost var b, p := buff, Piece(Rest(), line);
      LiteralStep(b[1..], Rest(), del, line);
      st := ReadChar();
      assert st.Ok? ==> b[1..] + p.value == buff[1..];
    }

    lemma ReadAll(x: Lexed, del: Byte)
      requires Valid() && Reading(x, del) && current == del as int
      ensures x == Text(buff[1..], Rest()[1..], line)
    {
    }

    /** readString, from the opening delimiter on. */
    method ReadString() returns (st: Status, value: Bytes)
      requires Valid() && (current == QUOTE || current == 39) && buff == []
      modifies this
      ensures Valid()
      ensures var x := Literal(old(Rest())[1..], old(current) as Byte, old(line));
              if x.Text? then st.Ok? && value == x.value && Rest() == x.rest && line == x.line else st.Failed?
    {
      var del := current;
      ghost var x := Literal(Rest()[1..], del as Byte, line);
      value := [];
      SaveAndNext();
      while current != del
        invariant Valid() && Reading(x, del as Byte)
        decreases |Rest()|
      {
        :- ReadMore(del as Byte, x);
      }
      ReadAll(x, del as Byte);
      ghost var b := buff;
      SaveAndNext();
      assert buff[1..|buff| - 1] == b[1..];
      value := buff[1..|buff| - 1];
      st := Ok;
    }
  }

  /** Reading back: the string literal that the printer writes, followed by anything, on any line
      that leaves room for the line ends in it. */
  method RoundTrip(s: Bytes, tail: Bytes, line: nat) returns (st: Status, value: Bytes, rest: Bytes)
    requires line + Lines(s, |s|) < MAX_LINES
    ensures st.Ok? && value == s && rest == tail
  {
    var q := AddQuoted(s);
    var ls := new LexState(q + tail, line);
    assert ls.Rest()[0] == QUOTE;
    LiteralQuoted(s, tail, line);
    st, value := ls.ReadString();
    rest := ls.Rest();
  }
}
