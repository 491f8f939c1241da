/**
 Literal strings in the terms of section 3.1 of the Lua 5.4 Reference Manual: what each escape
 denotes, on the characters themselves; and what the quoted form may hold.
 */
module QuoteManual {
  import opened ByteStrings
  import opened Quote

  /** The escapes of one character: bell, backspace, form feed, newline, carriage return, two tabs, the
      backslash and the two quotes. */
  const SIMPLE: map<char, Byte> := map['a' := 7, 'b' := 8, 'f' := 12, 'n' := 10, 'r' := 13, 't' := 9, 'v' := 11,
                                       '\\' := 0x5C, '\"' := 0x22, '\'' := 0x27]

  lemma SimpleEscapes(c: Byte, rest: Bytes, line: nat)
    ensures c as char in SIMPLE ==> Escape([c] + rest, line) == Text([SIMPLE[c as char]], rest, line)
    ensures c as char !in SIMPLE && c as char !in "0123456789xuz\n\r" ==> Escape([c] + rest, line) == Bad
  {
    assert ([c] + rest)[1..] == rest;
  }

  /** The other ones are told by their first character. */
  lemma OtherEscapes(c: Byte, rest: Bytes, line: nat)
    ensures var z := [c] + rest;
            && (c as char == 'x' ==> Escape(z, line) == HexEscape(z, line))
            && (c as char == 'u' ==> Escape(z, line) == Utf8Escape(z, line))
            && (c as char == 'z' ==> Escape(z, line) == Spaces(rest, line))
            && (c as char in "0123456789" ==> Escape(z, line) == DecimalEscape(z, line))
            && (c as char in "\n\r" && line + 1 < MAX_LINES ==> Escape(z, line) == Text([LF], SkipLine(z), line + 1))
  {
    assert ([c] + rest)[1..] == rest;
  }

  // ---------------------------------------------------------------------------------------------
  // Numbers

  const LOWER := "0123456789abcdef"
  const UPPER := "0123456789ABCDEF"

  /** Hexadecimal digits, in either case. */
  lemma HexDigits(c: Byte)
    ensures IsHex(c) <==> c as char in LOWER || c as char in UPPER
    ensures IsHex(c) ==> var v := HexValue(c); 0 <= v < 16 && (LOWER[v] == c as char || UPPER[v] == c as char)
  {
  }

  /** `\x` and the two digits of v. */
  lemma HexByte(v: Byte, rest: Bytes, line: nat)
    ensures HexEscape(['x' as int, LOWER[v / 16] as int, LOWER[v % 16] as int] + rest, line) == Text([v], rest, line)
    ensures HexEscape(['x' as int, UPPER[v / 16] as int, UPPER[v % 16] as int] + rest, line) == Text([v], rest, line)
  {
    HexOf(v / 16);
    HexOf(v % 16);
  }

  lemma HexOf(v: nat)
    requires v < 16
    ensures IsHex(LOWER[v] as int) && IsHex(UPPER[v] as int)
    ensures HexValue(LOWER[v] as int) == HexValue(UPPER[v] as int) == v
  {
  }

  /** Up to three decimal digits. */
  lemma DecimalByte(a: nat, b: nat, c: nat)
    requires a < 10 && b < 10 && c < 10
    ensures var d := "0123456789"; var x, y, z := d[a] as int, d[b] as int, d[c] as int;
            ValueOf([x]) == a && ValueOf([x, y]) == 10 * a + b && ValueOf([x, y, z]) == 100 * a + 10 * b + c
  {
    var d := "0123456789";
    var x, y, z := d[a] as int, d[b] as int, d[c] as int;
    assert [x, y, z][..2] == [x, y] && [x, y][..1] == [x] && [x][..0] == [];
  }

  // ---------------------------------------------------------------------------------------------
  // UTF-8

  /** The first byte of a sequence of n: as many ones as it has bytes, and a zero, above the payload. */
  function LeadRoom(n: nat): nat
    requires 2 <= n <= 6
  {
    if n == 2 then 32 else if n == 3 then 16 else if n == 4 then 8 else if n == 5 then 4 else 2
  }

  /** What the payload of the first byte and six bits of each of the others are, put together. */
  function Collected(payload: nat, b: Bytes): nat {
    if |b| == 0 then payload else 64 * Collected(payload, b[..|b| - 1]) + b[|b| - 1] % 64
  }

  lemma {:induction false} ContinuedBits(x: nat, n: nat)
    ensures Collected(Shifted(x, n), Continued(x, n)) == x
    ensures forall k :: 0 <= k < n ==> 0x80 <= Continued(x, n)[k] < 0xC0
  {
    if n > 0 {
      ContinuedBits(x / 64, n - 1);
      assert Continued(x, n)[..n - 1] == Continued(x / 64, n - 1);
    }
  }

  /** The sequence for x in two to six bytes: the first one tells how many, the others have the bits 1
      and 0 before their payload, together they hold x, and no fewer would do. */
  predicate IsSequence(b: Bytes, x: nat) {
    (var n := |b|;
     && 2 <= n <= 6 && 256 - 2 * LeadRoom(n) <= b[0] < 256 - LeadRoom(n)
     && (forall k :: 1 <= k < n ==> 0x80 <= b[k] < 0xC0)
     && Collected(b[0] - (256 - 2 * LeadRoom(n)), b[1..]) == x && x >= Least(n)) == true
  }

  lemma {:induction false} Utf8ByManual(x: nat)
    requires x < UTF8_LIMIT
    ensures if x < 0x80 then Utf8(x) == [x] else IsSequence(Utf8(x), x)
  {
    if x >= 0x80 {
      var n := if x < 0x800 then 2 else if x < 0x1_0000 then 3 else if x < 0x20_0000 then 4
               else if x < 0x400_0000 then 5 else 6;
      var b := LeadByte(x, n);
      Sequence(b, x, n);
    }
  }

  lemma {:induction false} Sequence(b: Bytes, x: nat, n: nat)
    requires 2 <= n <= 6 && Shifted(x, n - 1) < LeadRoom(n) && x >= Least(n)
    requires b == [256 - 2 * LeadRoom(n) + Shifted(x, n - 1)] + Continued(x, n - 1)
    ensures IsSequence(b, x)
  {
    ContinuedBits(x, n - 1);
    assert b[1..] == Continued(x, n - 1);
    forall k | 1 <= k < |b| ensures 0x80 <= b[k] < 0xC0 { assert b[k] == b[1..][k - 1]; }
  }

  /** The least number that takes n bytes. */
  function Least(n: nat): nat
    requires 2 <= n <= 6
  {
    if n == 2 then 0x80 else if n == 3 then 0x800 else if n == 4 then 0x1_0000 else if n == 5 then 0x20_0000
    else 0x400_0000
  }

  lemma {:induction false} LeadByte(x: nat, n: nat) returns (b: Bytes)
    requires 2 <= n <= 6 && Least(n) <= x < if n < 6 then Least(n + 1) else UTF8_LIMIT
    ensures Shifted(x, n - 1) < LeadRoom(n)
    ensures b == Utf8(x) == [256 - 2 * LeadRoom(n) + Shifted(x, n - 1)] + Continued(x, n - 1)
  {
    ShiftedIs(x);
    b := Utf8(x);
  }

  // ---------------------------------------------------------------------------------------------
  // Line ends and spaces

  /** A line end is one newline or carriage return, or both in either order. */
  lemma LineEnds(rest: Bytes)
    ensures SkipLine([LF, CR] + rest) == rest && SkipLine([CR, LF] + rest) == rest
    ensures SkipLine([LF, LF] + rest) == [LF] + rest && SkipLine([CR, CR] + rest) == [CR] + rest
    ensures rest == [] || !IsLineEnd(rest[0]) ==> SkipLine([LF] + rest) == rest && SkipLine([CR] + rest) == rest
  {
    assert ([LF] + rest)[1..] == rest && ([CR] + rest)[1..] == rest;
  }

  predicate IsSpaceChar(c: Byte) {
    c as char in " \t\n\r" || c == 11 || c == 12
  }

  /** The input z goes on as rest after nothing but spaces. */
  predicate OverSpaces(z: Bytes, rest: Bytes) {
    |rest| <= |z| && rest == z[|z| - |rest|..] && forall k :: 0 <= k < |z| - |rest| ==> IsSpaceChar(z[k])
  }

  lemma OverMore(z: Bytes, next: Bytes, rest: Bytes)
    requires OverSpaces(z, next) && OverSpaces(next, rest)
    ensures OverSpaces(z, rest)
  {
    assert forall k :: 0 <= k < |next| ==> next[k] == z[|z| - |next| + k];
  }

  /** After `\z` everything up to the first character that is no space is skipped. */
  lemma {:induction false} SpacesSkipped(z: Bytes, line: nat)
    ensures var r := Spaces(z, line);
            r.Text? ==> OverSpaces(z, r.rest) && (r.rest == [] || !IsSpaceChar(r.rest[0]))
    decreases |z|
  {
    if z != [] && IsSpace(z[0]) {
      var next, line' := if IsLineEnd(z[0]) then SkipLine(z) else z[1..], if IsLineEnd(z[0]) then line + 1 else line;
      SpacesSkipped(next, line');
      assert OverSpaces(z, next);
      if Spaces(z, line).Text? { OverMore(z, next, Spaces(z, line).rest); }
    }
  }

  // ---------------------------------------------------------------------------------------------
  // The quoted form

  /** No control character but the newline. */
  predicate Shown(c: Byte) {
    c == '\n' as int || (c >= 32 && c != 127)
  }

  lemma {:induction false} BodyShown(s: Bytes, j: nat)
    requires j <= |s|
    ensures forall k :: 0 <= k < |Body(s, j)| ==> Shown(Body(s, j)[k])
    decreases |s| - j
  {
    if j < |s| { BodyShown(s, j + 1); }
  }

  /** The quoted form has no control character but the newline. */
  lemma {:induction false} QuotedShown(s: Bytes)
    ensures forall k :: 0 <= k < |Quoted(s)| ==> Shown(Quoted(s)[k])
  {
    BodyShown(s, 0);
  }
}
