/**
 The format strings of string.pack: options with their sizes, byte order, and alignment.
 */
module PackFormat {
  import opened Options
  import Binary

  const MAX_INT_SIZE := 16
  const MAX_SIZE := 0x7FFF_FFFF

  datatype Kind = KInt | KUint | KFloat | KNumber | KDouble | KChar | KString | KZstr | KPadding | KPaddalign | KNop

  datatype Header = Header(little: bool, maxalign: nat)

  /** The next option, with the header after it and the index of what follows. */
  datatype Parsed = Bad | Item(kind: Kind, size: nat, align: nat, h: Header, next: nat)

  predicate Digit(c: char) {
    '0' <= c <= '9'
  }

  function DigitValue(c: char): nat
    requires Digit(c)
  {
    (c - '0') as nat
  }

  /** The number that the digits denote. */
  function Decimal(s: string): (n: nat)
    requires forall k :: 0 <= k < |s| ==> Digit(s[k])
  {
    if |s| == 0 then 0 else Decimal(s[..|s| - 1]) * 10 + DigitValue(s[|s| - 1])
  }

  predicate DigitsIn(fmt: string, i: nat, j: nat) {
    i <= j <= |fmt| && forall k :: i <= k < j ==> Digit(fmt[k])
  }

  /** The number at i ends at j: it goes on while one more digit cannot pass MAX_SIZE. */
  predicate NumberEnds(fmt: string, i: nat, j: nat) {
    && DigitsIn(fmt, i, j)
    && (j < |fmt| && Digit(fmt[j]) && i < j ==> Decimal(fmt[i..j]) > (MAX_SIZE - 9) / 10)
    && (forall k :: i < k < j ==> Short(fmt, i, k))
  }

  predicate Short(fmt: string, i: nat, k: nat)
    requires i <= k
  {
    DigitsIn(fmt, i, k) && Decimal(fmt[i..k]) <= (MAX_SIZE - 9) / 10
  }

  /** Where the number at i, known to go at least to j, ends. */
  function NumberEnd(fmt: string, i: nat, j: nat): (e: nat)
    requires i < j && DigitsIn(fmt, i, j)
    ensures j <= e && DigitsIn(fmt, i, e)
    decreases |fmt| - j
  {
    if j < |fmt| && Digit(fmt[j]) && Decimal(fmt[i..j]) <= (MAX_SIZE - 9) / 10 then NumberEnd(fmt, i, j + 1) else j
  }

  predicate NumberAt(fmt: string, i: nat) {
    i < |fmt| && Digit(fmt[i])
  }

  /** The number at i, or the default. */
  function Num(fmt: string, i: nat, df: int): (int, nat) {
    if NumberAt(fmt, i) then var e := NumberEnd(fmt, i, i + 1); (Decimal(fmt[i..e]), e) else (df, i)
  }

  lemma {:induction false} NumberEndIs(fmt: string, i: nat, j: nat)
    requires i < j && DigitsIn(fmt, i, j) && (forall k :: i < k < j ==> Short(fmt, i, k))
    ensures NumberEnds(fmt, i, NumberEnd(fmt, i, j))
    decreases |fmt| - j
  {
    if j < |fmt| && Digit(fmt[j]) && Decimal(fmt[i..j]) <= (MAX_SIZE - 9) / 10 {
      assert Short(fmt, i, j);
      NumberEndIs(fmt, i, j + 1);
    }
  }

  lemma {:induction false} DecimalMore(fmt: string, i: nat, j: nat)
    requires i <= j && DigitsIn(fmt, i, j + 1)
    ensures Decimal(fmt[i..j + 1]) == Decimal(fmt[i..j]) * 10 + DigitValue(fmt[j])
  {
    assert fmt[i..j + 1][..j - i] == fmt[i..j];
  }

  /** The number never passes MAX_SIZE, and stops only at the end, at something else, or where one
      more digit could pass it. */
  lemma {:induction false} NumExact(fmt: string, i: nat, df: int)
    requires NumberAt(fmt, i)
    ensures var (n, e) := Num(fmt, i, df);
            i < e && NumberEnds(fmt, i, e) && n == Decimal(fmt[i..e]) && 0 <= n <= MAX_SIZE
  {
    var e := NumberEnd(fmt, i, i + 1);
    NumberEndIs(fmt, i, i + 1);
    DecimalMore(fmt, i, e - 1);
    if e - 1 > i { assert Short(fmt, i, e - 1); } else { assert fmt[i..i] == []; }
  }

  lemma {:induction false} NumBound(fmt: string, i: nat, df: int)
    requires df <= MAX_SIZE
    ensures Num(fmt, i, df).0 <= MAX_SIZE
  {
    if NumberAt(fmt, i) { NumExact(fmt, i, df); }
  }

  /** packGetnum */
  method GetNum(fmt: string, i: nat, df: int) returns (n: int, next: nat)
    ensures (n, next) == Num(fmt, i, df)
  {
    if i >= |fmt| || !Digit(fmt[i]) {
      return df, i;
    }
    n := DigitValue(fmt[i]);
    next := i + 1;
    DecimalMore(fmt, i, i);
    assert fmt[i..i] == [];
    while next < |fmt| && Digit(fmt[next]) && n <= (MAX_SIZE - 9) / 10
      invariant i < next && DigitsIn(fmt, i, next) && n == Decimal(fmt[i..next])
      invariant NumberEnd(fmt, i, next) == NumberEnd(fmt, i, i + 1)
    {
      DecimalMore(fmt, i, next);
      n := n * 10 + DigitValue(fmt[next]);
      next := next + 1;
    }
  }

  // ---------------------------------------------------------------------------------------------
  // Options

  /** An option with a size from 1 to 16, or the default. */
  function Sized(kind: Kind, fmt: string, i: nat, df: nat, h: Header): (p: Parsed)
    ensures p.Item? ==> 1 <= p.size <= MAX_INT_SIZE && p.next >= i && p.h == h && p.kind == kind
  {
    var (n, e) := Num(fmt, i, df);
    if 1 <= n <= MAX_INT_SIZE then Item(kind, n, n, h, e) else Bad
  }

  predicate SizeOk(kind: Kind, size: nat) {
    match kind
    case KInt => 1 <= size <= MAX_INT_SIZE
    case KUint => 1 <= size <= MAX_INT_SIZE
    case KString => 1 <= size <= MAX_INT_SIZE
    case KFloat => size == 4
    case KNumber => size == 8
    case KDouble => size == 8
    case KChar => size <= MAX_SIZE
    case KPadding => size == 1
    case _ => size == 0
  }

  predicate HeaderOk(h: Header) {
    1 <= h.maxalign <= MAX_INT_SIZE
  }

  /** packGetoption */
  function Parse(native: bool, h: Header, fmt: string, i: nat): (p: Parsed)
    requires i < |fmt|
    ensures p.Item? ==> p.next > i && SizeOk(p.kind, p.size) && p.align == p.size && (HeaderOk(h) ==> HeaderOk(p.h))
  {
    var plain := (kind, size) => Item(kind, size, size, h, i + 1);
    match fmt[i]
    case 'b' => plain(KInt, 1)
    case 'B' => plain(KUint, 1)
    case 'h' => plain(KInt, 2)
    case 'H' => plain(KUint, 2)
    case 'l' => plain(KInt, 8)
    case 'j' => plain(KInt, 8)
    case 'L' => plain(KUint, 8)
    case 'J' => plain(KUint, 8)
    case 'T' => plain(KUint, 8)
    case 'f' => plain(KFloat, 4)
    case 'n' => plain(KNumber, 8)
    case 'd' => plain(KDouble, 8)
    case 'i' => Sized(KInt, fmt, i + 1, 4, h)
    case 'I' => Sized(KUint, fmt, i + 1, 4, h)
    case 's' => Sized(KString, fmt, i + 1, 8, h)
    case 'c' =>
      (var (n, e) := Num(fmt, i + 1, -1); NumBound(fmt, i + 1, -1); if n == -1 then Bad else Item(KChar, n, n, h, e))
    case 'z' => plain(KZstr, 0)
    case 'x' => plain(KPadding, 1)
    case 'X' => plain(KPaddalign, 0)
    case ' ' => plain(KNop, 0)
    case '<' => plain(KNop, 0).(h := h.(little := true))
    case '>' => plain(KNop, 0).(h := h.(little := false))
    case '=' => plain(KNop, 0).(h := h.(little := native))
    case '!' => (match Sized(KNop, fmt, i + 1, 8, h)
                 case Bad => Bad
                 case Item(_, n, _, _, e) => Item(KNop, 0, 0, h.(maxalign := n), e))
    case _ => Bad
  }

  // The options of section 6.4.2 of the Lua 5.4 Reference Manual, with the sizes of the types in C

  /** Integers, signed in lower case: char, short, long, lua_Integer and size_t. */
  const INTEGERS: map<char, nat> := map['b' := 1, 'B' := 1, 'h' := 2, 'H' := 2, 'l' := 8, 'L' := 8, 'j' := 8, 'J' := 8,
                                        'T' := 8]

  lemma IntegerOptions(native: bool, h: Header, fmt: string, i: nat)
    requires i < |fmt| && fmt[i] in INTEGERS
    ensures var size := INTEGERS[fmt[i]];
            Parse(native, h, fmt, i) == Item(if fmt[i] in "bhlj" then KInt else KUint, size, size, h, i + 1)
  {
  }

  /** float, lua_Number and double; a string that ends in a zero byte, a byte of padding, the alignment
      to another option, and nothing. */
  lemma OtherOptions(native: bool, h: Header, fmt: string, i: nat)
    requires i < |fmt|
    ensures var p := Parse(native, h, fmt, i);
            && (fmt[i] == 'f' ==> p == Item(KFloat, 4, 4, h, i + 1))
            && (fmt[i] == 'n' ==> p == Item(KNumber, 8, 8, h, i + 1))
            && (fmt[i] == 'd' ==> p == Item(KDouble, 8, 8, h, i + 1))
            && (fmt[i] == 'z' ==> p == Item(KZstr, 0, 0, h, i + 1))
            && (fmt[i] == 'x' ==> p == Item(KPadding, 1, 1, h, i + 1))
            && (fmt[i] == 'X' ==> p == Item(KPaddalign, 0, 0, h, i + 1))
            && (fmt[i] == ' ' ==> p == Item(KNop, 0, 0, h, i + 1))
            && (fmt[i] !in "bBhHlLjJTfndzxX iIsc<>=!" ==> p == Bad)
  {
  }

  /** The byte order from here on. */
  lemma OrderOptions(native: bool, h: Header, fmt: string, i: nat)
    requires i < |fmt| && fmt[i] in "<>="
    ensures var little := if fmt[i] == '=' then native else fmt[i] == '<';
            Parse(native, h, fmt, i) == Item(KNop, 0, 0, h.(little := little), i + 1)
  {
  }

  /** Options with a size n after them, written in decimal: int, and a string after its length, with
      a size from 1 to 16, or 4 or 8 without one; characters, of any size but not without one; and the
      greatest alignment, 8 without a number. */
  lemma {:induction false} SizedOptions(native: bool, h: Header, fmt: string, i: nat)
    requires i < |fmt| && fmt[i] in "iIsc!"
    ensures var p, c := Parse(native, h, fmt, i), fmt[i]; var (n, e) := Num(fmt, i + 1, -1);
            && (c == 'c' ==> p == if n == -1 then Bad else Item(KChar, n, n, h, e))
            && (c != 'c' && n == -1 ==> p == Default(c, h, i + 1))
            && (c != 'c' && n != -1 && !(1 <= n <= 16) ==> p == Bad)
            && (c != 'c' && 1 <= n <= 16 ==> p == match c
                                                  case 'i' => Item(KInt, n, n, h, e)
                                                  case 'I' => Item(KUint, n, n, h, e)
                                                  case 's' => Item(KString, n, n, h, e)
                                                  case _ => Item(KNop, 0, 0, h.(maxalign := n), e))
  {
  }

  function Default(c: char, h: Header, next: nat): Parsed {
    match c
    case 'i' => Item(KInt, 4, 4, h, next)
    case 'I' => Item(KUint, 4, 4, h, next)
    case 's' => Item(KString, 8, 8, h, next)
    case _ => Item(KNop, 0, 0, h.(maxalign := 8), next)
  }

  /** Numbers are decimal. */
  lemma {:induction false} DecimalDigits(s: string, a: nat, b: nat)
    requires a < 10 && b < 10
    ensures var d := "0123456789";
            Decimal([d[a]]) == a && Decimal([d[a], d[b]]) == 10 * a + b
  {
    var d := "0123456789";
    assert [d[a]][..0] == [] && [d[a], d[b]][..1] == [d[a]];
  }

  /** An option with its alignment: that of the option after it, for X. */
  function Details(native: bool, h: Header, fmt: string, i: nat): (p: Parsed)
    requires i < |fmt|
    ensures p.Item? ==> p.next > i && SizeOk(p.kind, p.size) && (HeaderOk(h) ==> HeaderOk(p.h))
  {
    var p := Parse(native, h, fmt, i);
    if p.Bad? || p.kind != KPaddalign then p
    else if p.next >= |fmt| then Bad
    else
      var q := Parse(native, p.h, fmt, p.next);
      if q.Bad? || q.kind == KChar || q.size == 0 then Bad
      else Item(KPaddalign, 0, q.size, q.h, q.next)
  }

  /** For the numbers up to 16: those with only one bit set. */
  predicate PowerOfTwo(n: nat) {
    n == 1 || n == 2 || n == 4 || n == 8 || n == 16
  }

  /** x & (a - 1), for a power of two: the remainder. */
  function LowBits(x: nat, a: nat): (r: nat)
    requires a > 0
    ensures r < a
  {
    if x < a then x else LowBits(x - a, a)
  }

  /** The zeros before an item at offset `total`. */
  function Pad(h: Header, kind: Kind, align: nat, total: nat): (r: Option<nat>)
    requires HeaderOk(h)
  {
    if align <= 1 || kind == KChar then Some(0)
    else
      var a := if align > h.maxalign then h.maxalign else align;
      if PowerOfTwo(a) then Some(LowBits(a - LowBits(total, a), a)) else None
  }

  /** The padding is the least that brings the item to a multiple of its alignment, which is limited
      by the one in force. */
  lemma {:induction false} PadAligns(h: Header, kind: Kind, align: nat, total: nat)
    requires HeaderOk(h) && Pad(h, kind, align, total).Some?
    ensures var n := Pad(h, kind, align, total).value; var a := if align > h.maxalign then h.maxalign else align;
            if align <= 1 || kind == KChar then n == 0
            else n < a && Aligned(total + n, a) && forall p :: total <= p < total + n ==> !Aligned(p, a)
  {
    var a := if align > h.maxalign then h.maxalign else align;
    if align > 1 && kind != KChar { Least(total, a); }
  }

  predicate Aligned(x: nat, a: nat)
    requires a > 0
  {
    x % a == 0
  }

  lemma {:induction false} LowBitsModulo(x: nat, a: nat)
    requires a > 0
    ensures LowBits(x, a) == x % a
    decreases x
  {
    if x >= a {
      LowBitsModulo(x - a, a);
      OneLess(x, a);
    }
  }

  lemma {:induction false} OneLess(x: nat, a: nat)
    requires 0 < a <= x
    ensures (x - a) % a == x % a
  {
    var q := x / a;
    assert a * (q - 1) == a * q - a;
    Binary.Residue(x - a, a, q - 1, x % a);
  }

  lemma {:induction false} Least(total: nat, a: nat)
    requires a > 0
    ensures var n := LowBits(a - LowBits(total, a), a);
            n < a && Aligned(total + n, a) && forall p :: total <= p < total + n ==> !Aligned(p, a)
    decreases total
  {
    var n := LowBits(a - LowBits(total, a), a);
    if total >= a {
      Least(total - a, a);
      OneLess(total + n, a);
      forall p | total <= p < total + n ensures !Aligned(p, a) {
        OneLess(p, a);
        assert !Aligned(p - a, a);
      }
    } else {
      forall p: nat | total <= p < total + n ensures !Aligned(p, a) { LowBitsModulo(p, a); }
      LowBitsModulo(total + n, a);
    }
  }

  /** X aligns to the size of the option after it, and takes that option away; to an option without a
      size, to characters, or at the end it cannot. */
  lemma AlignOptions(native: bool, h: Header, fmt: string, i: nat)
    requires i < |fmt| && fmt[i] == 'X'
    ensures i + 1 == |fmt| ==> Details(native, h, fmt, i) == Bad
    ensures i + 1 < |fmt| && fmt[i + 1] in INTEGERS ==>
              Details(native, h, fmt, i) == Item(KPaddalign, 0, INTEGERS[fmt[i + 1]], h, i + 2)
    ensures i + 1 < |fmt| && fmt[i + 1] in "czX <>=!" ==> Details(native, h, fmt, i) == Bad
  {
    if i + 1 < |fmt| && fmt[i + 1] in INTEGERS { IntegerOptions(native, h, fmt, i + 1); }
  }

  class PackHeader {
    var little: bool
    var maxalign: nat

    constructor (native: bool)
      ensures Now() == Header(native, 1)
    {
      little, maxalign := native, 1;
    }

    function Now(): Header
      reads this
    {
      Header(little, maxalign)
    }

    /** packGetnumlimit */
    method GetNumLimit(fmt: string, i: nat, df: nat, ghost kind: Kind, ghost h: Header)
      returns (ok: bool, size: nat, next: nat)
      ensures var p := Sized(kind, fmt, i, df, h); ok == p.Item? && (ok ==> size == p.size && next == p.next)
    {
      var sz;
      sz, next := GetNum(fmt, i, df);
      if sz > MAX_INT_SIZE || sz <= 0 {
        return false, 0, next;
      }
      return true, sz, next;
    }

    /** packGetoption */
    method GetOption(native: bool, fmt: string, i: nat) returns (ok: bool, kind: Kind, size: nat, next: nat)
      requires i < |fmt|
      modifies this
      ensures var p := Parse(native, old(Now()), fmt, i);
              ok == p.Item? && (ok ==> kind == p.kind && size == p.size && next == p.next && Now() == p.h)
    {
      ok, kind, size, next := true, KNop, 0, i + 1;
      match fmt[i]
      case 'b' => kind, size := KInt, 1;
      case 'B' => kind, size := KUint, 1;
      case 'h' => kind, size := KInt, 2;
      case 'H' => kind, size := KUint, 2;
      case 'l' => kind, size := KInt, 8;
      case 'j' => kind, size := KInt, 8;
      case 'L' => kind, size := KUint, 8;
      case 'J' => kind, size := KUint, 8;
      case 'T' => kind, size := KUint, 8;
      case 'f' => kind, size := KFloat, 4;
      case 'n' => kind, size := KNumber, 8;
      case 'd' => kind, size := KDouble, 8;
      case 'i' => kind := KInt; ok, size, next := GetNumLimit(fmt, next, 4, kind, Now());
      case 'I' => kind := KUint; ok, size, next := GetNumLimit(fmt, next, 4, kind, Now());
      case 's' => kind := KString; ok, size, next := GetNumLimit(fmt, next, 8, kind, Now());
      case 'c' => kind, ok, size, next := CharSize(fmt, next);
      case 'z' => kind := KZstr;
      case 'x' => kind, size := KPadding, 1;
      case 'X' => kind := KPaddalign;
      case ' ' =>
      case '<' => little := true;
      case '>' => little := false;
      case '=' => little := native;
      case '!' =>
        var n;
        ok, n, next := GetNumLimit(fmt, next, 8, KNop, Now());
        maxalign := n;
      case _ => ok := false;
    }

    method CharSize(fmt: string, i: nat) returns (kind: Kind, ok: bool, size: nat, next: nat)
      ensures var (n, e) := Num(fmt, i, -1); kind == KChar && ok == (n != -1) && (ok ==> size == n && next == e)
    {
      var n;
      n, next := GetNum(fmt, i, -1);
      if n == -1 {
        return KChar, false, 0, next;
      }
      return KChar, true, n, next;
    }

    /** packGetdetails */
    method GetDetails(native: bool, total: nat, fmt: string, i: nat)
      returns (ok: bool, kind: Kind, size: nat, ntoalign: nat, next: nat)
      requires i < |fmt| && HeaderOk(Now())
      modifies this
      ensures var p := Details(native, old(Now()), fmt, i);
              && ok == (p.Item? && Pad(p.h, p.kind, p.align, total).Some?)
              && (ok ==> kind == p.kind && size == p.size && next == p.next && Now() == p.h
                         && ntoalign == Pad(p.h, p.kind, p.align, total).value)
    {
      ntoalign := 0;
      ok, kind, size, next := GetOption(native, fmt, i);
      if !ok {
        return;
      }
      var align := size;
      if kind == KPaddalign {
        if next >= |fmt| {
          ok := false;
          return;
        }
        var kind2;
        ok, kind2, align, next := GetOption(native, fmt, next);
        if !ok || kind2 == KChar || align == 0 {
          ok := false;
          return;
        }
      }
      ok, ntoalign := Alignment(kind, align, total);
    }

    /** The last part of packGetdetails. */
    method Alignment(kind: Kind, size: nat, total: nat) returns (ok: bool, ntoalign: nat)
      requires HeaderOk(Now())
      ensures var r := Pad(Now(), kind, size, total); ok == r.Some? && (ok ==> ntoalign == r.value)
    {
      if size <= 1 || kind == KChar {
        return true, 0;
      }
      var align := size;
      if align > maxalign {
        align := maxalign;
      }
      if !PowerOfTwo(align) {
        return false, 0;
      }
      ok := true;
      ntoalign := LowBits(align - LowBits(total, align), align);
    }
  }
}
