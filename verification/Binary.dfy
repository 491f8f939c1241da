/**
 Integers as bytes: the fixed-size two's complement words of string.pack and string.unpack, 1 to 16
 bytes long, in either byte order.
 */
module Binary {
  import opened Options
  import opened ByteStrings
  import opened Words

  const SZINT := 8

  // ---------------------------------------------------------------------------------------------
  // Base 256, least significant digit first

  function Pow(k: nat): (p: nat)
    ensures p >= 1
  {
    if k == 0 then 1 else 256 * Pow(k - 1)
  }

  function Number(b: Bytes): (n: nat)
    ensures n < Pow(|b|)
  {
    if |b| == 0 then 0 else b[0] + 256 * Number(b[1..])
  }

  /** The low digits of n. */
  function Digits(n: nat, size: nat): (b: Bytes)
    ensures |b| == size
  {
    if size == 0 then [] else [n % 256] + Digits(n / 256, size - 1)
  }

  lemma {:induction false} NumberOfDigits(n: nat, size: nat)
    requires n < Pow(size)
    ensures Number(Digits(n, size)) == n
  {
    if size > 0 { NumberOfDigits(n / 256, size - 1); }
  }

  function Shift(n: nat, k: nat): nat {
    if k == 0 then n else Shift(n / 256, k - 1)
  }

  lemma {:induction false} ShiftMore(n: nat, k: nat)
    ensures Shift(n, k + 1) == Shift(n, k) / 256
  {
    if k > 0 { ShiftMore(n / 256, k - 1); }
  }

  lemma {:induction false} DigitAt(n: nat, size: nat, k: nat)
    requires k < size
    ensures Digits(n, size)[k] == Shift(n, k) % 256
  {
    if k > 0 { DigitAt(n / 256, size - 1, k - 1); }
  }

  lemma {:induction false} NumberInjective(a: Bytes, b: Bytes)
    requires |a| == |b| && Number(a) == Number(b)
    ensures a == b
  {
    if |a| > 0 {
      NumberInjective(a[1..], b[1..]);
      assert a == [a[0]] + a[1..] && b == [b[0]] + b[1..];
    }
  }

  lemma {:induction false} NumberAppend(a: Bytes, b: Bytes)
    ensures Number(a + b) == Number(a) + Pow(|a|) * Number(b)
  {
    if |a| == 0 {
      assert a + b == b;
    } else {
      assert (a + b)[1..] == a[1..] + b;
      NumberAppend(a[1..], b);
      Distribute(256, Number(a[1..]), Pow(|a| - 1), Number(b));
    }
  }

  lemma {:induction false} Distribute(x: int, a: int, p: int, b: int)
    ensures x * (a + p * b) == x * a + (x * p) * b
  {
  }

  lemma {:induction false} PowAdd(a: nat, b: nat)
    ensures Pow(a + b) == Pow(a) * Pow(b)
  {
    if a > 0 {
      PowAdd(a - 1, b);
      Distribute(256, 0, Pow(a - 1), Pow(b));
    }
  }

  lemma {:induction false} PowSmall()
    ensures Pow(1) == 0x100 && Pow(2) == 0x1_0000 && Pow(3) == 0x100_0000 && Pow(4) == 0x1_0000_0000
    ensures Pow(5) == 0x100_0000_0000 && Pow(6) == 0x1_0000_0000_0000 && Pow(7) == 0x100_0000_0000_0000
    ensures Pow(8) == TWO64
  {
    assert Pow(2) == 256 * Pow(1) && Pow(3) == 256 * Pow(2) && Pow(4) == 256 * Pow(3);
    assert Pow(5) == 256 * Pow(4) && Pow(6) == 256 * Pow(5) && Pow(7) == 256 * Pow(6);
  }

  /** Only the low digits of a number matter. */
  lemma {:induction false} DigitsWrap(n: nat, m: nat, size: nat)
    ensures Digits(n + Pow(size) * m, size) == Digits(n, size)
  {
    if size > 0 {
      Distribute(256, 0, Pow(size - 1), m);
      var k := Pow(size - 1) * m;
      assert (n + 256 * k) / 256 == n / 256 + k && (n + 256 * k) % 256 == n % 256;
      DigitsWrap(n / 256, m, size - 1);
    }
  }

  lemma {:induction false} DigitsWrapTo(n: nat, u: nat, m: nat, size: nat)
    requires n == u + Pow(size) * m
    ensures Digits(n, size) == Digits(u, size)
  {
    DigitsWrap(u, m, size);
  }

  lemma {:induction false} AllOf(b: Bytes, x: Byte)
    requires x == 0 || x == 0xFF
    requires forall k :: 0 <= k < |b| ==> b[k] == x
    ensures Number(b) == if x == 0 then 0 else Pow(|b|) - 1
  {
    if |b| > 0 { AllOf(b[1..], x); }
  }

  // ---------------------------------------------------------------------------------------------
  // Byte order

  function PackIdx(i: nat, little: bool, size: nat): (k: nat)
    requires i < size
    ensures k < size
  {
    if little then i else size - 1 - i
  }

  /** The bytes with the least significant first, and back. */
  function Ordered(b: Bytes, little: bool): (r: Bytes)
    ensures |r| == |b| && forall i :: 0 <= i < |b| ==> r[i] == b[PackIdx(i, little, |b|)]
  {
    seq(|b|, i requires 0 <= i < |b| => b[PackIdx(i, little, |b|)])
  }

  lemma {:induction false} OrderedTwice(b: Bytes, little: bool)
    ensures Ordered(Ordered(b, little), little) == b
  {
  }

  // ---------------------------------------------------------------------------------------------
  // Words

  /** A signed or an unsigned 64-bit integer. */
  predicate Storable(w: int) {
    MIN_INT <= w < TWO64
  }

  /** The two's complement form of w in `size` bytes. */
  function Stored(w: int, size: nat): (u: nat)
    requires 0 <= w + Pow(size)
  {
    if w < 0 then w + Pow(size) else w
  }

  /** The Lua integer that `size` bytes stand for, if it is one. */
  function Decoded(b: Bytes, signed: bool): (r: Option<int>)
    ensures r.Some? ==> Int64(r.value)
  {
    var u := Number(b);
    if signed then
      var w := if 2 * u >= Pow(|b|) then u - Pow(|b|) else u;
      if Int64(w) then Some(w) else None
    else if u < TWO64 then Some(Signed(u)) else None
  }

  /** The values that an option of the size takes. */
  predicate Fits(w: int, size: nat, signed: bool) {
    Int64(w) && (size < SZINT ==> if signed then 0 <= 2 * w + Pow(size) < 2 * Pow(size) else Unsigned(w) < Pow(size))
  }

  /** The bytes that are stored for w, least significant first. */
  function Word(w: int, size: nat, signed: bool): (b: Bytes)
    requires 1 <= size && Fits(w, size, signed)
    ensures |b| == size
  {
    PowOf(size);
    Digits(Stored(if signed then w else Unsigned(w), size), size)
  }

  lemma {:induction false} PowOf(size: nat)
    ensures size >= SZINT ==> Pow(size) >= TWO64 && Pow(size) == TWO64 * Pow(size - SZINT)
    ensures 1 <= size < SZINT ==> Pow(size) <= 0x100_0000_0000_0000 && TWO64 == Pow(size) * Pow(SZINT - size)
  {
    PowSmall();
    if size >= SZINT { PowAdd(SZINT, size - SZINT); }
    else if size >= 1 { PowAdd(size, SZINT - size); }
  }

  /** What is stored is what is read. */
  lemma {:induction false} WordDecoded(w: int, size: nat, signed: bool)
    requires 1 <= size && Fits(w, size, signed)
    ensures Decoded(Word(w, size, signed), signed) == Some(w)
  {
    PowOf(size);
    if !signed { SignedUnsigned(w); }
    NumberOfDigits(Stored(if signed then w else Unsigned(w), size), size);
  }

  /** Any bytes that can be read are what is stored for the result. */
  lemma {:induction false} DecodedWord(b: Bytes, signed: bool)
    requires 1 <= |b| && Decoded(b, signed).Some?
    ensures Fits(Decoded(b, signed).value, |b|, signed) && Word(Decoded(b, signed).value, |b|, signed) == b
  {
    var w := Decoded(b, signed).value;
    PowOf(|b|);
    if !signed { UnsignedSigned(Number(b)); }
    NumberOfDigits(Number(b), |b|);
    NumberInjective(Digits(Number(b), |b|), b);
  }

  /** uint64(w) with its low bytes, and 0xFF above the eighth for a negative number: that is w in
      `size` bytes. */
  lemma {:induction false} Extended(w: int, size: nat, low: Bytes, b: Bytes)
    requires 1 <= size && Storable(w) && (size < SZINT ==> 0 <= w + Pow(size))
    requires |b| == size && |low| == size && low == Digits(Unsigned(w), size)
    requires forall k :: 0 <= k < size ==> b[k] == if k >= SZINT && w < 0 then 0xFF else low[k]
    ensures 0 <= w + Pow(size) && b == Digits(Stored(w, size), size)
  {
    PowOf(size);
    if w >= 0 {
      assert b == low;
    } else if size <= SZINT {
      assert b == low;
      Negative(w);
      Truncated(w, Unsigned(w), size);
    } else {
      assert b[..SZINT] == low[..SZINT];
      Filled(w, size, b);
    }
  }

  lemma {:induction false} Truncated(w: int, n: nat, size: nat)
    requires 1 <= size <= SZINT && n == w + TWO64 && w < 0 <= w + Pow(size)
    ensures Digits(n, size) == Digits(Stored(w, size), size)
  {
    PowerOver(size);
    DigitsWrapTo(n, Stored(w, size), Pow(SZINT - size) - 1, size);
  }

  lemma {:induction false} Negative(w: int)
    requires Int64(w) && w < 0
    ensures Unsigned(w) == w + TWO64
  {
    assert w % TWO64 == w + TWO64;
  }

  lemma {:induction false} PowerOver(size: nat)
    requires 1 <= size <= SZINT
    ensures TWO64 == Pow(size) + Pow(size) * (Pow(SZINT - size) - 1)
  {
    PowSmall();
    PowAdd(size, SZINT - size);
  }

  lemma {:induction false} Filled(w: int, size: nat, b: Bytes)
    requires SZINT < size == |b| && Int64(w) && w < 0 && 0 <= w + Pow(size)
    requires b[..SZINT] == Digits(Unsigned(w), size)[..SZINT] && forall k :: SZINT <= k < size ==> b[k] == 0xFF
    ensures b == Digits(Stored(w, size), size)
  {
    Negative(w);
    PowSmall();
    LowDigits(Unsigned(w), size);
    NumberOfDigits(w + TWO64, SZINT);
    assert Number(b[..SZINT]) == w + TWO64;
    AllOf(b[SZINT..], 0xFF);
    HighPart(b);
    assert Number(b) == w + Pow(size);
    NumberOfDigits(Stored(w, size), size);
    NumberInjective(b, Digits(Stored(w, size), size));
  }

  lemma {:induction false} LowDigits(n: nat, size: nat)
    requires size >= SZINT
    ensures Digits(n, size)[..SZINT] == Digits(n, SZINT)
  {
    forall k | 0 <= k < SZINT ensures Digits(n, size)[k] == Digits(n, SZINT)[k] {
      DigitAt(n, size, k);
      DigitAt(n, SZINT, k);
    }
  }

  // ---------------------------------------------------------------------------------------------
  // What bytes are worth, without an order of their own

  /** The value of digits in base 256, the most significant one first. */
  function BigEndian(b: Bytes): nat {
    if |b| == 0 then 0 else 256 * BigEndian(b[..|b| - 1]) + b[|b| - 1]
  }

  /** The same, the least significant one first. */
  function LittleEndian(b: Bytes): nat {
    if |b| == 0 then 0 else b[0] + 256 * LittleEndian(b[1..])
  }

  function Worth(b: Bytes, little: bool): nat {
    if little then LittleEndian(b) else BigEndian(b)
  }

  lemma {:induction false} LittleNumber(b: Bytes)
    ensures LittleEndian(b) == Number(b)
    decreases |b|
  {
    if |b| > 0 { LittleNumber(b[1..]); }
  }

  lemma {:induction false} BigNumber(b: Bytes)
    ensures BigEndian(b) == Number(Ordered(b, false))
    decreases |b|
  {
    if |b| > 0 {
      var o := Ordered(b, false);
      BigNumber(b[..|b| - 1]);
      assert o[1..] == Ordered(b[..|b| - 1], false);
    }
  }

  /** Putting the bytes in order gives the digits, least significant first. */
  lemma {:induction false} OrderedWorth(b: Bytes, little: bool)
    ensures Number(Ordered(b, little)) == Worth(b, little)
    ensures Worth(Ordered(b, little), little) == Number(b)
  {
    if little {
      assert Ordered(b, true) == b;
      LittleNumber(b);
    } else {
      BigNumber(b);
      BigNumber(Ordered(b, false));
      OrderedTwice(b, false);
    }
  }

  lemma {:induction false} NumberModulo(n: nat, size: nat)
    ensures Number(Digits(n, size)) == n % Pow(size)
  {
    var p := Pow(size);
    Divided(n, p);
    DigitsWrapTo(n, n % p, n / p, size);
    NumberOfDigits(n % p, size);
  }

  lemma {:induction false} Divided(n: nat, p: nat)
    requires p > 0
    ensures n == n % p + p * (n / p) && 0 <= n % p < p && n / p >= 0
  {
  }

  lemma {:induction false} Residue(n: int, p: nat, q: int, r: nat)
    requires n == p * q + r && r < p
    ensures n % p == r
  {
    var d := q - n / p;
    assert p * d == n % p - r;
  }

  /** The two's complement of w in `size` bytes. */
  lemma {:induction false} StoredModulo(w: int, size: nat)
    requires 0 <= w + Pow(size)
    ensures Number(Digits(Stored(w, size), size)) == w % Pow(size)
  {
    NumberModulo(Stored(w, size), size);
    if w < 0 {
      Residue(w, Pow(size), -1, w + Pow(size));
      Residue(w + Pow(size), Pow(size), 0, w + Pow(size));
    }
  }

  /** What fits in fewer than eight bytes: the range of the signed or of the unsigned type. */
  lemma {:induction false} FitsRange(w: int, size: nat, signed: bool)
    requires 1 <= size < SZINT && Int64(w)
    ensures var half := 128 * Pow(size - 1);
            Fits(w, size, signed) <==> if signed then -half <= w < half else 0 <= w < 2 * half
  {
    PowOf(size);
  }

  /** n is the 64-bit integer that u stands for in `size` bytes: the one of the signed range with that
      residue, or u itself as an unsigned word. */
  predicate StandsFor(n: int, u: nat, size: nat, signed: bool) {
    && Int64(n)
    && if signed then 0 <= 2 * n + Pow(size) < 2 * Pow(size) && n % Pow(size) == u else n % TWO64 == u
  }

  /** r is the integer that u stands for, if there is one. */
  ghost predicate Means(r: Option<int>, u: nat, size: nat, signed: bool) {
    (forall n :: r == Some(n) <==> StandsFor(n, u, size, signed)) == true
  }

  lemma {:induction false} DecodedStands(b: Bytes, signed: bool, n: int)
    requires |b| >= 1
    ensures Decoded(b, signed) == Some(n) <==> StandsFor(n, Number(b), |b|, signed)
  {
    var u, p := Number(b), Pow(|b|);
    if signed {
      SignedResidue(n, u, p);
    } else {
      assert Signed(u) % TWO64 == Unsigned(u) by { UnsignedSigned(u); }
      if Int64(n) && n % TWO64 == u { SignedUnsigned(n); }
    }
  }

  lemma {:induction false} SignedResidue(n: int, u: nat, p: nat)
    requires u < p
    ensures n == (if 2 * u >= p then u - p else u) <==> 0 <= 2 * n + p < 2 * p && n % p == u
  {
    if 0 <= 2 * n + p < 2 * p {
      if n < 0 { Residue(n, p, -1, n + p); } else { Residue(n, p, 0, n); }
    }
  }

  method Put(tmp: array<Byte>, i: nat, little: bool, x: Byte)
    requires i < tmp.Length
    modifies tmp
    ensures Ordered(tmp[..], little) == old(Ordered(tmp[..], little))[i := x]
  {
    tmp[PackIdx(i, little, tmp.Length)] := x;
  }

  /** The low bytes of n. */
  method PutLow(tmp: array<Byte>, n: nat, little: bool)
    requires tmp.Length >= 1
    modifies tmp
    ensures Ordered(tmp[..], little) == Digits(n, tmp.Length)
  {
    var m, size := n, tmp.Length;
    ghost var low := Digits(n, size);
    DigitAt(n, size, 0);
    Put(tmp, 0, little, m % 256);
    for i := 1 to size
      invariant m == Shift(n, i - 1)
      invariant forall k :: 0 <= k < i ==> Ordered(tmp[..], little)[k] == low[k]
    {
      ShiftMore(n, i - 1);
      DigitAt(n, size, i);
      m := m / 256;
      Put(tmp, i, little, m % 256);
    }
  }

  lemma {:induction false} AppendedWorth(buf: Bytes, b: Bytes, little: bool, w: int, r: Bytes)
    requires 0 <= w + Pow(|b|) && Ordered(b, little) == Digits(Stored(w, |b|), |b|) && r == buf + b
    ensures |r| == |buf| + |b| && r[..|buf|] == buf && Worth(r[|buf|..], little) == w % Pow(|b|)
  {
    assert r[|buf|..] == b;
    OrderedWorth(b, little);
    StoredModulo(w, |b|);
  }

  /** packint: the low bytes of n, filled up with 0xFF after the eighth for a negative number. */
  method PackInt(buf: Bytes, n: int, little: bool, size: nat, neg: bool, ghost w: int) returns (r: Bytes)
    requires 1 <= size && Storable(w) && n == Unsigned(w) && neg == (w < 0) && (size < SZINT ==> 0 <= w + Pow(size))
    ensures 0 <= w + Pow(size) && r == buf + Ordered(Digits(Stored(w, size), size), little)
    ensures |r| == |buf| + size && r[..|buf|] == buf && Worth(r[|buf|..], little) == w % Pow(size)
  {
    var tmp := new Byte[size](_ => 0);
    PutLow(tmp, n, little);
    ghost var low := Ordered(tmp[..], little);
    if neg && size > SZINT {
      for i := SZINT to size
        invariant forall k :: 0 <= k < size ==> Ordered(tmp[..], little)[k] == if SZINT <= k < i then 0xFF else low[k]
      {
        Put(tmp, i, little, 0xFF);
      }
    }
    Extended(w, size, low, Ordered(tmp[..], little));
    OrderedTwice(tmp[..], little);
    r := buf + tmp[..];
    AppendedWorth(buf, tmp[..], little, w, r);
  }

  // ---------------------------------------------------------------------------------------------
  // Reading

  /** Exclusive or with the top bit. */
  function Flip(x: nat, mask: nat): nat
    requires x < 2 * mask
  {
    if x >= mask then x - mask else x + mask
  }

  /** The low bytes of a word, most significant first. */
  method ReadUint(b: Bytes, little: bool, limit: nat) returns (res: int)
    requires limit <= |b| && limit <= SZINT
    ensures res == Number(Ordered(b, little)[..limit]) && res < Pow(limit) <= TWO64
  {
    ghost var low := Ordered(b, little)[..limit];
    PowOf(limit);
    PowSmall();
    res := 0;
    for i := limit downto 0
      invariant res == Number(low[i..])
    {
      assert low[i..][1..] == low[i + 1..];
      res := res * 256 + b[PackIdx(i, little, |b|)];
    }
    assert low[0..] == low;
  }

  lemma {:induction false} UnpackedStands(b: Bytes, little: bool, signed: bool)
    requires |b| >= 1
    ensures Means(Decoded(Ordered(b, little), signed), Worth(b, little), |b|, signed)
  {
    var r, u := Decoded(Ordered(b, little), signed), Worth(b, little);
    OrderedWorth(b, little);
    forall n ensures r == Some(n) <==> StandsFor(n, u, |b|, signed) {
      DecodedStands(Ordered(b, little), signed, n);
    }
  }

  /** unpackint; None is the error that the integer does not fit. */
  method UnpackInt(b: Bytes, little: bool, size: nat, signed: bool) returns (r: Option<int>)
    requires 1 <= size == |b|
    ensures r == Decoded(Ordered(b, little), signed)
    ensures Means(r, Worth(b, little), size, signed)
  {
    UnpackedStands(b, little, signed);
    var limit := if size > SZINT then SZINT else size;
    var res := ReadUint(b, little, limit);
    ghost var o := Ordered(b, little);
    PowOf(size);
    PowSmall();
    if size < SZINT {
      assert o[..limit] == o;
      ShortWord(o, signed, res);
      if signed {
        var mask := Pow(size) / 2;
        HalfBit(res, size, mask);
        res := Unsigned(Flip(res, mask) - mask);
      }
    } else if size > SZINT {
      var ok := HighBytes(b, little, signed, res);
      if !ok {
        return None;
      }
    } else {
      assert o[..limit] == o;
      FullWord(o, signed);
    }
    return Some(Signed(res));
  }

  lemma {:induction false} ShortWord(o: Bytes, signed: bool, res: nat)
    requires 1 <= |o| < SZINT && res == Number(o)
    ensures var p := Pow(|o|);
            Decoded(o, signed) ==
            Some(Signed(if !signed then res else Unsigned(if 2 * res >= p then res - p else res)))
  {
    PowOf(|o|);
    if signed { SignedUnsigned(if 2 * res >= Pow(|o|) then res - Pow(|o|) else res); }
  }

  lemma {:induction false} FullWord(o: Bytes, signed: bool)
    requires |o| == SZINT
    ensures Decoded(o, signed) == Some(Signed(Number(o)))
  {
    PowSmall();
  }

  /** The bytes above the eighth have to repeat the sign. */
  method HighBytes(b: Bytes, little: bool, signed: bool, res: nat) returns (ok: bool)
    requires |b| > SZINT && res == Number(Ordered(b, little)[..SZINT]) && res < TWO64
    ensures Decoded(Ordered(b, little), signed) == if ok then Some(Signed(res)) else None
  {
    ghost var o := Ordered(b, little);
    var mask: Byte := 0;
    if signed && Signed(res) < 0 {
      mask := 0xFF;
    }
    for i := SZINT to |b|
      invariant forall k :: SZINT <= k < i ==> o[k] == mask
    {
      if b[PackIdx(i, little, |b|)] != mask {
        assert o[i] != mask;
        Misfit(o, res, signed, mask, i);
        return false;
      }
    }
    Match(o, res, signed, mask);
    ok := true;
  }

  lemma {:induction false} HalfBit(res: nat, size: nat, mask: nat)
    requires 1 <= size < SZINT && res < Pow(size) && mask == Pow(size) / 2
    ensures res < 2 * mask && Flip(res, mask) - mask == if 2 * res >= Pow(size) then res - Pow(size) else res
  {
    assert Pow(size) == 2 * (128 * Pow(size - 1));
    assert mask == 128 * Pow(size - 1);
  }

  lemma {:induction false} HighPart(o: Bytes)
    requires |o| > SZINT
    ensures Number(o) == Number(o[..SZINT]) + TWO64 * Number(o[SZINT..]) && Pow(|o|) == TWO64 * Pow(|o| - SZINT)
    ensures Number(o[..SZINT]) < TWO64
  {
    PowOf(|o|);
    PowSmall();
    NumberAppend(o[..SZINT], o[SZINT..]);
    assert o == o[..SZINT] + o[SZINT..];
  }

  /** All bytes above the eighth repeat the sign: the number fits. */
  lemma {:induction false} Match(o: Bytes, res: nat, signed: bool, mask: Byte)
    requires |o| > SZINT && res == Number(o[..SZINT]) && res < TWO64
    requires mask == if signed && Signed(res) < 0 then 0xFF else 0
    requires forall k :: SZINT <= k < |o| ==> o[k] == mask
    ensures Decoded(o, signed) == Some(Signed(res))
  {
    HighPart(o);
    AllOf(o[SZINT..], mask);
  }

  /** Some byte above the eighth does not: it does not fit. */
  lemma {:induction false} Misfit(o: Bytes, res: nat, signed: bool, mask: Byte, i: nat)
    requires |o| > SZINT && res == Number(o[..SZINT]) && res < TWO64
    requires mask == if signed && Signed(res) < 0 then 0xFF else 0
    requires SZINT <= i < |o| && o[i] != mask
    ensures Decoded(o, signed) == None
  {
    HighPart(o);
    var hi := o[SZINT..];
    var all := seq(|hi|, _ => mask);
    AllOf(all, mask);
    assert hi[i - SZINT] != all[i - SZINT];
    if Number(hi) == Number(all) { NumberInjective(hi, all); }
  }
}
