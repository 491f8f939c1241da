/**
 string.pack, string.unpack and string.packsize: what is packed is what is unpacked.
 */
module Pack {
  import opened Options
  import opened ByteStrings
  import opened Words
  import opened Binary
  import opened PackFormat

  type Integer = x: int | Int64(x)
  type Word64 = x: int | 0 <= x < TWO64
  type Word32 = x: int | 0 <= x < 0x1_0000_0000

  /** A string's length is a 64-bit integer. */
  type GoString = s: Bytes | |s| <= MAX_INT

  /** A Lua value; a float is its 64 bits. */
  datatype Value = Nil | Int(i: Integer) | Flt(bits: Word64) | Str(s: GoString) | Other

  /** The byte order of the machine, and the conversions between numbers and strings. */
  datatype Host = Host(
    native: bool,
    exact: Word64 -> Option<Integer>,
    float: Integer -> Word64,
    numeral: GoString -> Value,
    show: Value -> GoString,
    narrow: Word64 -> Word32,
    widen: Word32 -> Word64)

  function ToInt(host: Host, v: Value): Option<Integer> {
    match v
    case Int(n) => Some(n)
    case Flt(b) => host.exact(b)
    case _ => None
  }

  function ToFloat(host: Host, v: Value): Option<Word64> {
    match v
    case Int(n) => Some(host.float(n))
    case Flt(b) => Some(b)
    case _ => None
  }

  /** checkInt; None is an error. */
  function CheckInt(host: Host, v: Value): Option<Integer> {
    if v.Str? then ToInt(host, host.numeral(v.s)) else ToInt(host, v)
  }

  function CheckNumber(host: Host, v: Value): Option<Word64> {
    if v.Str? then ToFloat(host, host.numeral(v.s)) else ToFloat(host, v)
  }

  function CheckString(host: Host, v: Value): Option<GoString> {
    match v
    case Str(s) => Some(s)
    case Int(_) => Some(host.show(v))
    case Flt(_) => Some(host.show(v))
    case _ => None
  }

  // ---------------------------------------------------------------------------------------------
  // One item

  function Zeros(n: nat): (z: Bytes)
    ensures |z| == n && forall k :: 0 <= k < n ==> z[k] == 0
  {
    seq(n, _ => 0)
  }

  /** The first zero byte at or after pos, or the length. */
  function ZeroFrom(s: Bytes, pos: nat): (e: nat)
    requires pos <= |s|
    ensures pos <= e <= |s| && (e < |s| ==> s[e] == 0) && forall k :: pos <= k < e ==> s[k] != 0
    decreases |s| - pos
  {
    if pos == |s| || s[pos] == 0 then pos else ZeroFrom(s, pos + 1)
  }

  predicate Consumes(kind: Kind) {
    !(kind.KPadding? || kind.KPaddalign? || kind.KNop?)
  }

  /** The value of an argument that an option takes: the result of its conversion, cut to the size.
      None where the argument is refused. */
  function Taken(host: Host, kind: Kind, size: nat, a: Value): Option<Value>
    requires SizeOk(kind, size) && Consumes(kind)
  {
    match kind
    case KInt => TakenInt(host, size, a, true)
    case KUint => TakenInt(host, size, a, false)
    case KFloat =>
      (var b := CheckNumber(host, a); if b.None? then None else Some(Flt(host.widen(host.narrow(b.value)))))
    case KNumber => TakenFloat(host, a)
    case KDouble => TakenFloat(host, a)
    case KChar =>
      (var s := CheckString(host, a);
       if s.None? || |s.value| > size then None else Some(Str(s.value + Zeros(size - |s.value|))))
    case KString =>
      (var s := CheckString(host, a); if s.None? || !Fits(|s.value|, size, false) then None else Some(Str(s.value)))
    case KZstr =>
      (var s := CheckString(host, a); if s.None? || ZeroFrom(s.value, 0) < |s.value| then None else Some(Str(s.value)))
  }

  function TakenInt(host: Host, size: nat, a: Value, signed: bool): Option<Value> {
    var n := CheckInt(host, a);
    if n.None? || !Fits(n.value, size, signed) then None else Some(Int(n.value))
  }

  function TakenFloat(host: Host, a: Value): Option<Value> {
    var b := CheckNumber(host, a);
    if b.None? then None else Some(Flt(b.value))
  }

  /** An integer of the size, in the byte order. */
  function IntBytes(n: Integer, size: nat, signed: bool, little: bool): (b: Bytes)
    requires 1 <= size && Fits(n, size, signed)
    ensures |b| == size
  {
    Ordered(Word(n, size, signed), little)
  }

  /** The bytes of a value that an option takes; for f, of its 32 bits. */
  function Written(host: Host, little: bool, kind: Kind, size: nat, a: Value): (b: Bytes)
    requires SizeOk(kind, size) && Consumes(kind) && Taken(host, kind, size, a).Some?
    ensures size <= |b|
  {
    match kind
    case KInt => IntBytes(CheckInt(host, a).value, size, true, little)
    case KUint => IntBytes(CheckInt(host, a).value, size, false, little)
    case KFloat => Ordered(Digits(host.narrow(CheckNumber(host, a).value), 4), little)
    case KNumber => Ordered(Digits(CheckNumber(host, a).value, 8), little)
    case KDouble => Ordered(Digits(CheckNumber(host, a).value, 8), little)
    case KChar => (var s := CheckString(host, a).value; s + Zeros(size - |s|))
    case KString => (var s := CheckString(host, a).value; IntBytes(|s|, size, false, little) + s)
    case KZstr => CheckString(host, a).value + [0]
  }

  /** Reading an item: what it adds to the results, and where it ends. A negative string length is
      not caught. */
  datatype Read = Got(vals: seq<Value>, end: nat) | Fails | Crashes

  function ReadItem(host: Host, little: bool, kind: Kind, size: nat, data: GoString, pos: nat): (r: Read)
    requires SizeOk(kind, size) && pos + size <= |data|
    ensures r.Got? ==> pos + size <= r.end <= |data| && |r.vals| == if Consumes(kind) then 1 else 0
  {
    var b := data[pos..pos + size];
    match kind
    case KInt => ReadInt(b, little, true, pos + size)
    case KUint => ReadInt(b, little, false, pos + size)
    case KFloat => (PowSmall(); Got([Flt(host.widen(Number(Ordered(b, little))))], pos + size))
    case KNumber => (PowSmall(); Got([Flt(Number(Ordered(b, little)))], pos + size))
    case KDouble => (PowSmall(); Got([Flt(Number(Ordered(b, little)))], pos + size))
    case KChar => Got([Str(b)], pos + size)
    case KString =>
      (match Decoded(Ordered(b, little), false)
       case None => Fails
       case Some(n) =>
         if n > |data| - pos - size then Fails
         else if n < 0 then Crashes
         else Got([Str(data[pos + size..pos + size + n])], pos + size + n))
    case KZstr => (var e := ZeroFrom(data, pos); if e == |data| then Fails else Got([Str(data[pos..e])], e + 1))
    case _ => Got([], pos + size)
  }

  function ReadInt(b: Bytes, little: bool, signed: bool, end: nat): (r: Read)
    ensures r.Got? ==> r.end == end && |r.vals| == 1
  {
    match Decoded(Ordered(b, little), signed)
    case None => Fails
    case Some(n) => Got([Int(n)], end)
  }

  /** The bytes b are in the data at pos. */
  predicate Holds(data: Bytes, pos: nat, b: Bytes) {
    pos + |b| <= |data| && forall k {:trigger b[k]} :: 0 <= k < |b| ==> data[pos + k] == b[k]
  }

  lemma {:induction false} HoldsSplit(data: Bytes, pos: nat, a: Bytes, b: Bytes)
    requires Holds(data, pos, a + b)
    ensures Holds(data, pos, a) && Holds(data, pos + |a|, b)
  {
    forall k | 0 <= k < |a| ensures data[pos + k] == a[k] { assert (a + b)[k] == a[k]; }
    forall k | 0 <= k < |b| ensures data[pos + |a| + k] == b[k] { assert (a + b)[|a| + k] == b[k]; }
  }

  lemma {:induction false} HoldsSlice(data: Bytes, pos: nat, b: Bytes)
    requires Holds(data, pos, b)
    ensures data[pos..pos + |b|] == b
  {
  }

  /** The item that was written for a is read back, at pos. */
  ghost predicate Back(host: Host, little: bool, kind: Kind, size: nat, a: Value, data: GoString, pos: nat)
    requires SizeOk(kind, size) && Consumes(kind) && Taken(host, kind, size, a).Some? && pos + size <= |data|
  {
    ReadItem(host, little, kind, size, data, pos)
    == Got([Taken(host, kind, size, a).value], pos + |Written(host, little, kind, size, a)|)
  }

  lemma {:induction false} ItemBack(host: Host, little: bool, kind: Kind, size: nat, a: Value, data: GoString, pos: nat)
    requires SizeOk(kind, size) && Consumes(kind) && Taken(host, kind, size, a).Some?
    requires Holds(data, pos, Written(host, little, kind, size, a))
    ensures Back(host, little, kind, size, a, data, pos)
  {
    if kind.KInt? || kind.KUint? {
      IntKind(host, little, kind, size, a, data, pos);
    } else if kind.KFloat? || kind.KNumber? || kind.KDouble? {
      FloatKind(host, little, kind, size, a, data, pos);
    } else {
      StringKind(host, little, kind, size, a, data, pos);
    }
  }

  lemma {:induction false} IntKind(host: Host, little: bool, kind: Kind, size: nat, a: Value, data: GoString, pos: nat)
    requires kind.KInt? || kind.KUint?
    requires SizeOk(kind, size) && Taken(host, kind, size, a).Some?
             && Holds(data, pos, Written(host, little, kind, size, a))
    ensures Back(host, little, kind, size, a, data, pos)
  {
    IntItem(CheckInt(host, a).value, size, kind.KInt?, little, data, pos);
  }

  lemma {:induction false} FloatKind(host: Host, little: bool, kind: Kind, size: nat, a: Value, data: GoString,
                                     pos: nat)
    requires kind.KFloat? || kind.KNumber? || kind.KDouble?
    requires SizeOk(kind, size) && Taken(host, kind, size, a).Some?
             && Holds(data, pos, Written(host, little, kind, size, a))
    ensures Back(host, little, kind, size, a, data, pos)
  {
    var b := CheckNumber(host, a).value;
    FloatItem(if kind.KFloat? then host.narrow(b) else b, size, little, data, pos);
  }

  lemma {:induction false} StringKind(host: Host, little: bool, kind: Kind, size: nat, a: Value, data: GoString,
                                      pos: nat)
    requires kind.KChar? || kind.KString? || kind.KZstr?
    requires SizeOk(kind, size) && Taken(host, kind, size, a).Some?
             && Holds(data, pos, Written(host, little, kind, size, a))
    ensures Back(host, little, kind, size, a, data, pos)
  {
    match kind
    case KChar => HoldsSlice(data, pos, Written(host, little, kind, size, a));
    case KString => StringItem(host, little, size, CheckString(host, a).value, data, pos);
    case KZstr => ZeroItem(host, little, CheckString(host, a).value, data, pos);
  }

  lemma {:induction false} IntItem(n: Integer, size: nat, signed: bool, little: bool, data: Bytes, pos: nat)
    requires 1 <= size && Fits(n, size, signed) && Holds(data, pos, IntBytes(n, size, signed, little))
    ensures Decoded(Ordered(data[pos..pos + size], little), signed) == Some(n)
  {
    HoldsSlice(data, pos, IntBytes(n, size, signed, little));
    OrderedTwice(Word(n, size, signed), little);
    WordDecoded(n, size, signed);
  }

  lemma {:induction false} FloatItem(bits: nat, size: nat, little: bool, data: Bytes, pos: nat)
    requires (size == 4 && bits < 0x1_0000_0000) || (size == 8 && bits < TWO64)
    requires Holds(data, pos, Ordered(Digits(bits, size), little))
    ensures Number(Ordered(data[pos..pos + size], little)) == bits
  {
    HoldsSlice(data, pos, Ordered(Digits(bits, size), little));
    PowSmall();
    OrderedTwice(Digits(bits, size), little);
    NumberOfDigits(bits, size);
  }

  lemma {:induction false} StringItem(host: Host, little: bool, size: nat, s: GoString, data: GoString, pos: nat)
    requires SizeOk(KString, size) && Fits(|s|, size, false) && Holds(data, pos, IntBytes(|s|, size, false, little) + s)
    ensures ReadItem(host, little, KString, size, data, pos) == Got([Str(s)], pos + size + |s|)
  {
    HoldsSplit(data, pos, IntBytes(|s|, size, false, little), s);
    IntItem(|s|, size, false, little, data, pos);
    HoldsSlice(data, pos + size, s);
  }

  lemma {:induction false} ZeroItem(host: Host, little: bool, s: GoString, data: GoString, pos: nat)
    requires Holds(data, pos, s + [0]) && ZeroFrom(s, 0) == |s|
    ensures ReadItem(host, little, KZstr, 0, data, pos) == Got([Str(s)], pos + |s| + 1)
  {
    ZeroEnd(data, pos, s);
    PrefixSlice(data, pos, s, [0]);
  }

  lemma {:induction false} PrefixSlice(data: Bytes, pos: nat, a: Bytes, b: Bytes)
    requires Holds(data, pos, a + b)
    ensures data[pos..pos + |a|] == a
  {
    PrefixHolds(data, pos, a, b);
    HoldsSlice(data, pos, a);
  }

  lemma {:induction false} ZeroEnd(data: Bytes, pos: nat, s: Bytes)
    requires Holds(data, pos, s + [0]) && ZeroFrom(s, 0) == |s|
    ensures ZeroFrom(data, pos) == pos + |s| < |data|
  {
    TailByte(data, pos, s);
    PrefixHolds(data, pos, s, [0]);
    ZeroBetween(data, pos, s, pos + |s|);
  }

  lemma {:induction false} TailByte(data: Bytes, pos: nat, s: Bytes)
    requires Holds(data, pos, s + [0])
    ensures pos + |s| < |data| && data[pos + |s|] == 0
  {
    assert (s + [0])[|s|] == 0;
  }

  lemma {:induction false} PrefixHolds(data: Bytes, pos: nat, a: Bytes, b: Bytes)
    requires Holds(data, pos, a + b)
    ensures Holds(data, pos, a)
  {
    HoldsSplit(data, pos, a, b);
  }

  lemma {:induction false} ZeroBetween(data: Bytes, pos: nat, s: Bytes, e: nat)
    requires Holds(data, pos, s) && e == pos + |s| < |data| && data[e] == 0 && ZeroFrom(s, 0) == |s|
    ensures ZeroFrom(data, pos) == e
  {
    forall k | pos <= k < e ensures data[k] != 0 { NotZero(data, pos, s, k); }
    ZeroIs(data, pos, e);
  }

  lemma {:induction false} NotZero(data: Bytes, pos: nat, s: Bytes, k: nat)
    requires Holds(data, pos, s) && pos <= k < pos + |s| && (forall j :: 0 <= j < |s| ==> s[j] != 0)
    ensures data[k] != 0
  {
    var j := k - pos;
    assert data[pos + j] == s[j];
  }

  lemma {:induction false} ZeroIs(s: Bytes, pos: nat, e: nat)
    requires pos <= e < |s| && s[e] == 0 && forall k :: pos <= k < e ==> s[k] != 0
    ensures ZeroFrom(s, pos) == e
    decreases e - pos
  {
    if pos < e { ZeroIs(s, pos + 1, e); }
  }

  // ---------------------------------------------------------------------------------------------
  // Whole formats

  function Arg(args: seq<Value>, k: nat): Value {
    if k < |args| then args[k] else Nil
  }

  /** An option of a format; Bad is an error, which ends it. */
  type Directive = p: Parsed | p.Item? ==> HeaderOk(p.h) && SizeOk(p.kind, p.size) witness Bad

  /** The options of the format from i on. */
  function Script(native: bool, h: Header, fmt: string, i: nat): seq<Directive>
    requires HeaderOk(h)
    decreases |fmt| - i
  {
    if i >= |fmt| then []
    else
      var p := Details(native, h, fmt, i);
      if p.Bad? then [Bad] else [p] + Script(native, p.h, fmt, p.next)
  }

  function Padding(p: Directive, total: nat): Option<nat> {
    if p.Bad? then None else Pad(p.h, p.kind, p.align, total)
  }

  /** The values of the arguments that an option takes, if it accepts them: one or none. */
  function TakenBy(host: Host, p: Directive, args: seq<Value>, k: nat): (r: Option<seq<Value>>)
    requires p.Item?
    ensures r.Some? ==> |r.value| == if Consumes(p.kind) then 1 else 0
  {
    if !Consumes(p.kind) then Some([])
    else var v := Taken(host, p.kind, p.size, Arg(args, k)); if v.None? then None else Some([v.value])
  }

  /** Its bytes. */
  function ItemBytes(host: Host, p: Directive, args: seq<Value>, k: nat): (b: Bytes)
    requires p.Item? && TakenBy(host, p, args, k).Some?
  {
    if Consumes(p.kind) then Written(host, p.h.little, p.kind, p.size, Arg(args, k)) else Zeros(p.size)
  }

  function Following(p: Directive, k: nat): nat {
    if p.Item? && Consumes(p.kind) then k + 1 else k
  }

  /** One option with its padding, at offset `total`. */
  function Piece(host: Host, p: Directive, total: nat, args: seq<Value>, k: nat): (r: Option<Bytes>)
    ensures r.Some? ==> p.Item?
  {
    var pad := Padding(p, total);
    if pad.None? || TakenBy(host, p, args, k).None? then None
    else Some(Zeros(pad.value) + ItemBytes(host, p, args, k))
  }

  function Joined(b: Bytes, r: Option<Bytes>): Option<Bytes> {
    if r.None? then None else Some(b + r.value)
  }

  /** The bytes of an option at an offset, with the arguments from the k-th on; None is an error. */
  type Packing = (Directive, nat, nat) -> Option<Bytes>

  /** What string.pack appends for the options after `total` bytes. */
  function Packed(piece: Packing, ps: seq<Directive>, total: nat, k: nat): Option<Bytes> {
    if ps == [] then Some([])
    else
      var b := piece(ps[0], total, k);
      if b.None? then None else Joined(b.value, Packed(piece, ps[1..], total + |b.value|, Following(ps[0], k)))
  }

  /** The values that the options take from the arguments, from the k-th on. */
  function Carried(carry: (Directive, nat) -> seq<Value>, ps: seq<Directive>, k: nat): seq<Value> {
    if ps == [] then [] else carry(ps[0], k) + Carried(carry, ps[1..], Following(ps[0], k))
  }

  datatype Outcome = Values(vals: seq<Value>, end: nat) | Raised | Crashed

  function Prefixed(vals: seq<Value>, r: Outcome): Outcome {
    if r.Values? then Values(vals + r.vals, r.end) else r
  }

  /** What an option reads at an offset. */
  type Taking = (Directive, nat) -> Read

  /** What string.unpack reads for the options, from pos on. */
  function Unpacked(take: Taking, ps: seq<Directive>, pos: nat): Outcome {
    if ps == [] then Values([], pos)
    else
      match take(ps[0], pos)
      case Got(vals, end) => Prefixed(vals, Unpacked(take, ps[1..], end))
      case Fails => Raised
      case Crashes => Crashed
  }

  /** One option of string.unpack, at pos. */
  function Take(host: Host, p: Directive, data: GoString, pos: nat): (r: Read)
    ensures r.Got? ==> p.Item? && pos <= r.end <= |data| && |r.vals| == if Consumes(p.kind) then 1 else 0
  {
    var pad := Padding(p, pos);
    if pad.None? || pos + pad.value + p.size > |data| then Fails
    else ReadItem(host, p.h.little, p.kind, p.size, data, pos + pad.value)
  }

  function Packs(host: Host, args: seq<Value>): Packing {
    (p: Directive, total: nat, k: nat) => Piece(host, p, total, args, k)
  }

  function Takes(host: Host, data: GoString): Taking {
    (p: Directive, pos: nat) => Take(host, p, data, pos)
  }

  function Carries(host: Host, args: seq<Value>): (Directive, nat) -> seq<Value> {
    (p: Directive, k: nat) => if p.Bad? || TakenBy(host, p, args, k).None? then [] else TakenBy(host, p, args, k).value
  }

  lemma {:induction false} PieceBack(host: Host, p: Directive, args: seq<Value>, k: nat, data: GoString, pos: nat,
                                     b: Bytes)
    requires Piece(host, p, pos, args, k) == Some(b) && Holds(data, pos, b)
    ensures Take(host, p, data, pos) == Got(TakenBy(host, p, args, k).value, pos + |b|)
  {
    var pad := Padding(p, pos).value;
    HoldsSplit(data, pos, Zeros(pad), ItemBytes(host, p, args, k));
    if Consumes(p.kind) {
      FilledBack(host, p, Arg(args, k), data, pos, pad);
    } else {
      BlankBack(host, p, data, pos, pad);
    }
  }

  lemma {:induction false} FilledBack(host: Host, p: Directive, a: Value, data: GoString, pos: nat, pad: nat)
    requires p.Item? && Consumes(p.kind) && Padding(p, pos) == Some(pad)
    requires Taken(host, p.kind, p.size, a).Some?
    requires Holds(data, pos + pad, Written(host, p.h.little, p.kind, p.size, a))
    ensures Take(host, p, data, pos) == Got([Taken(host, p.kind, p.size, a).value],
                                            pos + pad + |Written(host, p.h.little, p.kind, p.size, a)|)
  {
    ItemBack(host, p.h.little, p.kind, p.size, a, data, pos + pad);
  }

  lemma {:induction false} BlankBack(host: Host, p: Directive, data: GoString, pos: nat, pad: nat)
    requires p.Item? && !Consumes(p.kind) && Padding(p, pos) == Some(pad) && pos + pad + p.size <= |data|
    ensures Take(host, p, data, pos) == Got([], pos + pad + p.size)
  {
  }

  /** What the option wrote, it reads. */
  ghost predicate Inverted(piece: Packing, take: Taking, carry: (Directive, nat) -> seq<Value>, data: Bytes,
                           p: Directive, pos: nat, k: nat) {
    var b := piece(p, pos, k);
    b.Some? && Holds(data, pos, b.value) ==> take(p, pos) == Got(carry(p, k), pos + |b.value|)
  }

  /** If every option reads what it wrote, unpacking undoes packing. */
  lemma {:induction false} UnpackPacked(piece: Packing, take: Taking, carry: (Directive, nat) -> seq<Value>,
                                        ps: seq<Directive>, total: nat, k: nat, data: Bytes, b: Bytes)
    requires forall p, pos, k :: Inverted(piece, take, carry, data, p, pos, k)
    requires Packed(piece, ps, total, k) == Some(b) && Holds(data, total, b)
    ensures Unpacked(take, ps, total) == Values(Carried(carry, ps, k), total + |b|)
    decreases |ps|
  {
    if ps != [] {
      var a := piece(ps[0], total, k).value;
      var b' := Packed(piece, ps[1..], total + |a|, Following(ps[0], k)).value;
      HoldsSplit(data, total, a, b');
      assert Inverted(piece, take, carry, data, ps[0], total, k);
      UnpackPacked(piece, take, carry, ps[1..], total + |a|, Following(ps[0], k), data, b');
    }
  }

  // ---------------------------------------------------------------------------------------------
  // The other way round

  /** The value that was read is written as it was. */
  ghost predicate Again(host: Host, little: bool, kind: Kind, size: nat, v: Value, data: GoString, pos: nat, end: nat)
    requires SizeOk(kind, size)
  {
    && Consumes(kind) && Taken(host, kind, size, v) == Some(v)
    && pos <= end <= |data| && Written(host, little, kind, size, v) == data[pos..end]
  }

  /** Single floats survive being widened. */
  ghost predicate Faithful(host: Host) {
    forall x: Word32 :: host.narrow(host.widen(x)) == x
  }

  lemma {:induction false} ItemAgain(host: Host, little: bool, kind: Kind, size: nat, data: GoString, pos: nat)
    requires SizeOk(kind, size) && Consumes(kind) && pos + size <= |data| && (kind.KFloat? ==> Faithful(host))
    requires ReadItem(host, little, kind, size, data, pos).Got?
    ensures var r := ReadItem(host, little, kind, size, data, pos);
            Again(host, little, kind, size, r.vals[0], data, pos, r.end)
  {
    if kind.KInt? || kind.KUint? {
      IntKindAgain(host, little, kind, size, data, pos);
    } else if kind.KFloat? || kind.KNumber? || kind.KDouble? {
      FloatKindAgain(host, little, kind, size, data, pos);
    } else if kind.KString? {
      StringAgain(host, little, size, data, pos);
    } else if kind.KZstr? {
      ZeroKindAgain(host, little, data, pos);
    } else {
      CharAgain(host, little, size, data, pos);
    }
  }

  lemma {:induction false} IntKindAgain(host: Host, little: bool, kind: Kind, size: nat, data: GoString, pos: nat)
    requires kind.KInt? || kind.KUint?
    requires SizeOk(kind, size) && pos + size <= |data| && ReadItem(host, little, kind, size, data, pos).Got?
    ensures var r := ReadItem(host, little, kind, size, data, pos);
            Again(host, little, kind, size, r.vals[0], data, pos, r.end)
  {
    IntAgain(data[pos..pos + size], kind.KInt?, little);
  }

  lemma {:induction false} FloatKindAgain(host: Host, little: bool, kind: Kind, size: nat, data: GoString, pos: nat)
    requires kind.KFloat? || kind.KNumber? || kind.KDouble?
    requires SizeOk(kind, size) && pos + size <= |data| && (kind.KFloat? ==> Faithful(host))
             && ReadItem(host, little, kind, size, data, pos).Got?
    ensures var r := ReadItem(host, little, kind, size, data, pos);
            Again(host, little, kind, size, r.vals[0], data, pos, r.end)
  {
    FloatAgain(data[pos..pos + size], little);
  }

  lemma {:induction false} ZeroKindAgain(host: Host, little: bool, data: GoString, pos: nat)
    requires pos <= |data| && ReadItem(host, little, KZstr, 0, data, pos).Got?
    ensures var r := ReadItem(host, little, KZstr, 0, data, pos);
            Again(host, little, KZstr, 0, r.vals[0], data, pos, r.end)
  {
    ZeroAgain(data, pos);
  }

  lemma {:induction false} CharAgain(host: Host, little: bool, size: nat, data: GoString, pos: nat)
    requires SizeOk(KChar, size) && pos + size <= |data|
    ensures var r := ReadItem(host, little, KChar, size, data, pos);
            Again(host, little, KChar, size, r.vals[0], data, pos, r.end)
  {
    var b := data[pos..pos + size];
    assert b + Zeros(0) == b;
  }

  lemma {:induction false} IntAgain(b: Bytes, signed: bool, little: bool)
    requires 1 <= |b| && Decoded(Ordered(b, little), signed).Some?
    ensures var n := Decoded(Ordered(b, little), signed).value;
            Fits(n, |b|, signed) && IntBytes(n, |b|, signed, little) == b
  {
    DecodedWord(Ordered(b, little), signed);
    OrderedTwice(b, little);
  }

  lemma {:induction false} FloatAgain(b: Bytes, little: bool)
    ensures Ordered(Digits(Number(Ordered(b, little)), |b|), little) == b
  {
    var o := Ordered(b, little);
    NumberOfDigits(Number(o), |b|);
    NumberInjective(Digits(Number(o), |b|), o);
    OrderedTwice(b, little);
  }

  lemma {:induction false} StringWritten(host: Host, little: bool, size: nat, s: GoString, b: Bytes)
    requires SizeOk(KString, size) && Fits(|s|, size, false) && IntBytes(|s|, size, false, little) == b
    ensures Taken(host, KString, size, Str(s)) == Some(Str(s)) && Written(host, little, KString, size, Str(s)) == b + s
  {
  }

  lemma Slices(data: Bytes, i: nat, j: nat, k: nat)
    requires i <= j <= k <= |data|
    ensures data[i..j] + data[j..k] == data[i..k]
  {
  }

  lemma {:induction false} StringAgain(host: Host, little: bool, size: nat, data: GoString, pos: nat)
    requires SizeOk(KString, size) && pos + size <= |data| && ReadItem(host, little, KString, size, data, pos).Got?
    ensures var r := ReadItem(host, little, KString, size, data, pos);
            Again(host, little, KString, size, r.vals[0], data, pos, r.end)
  {
    var s := StringRead(host, little, size, data, pos);
    var b, end := data[pos..pos + size], pos + size + |s|;
    IntAgain(b, false, little);
    Slices(data, pos, pos + size, end);
    StringWritten(host, little, size, s, b);
    assert Again(host, little, KString, size, Str(s), data, pos, end);
  }

  lemma {:induction false} StringRead(host: Host, little: bool, size: nat, data: GoString, pos: nat)
    returns (s: GoString)
    requires SizeOk(KString, size) && pos + size <= |data| && ReadItem(host, little, KString, size, data, pos).Got?
    ensures Decoded(Ordered(data[pos..pos + size], little), false) == Some(|s|)
    ensures pos + size + |s| <= |data| && s == data[pos + size..pos + size + |s|]
    ensures ReadItem(host, little, KString, size, data, pos) == Got([Str(s)], pos + size + |s|)
  {
    var n := Decoded(Ordered(data[pos..pos + size], little), false).value;
    s := data[pos + size..pos + size + n];
  }

  lemma {:induction false} ZeroAgain(data: Bytes, pos: nat)
    requires pos <= |data| && ZeroFrom(data, pos) < |data|
    ensures var e := ZeroFrom(data, pos); ZeroFrom(data[pos..e], 0) == e - pos && data[pos..e] + [0] == data[pos..e + 1]
  {
    var e := ZeroFrom(data, pos);
    var s := data[pos..e];
    forall k | 0 <= k < |s| ensures s[k] != 0 { assert data[pos + k] != 0; }
  }

  /** The floats of the format, if any, are double. */
  predicate NoSingles(ps: seq<Directive>) {
    forall j :: 0 <= j < |ps| ==> ps[j].Bad? || !ps[j].kind.KFloat?
  }

  /** A piece that holds a value taken as it is. */
  lemma {:induction false} PieceOf(host: Host, p: Directive, total: nat, args: seq<Value>, k: nat, v: Value)
    requires p.Item? && Consumes(p.kind) && Padding(p, total).Some? && Arg(args, k) == v
             && Taken(host, p.kind, p.size, v) == Some(v)
    ensures Piece(host, p, total, args, k) ==
            Some(Zeros(Padding(p, total).value) + Written(host, p.h.little, p.kind, p.size, v))
    ensures TakenBy(host, p, args, k) == Some([v])
  {
  }

  lemma {:induction false} PieceAgain(host: Host, p: Directive, args: seq<Value>, k: nat, data: GoString, pos: nat)
    requires pos <= |data| && Take(host, p, data, pos).Got? && (p.kind.KFloat? ==> Faithful(host))
    requires From(args, k, Take(host, p, data, pos).vals)
    ensures Piece(host, p, pos, args, k).Some?
            && pos + |Piece(host, p, pos, args, k).value| == Take(host, p, data, pos).end
    ensures TakenBy(host, p, args, k) == Some(Take(host, p, data, pos).vals)
  {
    if Consumes(p.kind) {
      ValueAgain(host, p, args, k, data, pos);
    } else {
      PaddingAgain(host, p, args, k, data, pos);
    }
  }

  lemma {:induction false} ValueAgain(host: Host, p: Directive, args: seq<Value>, k: nat, data: GoString, pos: nat)
    requires pos <= |data| && Take(host, p, data, pos).Got? && (p.kind.KFloat? ==> Faithful(host)) && Consumes(p.kind)
    requires From(args, k, Take(host, p, data, pos).vals)
    ensures Piece(host, p, pos, args, k).Some?
            && pos + |Piece(host, p, pos, args, k).value| == Take(host, p, data, pos).end
    ensures TakenBy(host, p, args, k) == Some(Take(host, p, data, pos).vals)
  {
    var r, at := Take(host, p, data, pos), pos + Padding(p, pos).value;
    var v := r.vals[0];
    assert r == ReadItem(host, p.h.little, p.kind, p.size, data, at) && r.vals == [v];
    ItemAgain(host, p.h.little, p.kind, p.size, data, at);
    assert Again(host, p.h.little, p.kind, p.size, v, data, at, r.end);
    PieceOf(host, p, pos, args, k, v);
  }

  lemma {:induction false} PaddingAgain(host: Host, p: Directive, args: seq<Value>, k: nat, data: GoString, pos: nat)
    requires pos <= |data| && Take(host, p, data, pos).Got? && !Consumes(p.kind)
    ensures Piece(host, p, pos, args, k).Some?
            && pos + |Piece(host, p, pos, args, k).value| == Take(host, p, data, pos).end
    ensures TakenBy(host, p, args, k) == Some(Take(host, p, data, pos).vals)
  {
  }

  /** What the option read, it takes as it is, in as many bytes. */
  ghost predicate Repeated(piece: Packing, take: Taking, carry: (Directive, nat) -> seq<Value>, args: seq<Value>,
                           p: Directive, pos: nat, k: nat) {
    var r := take(p, pos);
    r.Got? && From(args, k, r.vals) ==>
      && Following(p, k) == k + |r.vals| && carry(p, k) == r.vals
      && piece(p, pos, k).Some? && pos + |piece(p, pos, k).value| == r.end
  }

  /** What was unpacked can be packed again, in as many bytes. */
  lemma {:induction false} PackUnpacked(piece: Packing, take: Taking, carry: (Directive, nat) -> seq<Value>,
                                        ps: seq<Directive>, pos: nat, args: seq<Value>, k: nat, vals: seq<Value>,
                                        end: nat)
    requires forall p, pos, k :: p in ps ==> Repeated(piece, take, carry, args, p, pos, k)
    requires Unpacked(take, ps, pos) == Values(vals, end) && From(args, k, vals)
    ensures Packed(piece, ps, pos, k).Some? && pos + |Packed(piece, ps, pos, k).value| == end
    ensures Carried(carry, ps, k) == vals
    decreases |ps|
  {
    if ps != [] {
      var r := take(ps[0], pos);
      var rest := Unpacked(take, ps[1..], r.end).vals;
      FromSplit(args, k, r.vals, rest);
      assert Repeated(piece, take, carry, args, ps[0], pos, k);
      PackUnpacked(piece, take, carry, ps[1..], r.end, args, Following(ps[0], k), rest, end);
    }
  }

  /** The arguments from the k-th on are these. */
  predicate From(args: seq<Value>, k: nat, vals: seq<Value>) {
    k + |vals| <= |args| && forall j {:trigger vals[j]} :: 0 <= j < |vals| ==> args[k + j] == vals[j]
  }

  lemma {:induction false} FromSplit(args: seq<Value>, k: nat, a: seq<Value>, b: seq<Value>)
    requires From(args, k, a + b)
    ensures From(args, k, a) && From(args, k + |a|, b)
  {
    forall j | 0 <= j < |a| ensures args[k + j] == a[j] { assert (a + b)[j] == a[j]; }
    forall j | 0 <= j < |b| ensures args[k + |a| + j] == b[j] { assert (a + b)[|a| + j] == b[j]; }
  }

  // ---------------------------------------------------------------------------------------------
  // string.packsize

  predicate Variable(p: Directive) {
    p.Item? && (p.kind.KString? || p.kind.KZstr?)
  }

  /** The total after one more option; None is an error. */
  function Grown(p: Directive, total: nat): Option<nat> {
    if Padding(p, total).None? || Variable(p) then None
    else
      var size := p.size + Padding(p, total).value;
      if total > MAX_SIZE - size then None else Some(total + size)
  }

  /** What string.packsize answers, for the options after `total` bytes; None is an error. */
  function Size(ps: seq<Directive>, total: nat): Option<nat> {
    if ps == [] then Some(total)
    else
      match Grown(ps[0], total)
      case None => None
      case Some(total') => Size(ps[1..], total')
  }

  /** The bytes of an option of fixed size. */
  lemma {:induction false} PieceSize(host: Host, p: Directive, total: nat, args: seq<Value>, k: nat)
    requires Piece(host, p, total, args, k).Some? && !Variable(p)
    ensures |Piece(host, p, total, args, k).value| == p.size + Padding(p, total).value
  {
  }

  ghost predicate Measured(piece: Packing, p: Directive, total: nat, k: nat) {
    piece(p, total, k).Some? ==>
      && Padding(p, total).Some?
      && (!Variable(p) ==> |piece(p, total, k).value| == p.size + Padding(p, total).value)
  }

  predicate AnyVariable(ps: seq<Directive>) {
    exists p :: p in ps && Variable(p)
  }

  /** For whatever string.pack accepts, string.packsize is the packed length, unless the format has an
      option of variable length or the length passes MAX_SIZE. */
  lemma {:induction false} SizeExact(piece: Packing, ps: seq<Directive>, total: nat, k: nat, b: Bytes)
    requires forall p, total, k :: Measured(piece, p, total, k)
    requires Packed(piece, ps, total, k) == Some(b) && total <= MAX_SIZE
    ensures Size(ps, total) ==
            if AnyVariable(ps) || total + |b| > MAX_SIZE then None else Some(total + |b|)
    decreases |ps|
  {
    if ps != [] {
      assert Measured(piece, ps[0], total, k);
      var a := piece(ps[0], total, k).value;
      var b' := Packed(piece, ps[1..], total + |a|, Following(ps[0], k)).value;
      if !Variable(ps[0]) && total + |a| <= MAX_SIZE {
        SizeExact(piece, ps[1..], total + |a|, Following(ps[0], k), b');
        assert ps == [ps[0]] + ps[1..];
      }
    }
  }

  // ---------------------------------------------------------------------------------------------
  // The library functions

  function Start(host: Host): (h: Header)
    ensures HeaderOk(h)
  {
    Header(host.native, 1)
  }

  function Directives(host: Host, fmt: string): seq<Directive> {
    Script(host.native, Start(host), fmt, 0)
  }

  function StrPack(host: Host, fmt: string, args: seq<Value>): Option<Bytes> {
    Packed(Packs(host, args), Directives(host, fmt), 0, 0)
  }

  /** The offset for the initial position: strRelIndex, less one. */
  function StartPos(init: Integer, ld: nat): (pos: nat)
    ensures init >= 1 ==> pos == init - 1
    ensures init == 0 || init < 0 - ld ==> pos == 0
    ensures 0 - ld <= init < 0 ==> pos == ld + init
  {
    var p := (if init >= 0 then init else if Signed(0 - init) > ld then 0 else ld + init + 1) - 1;
    if p < 0 then 0 else p
  }

  function StrUnpack(host: Host, fmt: string, data: GoString, init: Integer): Outcome {
    var pos := StartPos(init, |data|);
    if pos > |data| then Raised
    else
      match Unpacked(Takes(host, data), Directives(host, fmt), pos)
      case Values(vals, end) => Values(vals + [Int(Signed(end + 1))], end)
      case r => r
  }

  function StrPackSize(host: Host, fmt: string): Option<nat> {
    Size(Directives(host, fmt), 0)
  }

  /** The arguments of string.pack, as the format's options take them. */
  function Arguments(host: Host, fmt: string, args: seq<Value>): seq<Value> {
    Carried(Carries(host, args), Directives(host, fmt), 0)
  }

  /** Whatever string.pack accepts, string.unpack gives back, and then the position after it; what
      follows the packed bytes does not matter. */
  lemma {:induction false} RoundTrip(host: Host, fmt: string, args: seq<Value>, rest: Bytes)
    requires StrPack(host, fmt, args).Some? && |StrPack(host, fmt, args).value + rest| <= MAX_INT
    ensures var b := StrPack(host, fmt, args).value;
            StrUnpack(host, fmt, b + rest, 1) == Values(Arguments(host, fmt, args) + [Int(Signed(|b| + 1))], |b|)
  {
    var b := StrPack(host, fmt, args).value;
    var data: GoString := b + rest;
    var piece, take, carry := Packs(host, args), Takes(host, data), Carries(host, args);
    forall p, pos, k ensures Inverted(piece, take, carry, data, p, pos, k) {
      if Piece(host, p, pos, args, k).Some? && Holds(data, pos, Piece(host, p, pos, args, k).value) {
        PieceBack(host, p, args, k, data, pos, Piece(host, p, pos, args, k).value);
      }
    }
    UnpackPacked(piece, take, carry, Directives(host, fmt), 0, 0, data, b);
  }

  /** Whatever string.unpack reads, string.pack accepts, takes as it is, and stores in as many bytes. */
  lemma {:induction false} Repack(host: Host, fmt: string, data: GoString, vals: seq<Value>, end: nat)
    requires StrUnpack(host, fmt, data, 1) == Values(vals, end) && (NoSingles(Directives(host, fmt)) || Faithful(host))
    ensures |vals| > 0 && StrPack(host, fmt, vals[..|vals| - 1]).Some?
            && |StrPack(host, fmt, vals[..|vals| - 1]).value| == end
    ensures Arguments(host, fmt, vals[..|vals| - 1]) == vals[..|vals| - 1]
  {
    var args := vals[..|vals| - 1];
    var ps := Directives(host, fmt);
    var piece, take, carry := Packs(host, args), Takes(host, data), Carries(host, args);
    forall p, pos, k | p in ps ensures Repeated(piece, take, carry, args, p, pos, k) {
      var r := Take(host, p, data, pos);
      if r.Got? && From(args, k, r.vals) { PieceAgain(host, p, args, k, data, pos); }
    }
    PackUnpacked(piece, take, carry, ps, 0, args, 0, args, end);
  }

  lemma {:induction false} PiecesMeasured(host: Host, args: seq<Value>)
    ensures forall p, total, k :: Measured(Packs(host, args), p, total, k)
  {
    forall p, total, k ensures Measured(Packs(host, args), p, total, k) {
      if Piece(host, p, total, args, k).Some? && !Variable(p) { PieceSize(host, p, total, args, k); }
    }
  }

  /** string.packsize, on what string.pack accepts. */
  lemma {:induction false} PackSizeExact(host: Host, fmt: string, args: seq<Value>)
    requires StrPack(host, fmt, args).Some?
    ensures var n := |StrPack(host, fmt, args).value|;
            StrPackSize(host, fmt) == if AnyVariable(Directives(host, fmt)) || n > MAX_SIZE then None else Some(n)
  {
    PackedSize(host, args, Directives(host, fmt), StrPack(host, fmt, args).value);
  }

  lemma {:induction false} PackedSize(host: Host, args: seq<Value>, ps: seq<Directive>, b: Bytes)
    requires Packed(Packs(host, args), ps, 0, 0) == Some(b)
    ensures Size(ps, 0) == if AnyVariable(ps) || |b| > MAX_SIZE then None else Some(|b|)
  {
    PiecesMeasured(host, args);
    SizeExact(Packs(host, args), ps, 0, 0, b);
  }

  /** An argument that is of the option's own type, and of its size for c, is taken as it is. */
  lemma {:induction false} TakenAsGiven(host: Host, kind: Kind, size: nat, a: Value)
    requires SizeOk(kind, size) && Consumes(kind) && Taken(host, kind, size, a).Some?
    requires match kind
             case KInt => a.Int?
             case KUint => a.Int?
             case KFloat => a.Flt? && host.widen(host.narrow(a.bits)) == a.bits
             case KNumber => a.Flt?
             case KDouble => a.Flt?
             case KChar => a.Str? && |a.s| == size
             case _ => a.Str?
    ensures Taken(host, kind, size, a) == Some(a)
  {
    if kind.KChar? { assert a.s + Zeros(0) == a.s; }
  }

  /** Characters are filled up with zeros to their size, and a zero-terminated string has one zero, its
      last byte. */
  lemma {:induction false} WrittenText(host: Host, little: bool, kind: Kind, size: nat, a: Value)
    requires SizeOk(kind, size) && Consumes(kind) && Taken(host, kind, size, a).Some?
    ensures kind.KChar? || kind.KZstr? ==> CheckString(host, a).Some?
    ensures kind.KChar? ==> var b, s := Written(host, little, kind, size, a), CheckString(host, a).value;
                            |b| == size && |s| <= size && b[..|s|] == s && forall k :: |s| <= k < size ==> b[k] == 0
    ensures kind.KZstr? ==> var b, s := Written(host, little, kind, size, a), CheckString(host, a).value;
                            b[..|b| - 1] == s && b[|b| - 1] == 0 && forall k :: 0 <= k < |s| ==> b[k] != 0
  {
  }

  /** What the bytes of a packed number are worth, in the byte order of the option: the integer modulo
      its size, the bits of the float, and the length of a string before its text. */
  lemma {:induction false} WrittenWorth(host: Host, little: bool, kind: Kind, size: nat, a: Value)
    requires SizeOk(kind, size) && Consumes(kind) && Taken(host, kind, size, a).Some?
    ensures var b := Written(host, little, kind, size, a);
            && (kind.KInt? ==> |b| == size && Worth(b, little) == CheckInt(host, a).value % Pow(size))
            && (kind.KUint? ==> |b| == size && Worth(b, little) == Unsigned(CheckInt(host, a).value))
            && (kind.KFloat? ==> |b| == 4 && Worth(b, little) == host.narrow(CheckNumber(host, a).value))
            && (kind.KNumber? || kind.KDouble? ==> |b| == 8 && Worth(b, little) == CheckNumber(host, a).value)
            && (kind.KString? ==> b[size..] == CheckString(host, a).value && Worth(b[..size], little) == |b[size..]|)
  {
    match kind
    case KInt => IntWorth(CheckInt(host, a).value, size, true, little);
    case KUint => IntWorth(CheckInt(host, a).value, size, false, little);
    case KFloat =>
      PowSmall();
      DigitsWorth(host.narrow(CheckNumber(host, a).value), 4, little);
    case KNumber => LongWorth(CheckNumber(host, a).value, little);
    case KDouble => LongWorth(CheckNumber(host, a).value, little);
    case KString => LengthWorth(CheckString(host, a).value, size, little);
    case _ =>
  }

  lemma {:induction false} LongWorth(w: Word64, little: bool)
    ensures Worth(Ordered(Digits(w, 8), little), little) == w
  {
    PowSmall();
    DigitsWorth(w, 8, little);
  }

  lemma {:induction false} DigitsWorth(n: nat, size: nat, little: bool)
    requires n < Pow(size)
    ensures Worth(Ordered(Digits(n, size), little), little) == n
  {
    OrderedWorth(Digits(n, size), little);
    NumberOfDigits(n, size);
  }

  lemma {:induction false} IntWorth(n: Integer, size: nat, signed: bool, little: bool)
    requires 1 <= size && Fits(n, size, signed)
    ensures Worth(IntBytes(n, size, signed, little), little) == if signed then n % Pow(size) else Unsigned(n)
  {
    OrderedWorth(Word(n, size, signed), little);
    PowOf(size);
    StoredModulo(if signed then n else Unsigned(n), size);
    if !signed { Residue(Unsigned(n), Pow(size), 0, Unsigned(n)); }
  }

  lemma {:induction false} LengthWorth(s: GoString, size: nat, little: bool)
    requires 1 <= size && Fits(|s|, size, false)
    ensures var b := IntBytes(|s|, size, false, little) + s;
            b[size..] == s && Worth(b[..size], little) == |s|
  {
    var p := IntBytes(|s|, size, false, little);
    assert (p + s)[..size] == p && (p + s)[size..] == s;
    IntWorth(|s|, size, false, little);
  }

  /** An integer is read exactly if the bytes stand for one, and is then that. */
  lemma {:induction false} ReadWorth(host: Host, little: bool, kind: Kind, size: nat, data: GoString, pos: nat)
    requires SizeOk(kind, size) && pos + size <= |data| && (kind.KInt? || kind.KUint?)
    ensures var u, r := Worth(data[pos..pos + size], little), ReadItem(host, little, kind, size, data, pos);
            forall n: Integer :: r == Got([Int(n)], pos + size) <==> StandsFor(n, u, size, kind.KInt?)
  {
    UnpackedStands(data[pos..pos + size], little, kind.KInt?);
  }

  /** The bits of a float are what its bytes are worth. */
  lemma {:induction false} FloatWorth(host: Host, little: bool, kind: Kind, size: nat, data: GoString, pos: nat)
    requires SizeOk(kind, size) && pos + size <= |data| && (kind.KFloat? || kind.KNumber? || kind.KDouble?)
    ensures var u, r := Worth(data[pos..pos + size], little), ReadItem(host, little, kind, size, data, pos);
            && (kind.KFloat? ==> u < 0x1_0000_0000 && r == Got([Flt(host.widen(u))], pos + 4))
            && (!kind.KFloat? ==> u < TWO64 && r == Got([Flt(u)], pos + 8))
  {
    PowSmall();
    OrderedWorth(data[pos..pos + size], little);
  }

  /** In two bytes, little-endian and big-endian. */
  lemma {:induction false} OrderExample(host: Host)
    ensures StrPack(host, "<I2", [Int(1)]) == Some([1, 0]) && StrPack(host, ">I2", [Int(1)]) == Some([0, 1])
  {
    OrderExampleOf(host, '<', [1, 0]);
    OrderExampleOf(host, '>', [0, 1]);
  }

  lemma {:induction false} OrderExampleOf(host: Host, c: char, b: Bytes)
    requires (c == '<' && b == [1, 0]) || (c == '>' && b == [0, 1])
    ensures StrPack(host, [c, 'I', '2'], [Int(1)]) == Some(b)
  {
    var fmt, args, h := [c, 'I', '2'], [Int(1)], Header(c == '<', 1);
    assert Decimal("2") == 2 by { assert "2"[..0] == ""; }
    assert Num(fmt, 2, 4) == (2, 3) by { assert fmt[2..3] == "2"; }
    var p, q := Item(KNop, 0, 0, h, 1), Item(KUint, 2, 2, h, 3);
    assert Parse(host.native, Start(host), fmt, 0) == p && Parse(host.native, h, fmt, 1) == q;
    assert Script(host.native, h, fmt, 1) == [q] + Script(host.native, h, fmt, 3);
    var ps := Directives(host, fmt);
    assert ps == [p, q];
    ExamplePieces(host, p, q, c == '<', b);
    PackedTwo(Packs(host, args), p, q, b);
  }

  lemma {:induction false} PackedTwo(piece: Packing, p: Directive, q: Directive, b: Bytes)
    requires piece(p, 0, 0) == Some([]) && piece(q, 0, 0) == Some(b) && p.Item? && p.kind.KNop?
    ensures Packed(piece, [p, q], 0, 0) == Some(b)
  {
    assert [p, q][1..] == [q] && [q][1..] == [] && b + [] == b && [] + b == b;
    assert Packed(piece, [], |b|, Following(q, 0)) == Some([]);
    assert Packed(piece, [q], 0, 0) == Some(b);
  }

  lemma {:induction false} ExamplePieces(host: Host, p: Directive, q: Directive, little: bool, b: Bytes)
    requires p == Item(KNop, 0, 0, Header(little, 1), 1) && q == Item(KUint, 2, 2, Header(little, 1), 3)
    requires b == if little then [1, 0] else [0, 1]
    ensures Piece(host, p, 0, [Int(1)], 0) == Some([]) && Piece(host, q, 0, [Int(1)], 0) == Some(b)
  {
    TwoBytes(little, b);
    assert Zeros(0) == [] && Padding(p, 0) == Some(0) && Padding(q, 0) == Some(0);
    assert Zeros(0) + ItemBytes(host, p, [Int(1)], 0) == [] && Zeros(0) + ItemBytes(host, q, [Int(1)], 0) == b;
  }

  lemma {:induction false} TwoBytes(little: bool, b: Bytes)
    requires b == if little then [1, 0] else [0, 1]
    ensures Fits(1, 2, false) && IntBytes(1, 2, false, little) == b
  {
    PowSmall();
    assert Digits(1, 2) == [1, 0] by { assert Digits(0, 1) == [0]; }
    assert Word(1, 2, false) == [1, 0];
  }

  /** A length-prefixed string is read if and only if it is all there; a length that is negative as
      a signed integer is not caught. */
  lemma {:induction false} StringExact(host: Host, little: bool, size: nat, data: GoString, pos: nat)
    requires SizeOk(KString, size) && pos + size <= |data|
    ensures var n, r := Number(Ordered(data[pos..pos + size], little)),
                        ReadItem(host, little, KString, size, data, pos);
            && (r.Got? <==> n <= |data| - pos - size)
            && (r.Crashes? <==> MAX_INT < n < TWO64)
  {
  }

  /** Where the option at index j begins to read, if all before it can be read. */
  function Reached(take: Taking, ps: seq<Directive>, pos: nat, j: nat): Option<nat>
    requires j <= |ps|
    decreases j
  {
    if j == 0 then Some(pos)
    else
      match take(ps[0], pos)
      case Got(_, end) => Reached(take, ps[1..], end, j - 1)
      case Fails => None
      case Crashes => None
  }

  predicate CrashesAt(take: Taking, ps: seq<Directive>, pos: nat, j: nat) {
    j < |ps| && Reached(take, ps, pos, j).Some? && take(ps[j], Reached(take, ps, pos, j).value).Crashes?
  }

  lemma {:induction false} UnpackedCrashes(take: Taking, ps: seq<Directive>, pos: nat)
    ensures Unpacked(take, ps, pos) == Crashed <==> exists j: nat :: CrashesAt(take, ps, pos, j)
    decreases |ps|
  {
    if ps != [] {
      var r := take(ps[0], pos);
      if r.Got? { UnpackedCrashes(take, ps[1..], r.end); }
      if Unpacked(take, ps, pos) == Crashed {
        if r.Got? {
          var j: nat :| CrashesAt(take, ps[1..], r.end, j);
          assert CrashesAt(take, ps, pos, j + 1);
        } else {
          assert CrashesAt(take, ps, pos, 0);
        }
      }
      if j: nat :| CrashesAt(take, ps, pos, j) {
        if j > 0 { assert CrashesAt(take, ps[1..], r.end, j - 1); }
      }
    }
  }

  /** The option is a length-prefixed string, its length is there, and negative as a signed integer. */
  predicate HugeLength(p: Directive, data: GoString, pos: nat) {
    && p.Item? && p.kind.KString? && Padding(p, pos).Some?
    && var at := pos + Padding(p, pos).value;
    at + p.size <= |data| && MAX_INT < Number(Ordered(data[at..at + p.size], p.h.little)) < TWO64
  }

  lemma {:induction false} TakeCrashes(host: Host, p: Directive, data: GoString, pos: nat)
    ensures Take(host, p, data, pos).Crashes? <==> HugeLength(p, data, pos)
  {
    if p.Item? && Padding(p, pos).Some? && pos + Padding(p, pos).value + p.size <= |data| {
      var at := pos + Padding(p, pos).value;
      if p.kind.KString? { StringExact(host, p.h.little, p.size, data, at); } else { NoCrash(host, p, data, at); }
    }
  }

  lemma {:induction false} NoCrash(host: Host, p: Directive, data: GoString, pos: nat)
    requires p.Item? && !p.kind.KString? && pos + p.size <= |data|
    ensures !ReadItem(host, p.h.little, p.kind, p.size, data, pos).Crashes?
  {
  }

  /** string.unpack panics if and only if, after options that can be read, it comes to such a length. */
  lemma {:induction false} CrashExact(host: Host, fmt: string, data: GoString, init: Integer)
    ensures var ps, take, pos := Directives(host, fmt), Takes(host, data), StartPos(init, |data|);
            StrUnpack(host, fmt, data, init) == Crashed <==>
              pos <= |data| && exists j: nat ::
                j < |ps| && Reached(take, ps, pos, j).Some? && HugeLength(ps[j], data, Reached(take, ps, pos, j).value)
  {
    var ps, take, pos := Directives(host, fmt), Takes(host, data), StartPos(init, |data|);
    UnpackedCrashes(take, ps, pos);
    forall j: nat ensures CrashesAt(take, ps, pos, j) <==>
        j < |ps| && Reached(take, ps, pos, j).Some? && HugeLength(ps[j], data, Reached(take, ps, pos, j).value) {
      if j < |ps| && Reached(take, ps, pos, j).Some? {
        TakeCrashes(host, ps[j], data, Reached(take, ps, pos, j).value);
      }
    }
  }

  /** Eight bytes 0xFF are such a length. */
  lemma {:induction false} CrashExample(host: Host)
    ensures StrUnpack(host, "s8", seq(8, _ => 255), 1) == Crashed
  {
    var data: GoString := seq(8, _ => 255);
    var ps := Directives(host, "s8");
    assert Decimal("8") == 8 by { assert "8"[..0] == ""; }
    assert Num("s8", 1, 8) == (8, 2) by { assert "s8"[1..2] == "8"; }
    assert ps == [Item(KString, 8, 8, Header(host.native, 1), 2)];
    assert data[0..8] == data;
    AllOf(Ordered(data, host.native), 0xFF);
    PowSmall();
    assert HugeLength(ps[0], data, 0);
    TakeCrashes(host, ps[0], data, 0);
  }

  lemma {:induction false} ShortLength(p: Directive, data: GoString, pos: nat)
    requires p.Item? && p.kind.KString? ==> p.size < SZINT
    ensures !HugeLength(p, data, pos)
  {
    if p.Item? && p.kind.KString? { PowOf(p.size); }
  }

  /** Formats whose string lengths have fewer than eight bytes never get there. */
  lemma {:induction false} NeverCrashes(host: Host, fmt: string, data: GoString, init: Integer)
    requires forall p :: p in Directives(host, fmt) && p.Item? && p.kind.KString? ==> p.size < SZINT
    ensures StrUnpack(host, fmt, data, init) != Crashed
  {
    CrashExact(host, fmt, data, init);
    forall p, at | p in Directives(host, fmt) ensures !HugeLength(p, data, at) { ShortLength(p, data, at); }
  }
}
