/**
 strPack, strUnpack and strPacksize as loops over the format, against what they are to compute.
 */
module PackLib {
  import opened Options
  import opened ByteStrings
  import opened Words
  import opened Binary
  import opened PackFormat
  import opened Pack

  method AddZeros(buf: Bytes, n: nat) returns (r: Bytes)
    ensures r == buf + Zeros(n)
  {
    r := buf;
    for k := 0 to n
      invariant r == buf + Zeros(k)
    {
      assert Zeros(k + 1) == Zeros(k) + [0];
      r := r + [0];
    }
  }

  method IndexZero(s: Bytes, pos: nat) returns (e: nat)
    requires pos <= |s|
    ensures e == ZeroFrom(s, pos)
  {
    e := pos;
    while e < |s| && s[e] != 0
      invariant pos <= e <= |s| && ZeroFrom(s, e) == ZeroFrom(s, pos)
    {
      e := e + 1;
    }
  }

  // ---------------------------------------------------------------------------------------------
  // Packing

  /** Signed integers. */
  method AddInt(host: Host, little: bool, size: nat, a: Value, buf: Bytes) returns (ok: bool, r: Bytes)
    requires SizeOk(KInt, size)
    ensures ok == Taken(host, KInt, size, a).Some?
    ensures ok ==> r == buf + Written(host, little, KInt, size, a)
  {
    var c := CheckInt(host, a);
    if c.None? {
      return false, buf;
    }
    var n: int := c.value;
    if size < SZINT {
      var lim: int := Pow(size);
      if !(-lim <= 2 * n < lim) {
        return false, buf;
      }
    }
    ok := true;
    r := PackInt(buf, Unsigned(n), little, size, n < 0, n);
  }

  /** Unsigned integers. */
  method AddUint(host: Host, little: bool, size: nat, a: Value, buf: Bytes) returns (ok: bool, r: Bytes)
    requires SizeOk(KUint, size)
    ensures ok == Taken(host, KUint, size, a).Some?
    ensures ok ==> r == buf + Written(host, little, KUint, size, a)
  {
    var c := CheckInt(host, a);
    if c.None? {
      return false, buf;
    }
    var n := Unsigned(c.value);
    if size < SZINT && n >= Pow(size) {
      return false, buf;
    }
    ok := true;
    r := PackInt(buf, n, little, size, false, n);
  }

  method AddFloat(host: Host, little: bool, kind: Kind, size: nat, a: Value, buf: Bytes) returns (ok: bool, r: Bytes)
    requires kind.KFloat? || kind.KNumber? || kind.KDouble?
    requires SizeOk(kind, size)
    ensures ok == Taken(host, kind, size, a).Some?
    ensures ok ==> r == buf + Written(host, little, kind, size, a)
  {
    r := buf;
    var c := CheckNumber(host, a);
    if c.None? {
      return false, r;
    }
    var bits: int := if kind.KFloat? then host.narrow(c.value) else c.value;
    r := PackInt(buf, bits, little, size, false, bits);
    ok := true;
  }

  /** `more` is what the item is longer than its size. */
  method AddString(host: Host, little: bool, kind: Kind, size: nat, a: Value, buf: Bytes)
    returns (ok: bool, r: Bytes, more: nat)
    requires kind.KChar? || kind.KString? || kind.KZstr?
    requires SizeOk(kind, size)
    ensures ok == Taken(host, kind, size, a).Some?
    ensures ok ==> r == buf + Written(host, little, kind, size, a) && |r| == |buf| + size + more
  {
    ok, r, more := false, buf, 0;
    var c := CheckString(host, a);
    if c.None? {
      return;
    }
    var s := c.value;
    match kind {
      case KChar =>
        if |s| > size {
          return;
        }
        r := AddZeros(buf + s, size - |s|);
        assert r == buf + (s + Zeros(size - |s|));
      case KString =>
        PowOf(size);
        if size < SZINT && |s| >= Pow(size) {
          return;
        }
        r := PackInt(buf, |s|, little, size, false, |s|);
        assert r == buf + IntBytes(|s|, size, false, little);
        assert r + s == buf + (IntBytes(|s|, size, false, little) + s);
        r, more := r + s, |s|;
      case KZstr =>
        var e := IndexZero(s, 0);
        if e < |s| {
          return;
        }
        assert buf + s + [0] == buf + (s + [0]);
        r, more := buf + s + [0], |s| + 1;
    }
    ok := true;
  }

  /** The item of an option that takes an argument. */
  method AddItem(host: Host, little: bool, kind: Kind, size: nat, a: Value, buf: Bytes)
    returns (ok: bool, r: Bytes, more: nat)
    requires Consumes(kind) && SizeOk(kind, size)
    ensures ok == Taken(host, kind, size, a).Some?
    ensures ok ==> r == buf + Written(host, little, kind, size, a) && |r| == |buf| + size + more
  {
    more := 0;
    if kind.KInt? {
      ok, r := AddInt(host, little, size, a, buf);
    } else if kind.KUint? {
      ok, r := AddUint(host, little, size, a, buf);
    } else if kind.KFloat? || kind.KNumber? || kind.KDouble? {
      ok, r := AddFloat(host, little, kind, size, a, buf);
    } else {
      ok, r, more := AddString(host, little, kind, size, a, buf);
    }
  }

  /** An option with its padding. */
  method AddOption(host: Host, little: bool, kind: Kind, size: nat, ntoalign: nat, args: seq<Value>, arg: nat,
                   buf: Bytes, ghost p: Directive)
    returns (ok: bool, r: Bytes, more: nat, k: nat)
    requires p.Item? && p.h.little == little && p.kind == kind && p.size == size && Padding(p, |buf|) == Some(ntoalign)
    ensures ok == Piece(host, p, |buf|, args, arg).Some?
    ensures ok ==>
            r == buf + Piece(host, p, |buf|, args, arg).value && |r| == |buf| + ntoalign + size + more
            && k == Following(p, arg)
  {
    r := AddZeros(buf, ntoalign);
    ghost var z := r;
    ok, more, k := true, 0, arg + 1;
    if Consumes(kind) {
      ok, r, more := AddItem(host, little, kind, size, Arg(args, k - 1), r);
    } else {
      if kind.KPadding? {
        r := r + [0];
      }
      k := k - 1;
      assert r == z + Zeros(size);
    }
    if ok { assert r == buf + (Zeros(ntoalign) + ItemBytes(host, p, args, arg)); }
  }

  /** The options from an index on, for the format string at hand. */
  type Scripting = (Header, nat) -> seq<Directive>

  function Scripts(native: bool, fmt: string): Scripting {
    (h: Header, i: nat) => if HeaderOk(h) then Script(native, h, fmt, i) else []
  }

  ghost predicate Scripted(script: Scripting, native: bool, fmt: string) {
    forall h: Header, i: nat {:trigger Script(native, h, fmt, i)} :: HeaderOk(h) ==>
        script(h, i) == Script(native, h, fmt, i)
  }

  /** The option at i is p. */
  ghost predicate StartsWith(script: Scripting, h: Header, i: nat, p: Directive) {
    var ps := script(h, i);
    ps != [] && ps[0] == p && (p.Item? ==> HeaderOk(p.h) && p.next > i && ps[1..] == script(p.h, p.next))
  }

  /** The result, with what is packed so far. */
  function Left(piece: Packing, script: Scripting, h: Header, i: nat, total: nat, k: nat, buf: Bytes): Option<Bytes> {
    Joined(buf, Packed(piece, script(h, i), total, k))
  }

  ghost predicate Represents(piece: Packing, host: Host, args: seq<Value>) {
    forall p, total, k {:trigger Piece(host, p, total, args, k)} :: piece(p, total, k) == Piece(host, p, total, args, k)
  }

  /** One option of strPack. */
  method PackOption(hd: PackHeader, host: Host, fmt: string, i: nat, args: seq<Value>, arg: nat, buf: Bytes,
                    totalsize: nat, ghost piece: Packing, ghost script: Scripting)
    returns (ok: bool, r: Bytes, total: nat, k: nat, next: nat, ghost p: Directive)
    requires i < |fmt| && HeaderOk(hd.Now()) && totalsize == |buf|
    requires Represents(piece, host, args) && Scripted(script, host.native, fmt)
    modifies hd
    ensures StartsWith(script, old(hd.Now()), i, p)
    ensures var b := piece(p, totalsize, arg);
            && ok == b.Some?
            && (ok ==>
                p.Item? && r == buf + b.value && total == |r| && k == Following(p, arg) && next == p.next
                && hd.Now() == p.h)
  {
    r, total, k := buf, totalsize, arg;
    p := Details(host.native, hd.Now(), fmt, i);
    ScriptStep(host.native, hd.Now(), fmt, i, script);
    var kind, size, ntoalign;
    ok, kind, size, ntoalign, next := hd.GetDetails(host.native, totalsize, fmt, i);
    if !ok {
      assert Piece(host, p, totalsize, args, arg) == None;
      return;
    }
    total := total + ntoalign + size;
    var more;
    ok, r, more, k := AddOption(host, hd.little, kind, size, ntoalign, args, arg, buf, p);
    total := total + more;
  }

  /** One option of strPack leaves the result as it is. */
  method PackStep(hd: PackHeader, host: Host, fmt: string, i: nat, args: seq<Value>, arg: nat, buf: Bytes,
                  totalsize: nat, ghost piece: Packing, ghost script: Scripting)
    returns (ok: bool, r: Bytes, total: nat, k: nat, next: nat)
    requires i < |fmt| && HeaderOk(hd.Now()) && totalsize == |buf|
    requires Represents(piece, host, args) && Scripted(script, host.native, fmt)
    modifies hd
    ensures var left := Left(piece, script, old(hd.Now()), i, totalsize, arg, buf);
            if ok then HeaderOk(hd.Now()) && total == |r| && next > i
              && Left(piece, script, hd.Now(), next, total, k, r) == left
            else left == None
  {
    ghost var h := hd.Now();
    ghost var p;
    ok, r, total, k, next, p := PackOption(hd, host, fmt, i, args, arg, buf, totalsize, piece, script);
    LeftStep(piece, script, h, i, totalsize, arg, buf, p, piece(p, totalsize, arg));
  }

  /** strPack */
  method PackString(host: Host, fmt: string, args: seq<Value>) returns (r: Option<Bytes>)
    ensures r == StrPack(host, fmt, args)
  {
    var hd := new PackHeader(host.native);
    r := PackAll(hd, host, fmt, args, Packs(host, args), Scripts(host.native, fmt));
  }

  method PackAll(hd: PackHeader, host: Host, fmt: string, args: seq<Value>, ghost piece: Packing,
                 ghost script: Scripting) returns (r: Option<Bytes>)
    requires HeaderOk(hd.Now()) && Represents(piece, host, args) && Scripted(script, host.native, fmt)
    modifies hd
    ensures r == Packed(piece, script(old(hd.Now()), 0), 0, 0)
  {
    var buf: Bytes := [];
    var i: nat, arg: nat, totalsize: nat := 0, 0, 0;
    ghost var h := hd.Now();
    LeftFirst(piece, script, h);
    while i < |fmt|
      invariant HeaderOk(hd.Now()) && totalsize == |buf|
      invariant Left(piece, script, hd.Now(), i, totalsize, arg, buf) == Left(piece, script, h, 0, 0, 0, [])
      decreases |fmt| - i
    {
      var ok;
      ok, buf, totalsize, arg, i := PackStep(hd, host, fmt, i, args, arg, buf, totalsize, piece, script);
      if !ok {
        return None;
      }
    }
    ScriptEnd(host.native, hd.Now(), fmt, i, script);
    LeftLast(piece, script, hd.Now(), i, totalsize, arg, buf);
    return Some(buf);
  }

  lemma {:induction false} ScriptEnd(native: bool, h: Header, fmt: string, i: nat, script: Scripting)
    requires HeaderOk(h) && i >= |fmt| && Scripted(script, native, fmt)
    ensures script(h, i) == []
  {
    assert Script(native, h, fmt, i) == [];
  }

  lemma {:induction false} ScriptStep(native: bool, h: Header, fmt: string, i: nat, script: Scripting)
    requires HeaderOk(h) && i < |fmt| && Scripted(script, native, fmt)
    ensures StartsWith(script, h, i, Details(native, h, fmt, i))
  {
    var p := Details(native, h, fmt, i);
    assert script(h, i) == Script(native, h, fmt, i);
    if p.Item? { assert script(p.h, p.next) == Script(native, p.h, fmt, p.next); }
  }

  lemma {:induction false} LeftStep(piece: Packing, script: Scripting, h: Header, i: nat, total: nat, k: nat,
                                    buf: Bytes, p: Directive, b: Option<Bytes>)
    requires StartsWith(script, h, i, p) && piece(p, total, k) == b && (b.Some? ==> p.Item?)
    ensures Left(piece, script, h, i, total, k, buf)
            == if b.None? then None
               else Left(piece, script, p.h, p.next, total + |b.value|, Following(p, k), buf + b.value)
  {
    if b.Some? {
      var rest := Packed(piece, script(p.h, p.next), total + |b.value|, Following(p, k));
      if rest.Some? { assert buf + (b.value + rest.value) == buf + b.value + rest.value; }
    }
  }

  lemma {:induction false} LeftFirst(piece: Packing, script: Scripting, h: Header)
    ensures Left(piece, script, h, 0, 0, 0, []) == Packed(piece, script(h, 0), 0, 0)
  {
    var r := Packed(piece, script(h, 0), 0, 0);
    if r.Some? { assert [] + r.value == r.value; }
  }

  lemma {:induction false} LeftLast(piece: Packing, script: Scripting, h: Header, i: nat, total: nat, k: nat,
                                    buf: Bytes)
    requires script(h, i) == []
    ensures Left(piece, script, h, i, total, k, buf) == Some(buf)
  {
    assert buf + [] == buf;
  }

  // ---------------------------------------------------------------------------------------------
  // Unpacking

  method ReadString(host: Host, little: bool, size: nat, data: GoString, pos: nat) returns (r: Read)
    requires SizeOk(KString, size) && pos + size <= |data|
    ensures r == ReadItem(host, little, KString, size, data, pos)
  {
    var n := UnpackInt(data[pos..pos + size], little, size, false);
    if n.None? || n.value > |data| - pos - size {
      return Fails;
    }
    if n.value < 0 {
      return Crashes;
    }
    return Got([Str(data[pos + size..pos + size + n.value])], pos + size + n.value);
  }

  method ReadFloat(host: Host, little: bool, kind: Kind, size: nat, data: GoString, pos: nat) returns (r: Read)
    requires kind.KFloat? || kind.KNumber? || kind.KDouble?
    requires SizeOk(kind, size) && pos + size <= |data|
    ensures r == ReadItem(host, little, kind, size, data, pos)
  {
    var b := data[pos..pos + size];
    var bits := ReadUint(b, little, size);
    PowSmall();
    assert Ordered(b, little)[..size] == Ordered(b, little);
    return Got([Flt(if kind.KFloat? then host.widen(bits) else bits)], pos + size);
  }

  method ReadItemAt(host: Host, little: bool, kind: Kind, size: nat, data: GoString, pos: nat) returns (r: Read)
    requires SizeOk(kind, size) && pos + size <= |data|
    ensures r == ReadItem(host, little, kind, size, data, pos)
  {
    var b := data[pos..pos + size];
    if kind.KInt? || kind.KUint? {
      var n := UnpackInt(b, little, size, kind.KInt?);
      return if n.None? then Fails else Got([Int(n.value)], pos + size);
    } else if kind.KFloat? || kind.KNumber? || kind.KDouble? {
      r := ReadFloat(host, little, kind, size, data, pos);
    } else if kind.KChar? {
      return Got([Str(b)], pos + size);
    } else if kind.KString? {
      r := ReadString(host, little, size, data, pos);
    } else if kind.KZstr? {
      var e := IndexZero(data, pos);
      return if e == |data| then Fails else Got([Str(data[pos..e])], e + 1);
    } else {
      return Got([], pos + size);
    }
  }

  /** The outcome, with the results so far. */
  function Ahead(take: Taking, script: Scripting, h: Header, i: nat, pos: nat, vals: seq<Value>): Outcome {
    Prefixed(vals, Unpacked(take, script(h, i), pos))
  }

  /** One option of strUnpack. */
  method UnpackOption(hd: PackHeader, host: Host, fmt: string, i: nat, data: GoString, pos: nat, ghost take: Taking,
                      ghost script: Scripting)
    returns (r: Read, next: nat, ghost p: Directive)
    requires i < |fmt| && HeaderOk(hd.Now()) && pos <= |data|
    requires Reads(take, host, data) && Scripted(script, host.native, fmt)
    modifies hd
    ensures StartsWith(script, old(hd.Now()), i, p)
    ensures r == take(p, pos) && (r.Got? ==> p.Item? && r.end <= |data| && next == p.next && hd.Now() == p.h)
  {
    p := Details(host.native, hd.Now(), fmt, i);
    ScriptStep(host.native, hd.Now(), fmt, i, script);
    assert take(p, pos) == Take(host, p, data, pos);
    var ok, kind, size, ntoalign;
    ok, kind, size, ntoalign, next := hd.GetDetails(host.native, pos, fmt, i);
    if !ok || ntoalign + size > |data| - pos {
      return Fails, next, p;
    }
    r := ReadItemAt(host, hd.little, kind, size, data, pos + ntoalign);
  }

  /** One option of strUnpack leaves the outcome as it is. */
  method UnpackStep(hd: PackHeader, host: Host, fmt: string, i: nat, data: GoString, pos: nat, vals: seq<Value>,
                    ghost take: Taking, ghost script: Scripting)
    returns (r: Read, next: nat)
    requires i < |fmt| && HeaderOk(hd.Now()) && pos <= |data|
    requires Reads(take, host, data) && Scripted(script, host.native, fmt)
    modifies hd
    ensures r.Got? ==> HeaderOk(hd.Now()) && next > i && r.end <= |data|
    ensures Ahead(take, script, old(hd.Now()), i, pos, vals) == Onward(take, script, hd.Now(), next, vals, r)
  {
    ghost var h := hd.Now();
    ghost var p;
    r, next, p := UnpackOption(hd, host, fmt, i, data, pos, take, script);
    AheadStep(take, script, h, i, pos, vals, p, r);
  }

  ghost predicate Reads(take: Taking, host: Host, data: GoString) {
    forall p, pos {:trigger Take(host, p, data, pos)} :: take(p, pos) == Take(host, p, data, pos)
  }

  /** The outcome after one more option. */
  function Onward(take: Taking, script: Scripting, h: Header, next: nat, vals: seq<Value>, r: Read): Outcome {
    match r
    case Got(vals', pos') => Ahead(take, script, h, next, pos', vals + vals')
    case Fails => Raised
    case Crashes => Crashed
  }

  /** strUnpack, for an initial position */
  method UnpackString(host: Host, fmt: string, data: GoString, init: Integer) returns (r: Outcome)
    ensures r == StrUnpack(host, fmt, data, init)
  {
    var pos := StartPos(init, |data|);
    if pos > |data| {
      return Raised;
    }
    var hd := new PackHeader(host.native);
    r := UnpackAll(hd, host, fmt, data, pos, Takes(host, data), Scripts(host.native, fmt));
    if r.Values? {
      r := Values(r.vals + [Int(Signed(r.end + 1))], r.end);
    }
  }

  method UnpackAll(hd: PackHeader, host: Host, fmt: string, data: GoString, start: nat, ghost take: Taking,
                   ghost script: Scripting) returns (r: Outcome)
    requires HeaderOk(hd.Now()) && start <= |data| && Reads(take, host, data) && Scripted(script, host.native, fmt)
    modifies hd
    ensures r == Unpacked(take, script(old(hd.Now()), 0), start)
  {
    var vals: seq<Value> := [];
    var i: nat, pos: nat := 0, start;
    ghost var h := hd.Now();
    AheadFirst(take, script, h, start);
    while i < |fmt|
      invariant HeaderOk(hd.Now()) && pos <= |data|
      invariant Ahead(take, script, hd.Now(), i, pos, vals) == Ahead(take, script, h, 0, start, [])
      decreases |fmt| - i
    {
      var item;
      item, i := UnpackStep(hd, host, fmt, i, data, pos, vals, take, script);
      match item {
        case Got(vals', pos') => vals, pos := vals + vals', pos';
        case Fails => return Raised;
        case Crashes => return Crashed;
      }
    }
    ScriptEnd(host.native, hd.Now(), fmt, i, script);
    AheadLast(take, script, hd.Now(), i, pos, vals);
    return Values(vals, pos);
  }

  lemma {:induction false} AheadStep(take: Taking, script: Scripting, h: Header, i: nat, pos: nat, vals: seq<Value>,
                                     p: Directive, r: Read)
    requires StartsWith(script, h, i, p) && take(p, pos) == r && (r.Got? ==> p.Item?)
    ensures Ahead(take, script, h, i, pos, vals) ==
            if p.Item? then Onward(take, script, p.h, p.next, vals, r)
            else Onward(take, script, h, i, vals, r)
  {
    if r.Got? {
      var rest := Unpacked(take, script(p.h, p.next), r.end);
      if rest.Values? { assert vals + (r.vals + rest.vals) == vals + r.vals + rest.vals; }
    }
  }

  lemma {:induction false} AheadFirst(take: Taking, script: Scripting, h: Header, pos: nat)
    ensures Ahead(take, script, h, 0, pos, []) == Unpacked(take, script(h, 0), pos)
  {
    var r := Unpacked(take, script(h, 0), pos);
    if r.Values? { assert [] + r.vals == r.vals; }
  }

  lemma {:induction false} AheadLast(take: Taking, script: Scripting, h: Header, i: nat, pos: nat, vals: seq<Value>)
    requires script(h, i) == []
    ensures Ahead(take, script, h, i, pos, vals) == Values(vals, pos)
  {
    assert vals + [] == vals;
  }

  // ---------------------------------------------------------------------------------------------
  // Sizes

  /** strPacksize */
  method PackSize(host: Host, fmt: string) returns (r: Option<nat>)
    ensures r == StrPackSize(host, fmt)
  {
    var hd := new PackHeader(host.native);
    r := SizeAll(hd, host, fmt, Scripts(host.native, fmt));
  }

  method SizeAll(hd: PackHeader, host: Host, fmt: string, ghost script: Scripting) returns (r: Option<nat>)
    requires HeaderOk(hd.Now()) && Scripted(script, host.native, fmt)
    modifies hd
    ensures r == Size(script(old(hd.Now()), 0), 0)
  {
    var total: nat, i: nat := 0, 0;
    ghost var h := hd.Now();
    while i < |fmt|
      invariant HeaderOk(hd.Now()) && Size(script(hd.Now(), i), total) == Size(script(h, 0), 0)
      decreases |fmt| - i
    {
      var ok;
      ok, total, i := SizeStep(hd, host, fmt, i, total, script);
      if !ok {
        return None;
      }
    }
    ScriptEnd(host.native, hd.Now(), fmt, i, script);
    return Some(total);
  }

  method SizeStep(hd: PackHeader, host: Host, fmt: string, i: nat, total: nat, ghost script: Scripting)
    returns (ok: bool, total': nat, next: nat)
    requires i < |fmt| && HeaderOk(hd.Now()) && Scripted(script, host.native, fmt)
    modifies hd
    ensures var was := Size(script(old(hd.Now()), i), total);
            if ok then HeaderOk(hd.Now()) && next > i && Size(script(hd.Now(), next), total') == was else was == None
  {
    ScriptStep(host.native, hd.Now(), fmt, i, script);
    ok, total', next := SizeOption(hd, host, fmt, i, total);
  }

  method SizeOption(hd: PackHeader, host: Host, fmt: string, i: nat, total: nat)
    returns (ok: bool, total': nat, next: nat)
    requires i < |fmt| && HeaderOk(hd.Now())
    modifies hd
    ensures var p := Details(host.native, old(hd.Now()), fmt, i); var t := Grown(p, total);
            ok == t.Some? && (ok ==> total' == t.value && next == p.next && hd.Now() == p.h)
  {
    total' := total;
    var kind, size, ntoalign;
    ok, kind, size, ntoalign, next := hd.GetDetails(host.native, total, fmt, i);
    if !ok {
      return;
    }
    size := size + ntoalign;
    ok := !(kind.KString? || kind.KZstr?) && total <= MAX_SIZE - size;
    total' := total + size;
  }
}
