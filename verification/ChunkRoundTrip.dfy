/** Printing a prototype and reading it back. */
module ChunkRoundTrip {
  import opened ByteStrings
  import opened Words
  import opened Chunk
  import opened Dump
  import opened Grammar
  import opened Undump

  /** The printed chunk, or as much of it as there is room for. */
  method Print(p: Proto, strip: bool, room: nat) returns (written: bool, out: Bytes)
    requires Sized(p)
    ensures written <==> |ChunkBytes(p, strip)| <= room
    ensures written ==> out == ChunkBytes(p, strip)
  {
    var d := new DumpWriter(room);
    d.DumpProto(p, strip);
    FedFresh(room, ChunkBytes(p, strip));
    return !d.err, d.out;
  }

  lemma NothingAfter(b: Bytes)
    ensures b + [] == b
  {
  }

  /** Within the limits of the format, every prototype that the destination has room for comes back,
      and comes back unchanged exactly when it was not stripped and every source is named. */
  method RoundTrip(p: Proto, strip: bool, room: nat) returns (written: bool, res: Result)
    requires Fits(p, strip, MAX_DEPTH) && Sized(p) && |p.upvalues| <= 255
    ensures written <==> |ChunkBytes(p, strip)| <= room
    ensures written ==> res == Ok(Loaded(p, strip))
    ensures written && !strip ==> (res == Ok(p) <==> AllSourced(p))
  {
    var out;
    written, out := Print(p, strip, room);
    NothingAfter(ChunkBytes(p, strip));
    ChunkRead(p, strip, []);
    res := Load(out);
    LoadedSame(p);
  }

  /** Whatever bytes a reader accepts, the prototype is one that can be printed and read back: stripped
      always, whole unless it has negative lines, and then as it is. */
  method Reload(input: Bytes, strip: bool, room: nat) returns (first: Result, again: Result)
    ensures first.Ok? ==> Accepted(first.p, MAX_DEPTH) && |first.p.upvalues| <= 255
    ensures first.Ok? && (strip || PlainLines(first.p)) && |ChunkBytes(first.p, strip)| <= room ==>
              again == if strip then Ok(Loaded(first.p, true)) else first
  {
    first := Load(input);
    again := first;
    if first.Ok? && (strip || PlainLines(first.p)) {
      AcceptedFits(first.p, strip, MAX_DEPTH);
      if !strip { LoadedSame(first.p); }
      var written;
      written, again := RoundTrip(first.p, strip, room);
    }
  }
}
