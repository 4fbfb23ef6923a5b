/** The protobuf wire-format dumper of packet.go (`decodeProto`): it walks a
    buffer field by field, writing one indented text line per field into an
    output buffer, and for a length-delimited field first tries to read the
    payload as an embedded message, rolling the output back and printing the
    raw bytes when that fails.

    The text lines are kept abstract: the output buffer holds pieces (one
    per `WriteString("  ")` or per formatted line), so truncating it to an
    earlier length is taking a prefix of the pieces. */
module ProtoDump {
  import opened Common

  /** `proto.DecodeVarint` (protowire's ConsumeVarint underneath): up to ten
      base-128 groups, least significant first; the tenth byte may only be 0
      or 1. Truncated or over-long input yields None (Go's n == 0). */
  function DecodeVarint(b: seq<Byte>): (r: Option<(nat, nat)>)
    ensures r.Some? ==> 1 <= r.value.1 <= |b| && r.value.1 <= 10 && r.value.0 < TwoTo64
  {
    VarintGroups(b, 0)
  }

  const TwoTo63: nat := 0x8000_0000_0000_0000
  const TwoTo64: nat := 0x1_0000_0000_0000_0000

  /** The bound on the value carried by groups k..9. */
  function GroupCap(k: nat): (c: nat)
    requires k <= 9
    ensures c > 0
    decreases 9 - k
  {
    if k == 9 then 2 else 128 * GroupCap(k + 1)
  }

  lemma GroupCapZero()
    ensures GroupCap(0) == TwoTo64
  {
    assert GroupCap(9) == 0x2;
    assert GroupCap(8) == 0x100;
    assert GroupCap(7) == 0x8000;
    assert GroupCap(6) == 0x40_0000;
    assert GroupCap(5) == 0x2000_0000;
    assert GroupCap(4) == 0x10_0000_0000;
    assert GroupCap(3) == 0x800_0000_0000;
    assert GroupCap(2) == 0x4_0000_0000_0000;
    assert GroupCap(1) == 0x200_0000_0000_0000;
  }

  /** Groups k.. of a varint: the value they carry and how many bytes they take. */
  function VarintGroups(b: seq<Byte>, k: nat): (r: Option<(nat, nat)>)
    requires k <= 9
    ensures r.Some? ==> 1 <= r.value.1 <= |b| && r.value.1 <= 10 - k && r.value.0 < GroupCap(k)
    decreases 9 - k
  {
    if b == [] then None
    else if k == 9 then (if b[0] < 2 then Some((b[0], 1)) else None)
    else if b[0] < 128 then Some((b[0], 1))
    else match VarintGroups(b[1..], k + 1)
      case None => None
      case Some((v, n)) => Some((b[0] - 128 + 128 * v, n + 1))
  }

  /** `binary.LittleEndian.Uint32` / `Uint64` on exactly the bytes given. */
  function LittleEndian(b: seq<Byte>): nat
  {
    if b == [] then 0 else b[0] + 256 * LittleEndian(b[1..])
  }

  /** Wire types of the protobuf encoding. */
  const WireVarint: nat := 0
  const WireFixed64: nat := 1
  const WireBytes: nat := 2
  const WireStartGroup: nat := 3
  const WireEndGroup: nat := 4
  const WireFixed32: nat := 5

  /** What `decodeProto` writes: the two-space indentation unit, and one
      piece per formatted line ("tag=%d struct", "tag=%d bytes=%q",
      "tag=%d fix32=%d", "tag=%d fix64=%d", "tag=%d varint=%d",
      "tag=%d start", "tag=%d end", "tag=%d unknown wire=%d"). */
  datatype Piece =
    | Indent
    | StructLine(tag: nat)
    | BytesLine(tag: nat, bytes: seq<Byte>)
    | Fix32Line(tag: nat, value: nat)
    | Fix64Line(tag: nat, value: nat)
    | VarintLine(tag: nat, value: nat)
    | StartLine(tag: nat)
    | EndLine(tag: nat)
    | UnknownWireLine(tag: nat, wire: nat)

  /** How a call ends: nil, `io.ErrUnexpectedEOF`, or a runtime panic (a
      slice with a negative bound). */
  datatype Outcome = Done | UnexpectedEof | Panic

  /** The code as written, or as evidently intended: a fixed64 field that
      consumes its eight bytes, and a declared length of 2^63 or more that
      is reported as too long instead of slicing with a negative bound. */
  datatype Variant = AsWritten | Intended

  /** `for i := 0; i < depth; i++ { out.WriteString("  ") }`. */
  function Indentation(depth: int): (p: seq<Piece>)
    ensures |p| == if depth > 0 then depth else 0
    ensures forall i :: 0 <= i < |p| ==> p[i] == Indent
    decreases depth
  {
    if depth <= 0 then [] else Indentation(depth - 1) + [Indent]
  }

  /** The output of one call and how it ends. */
  datatype Dumped = Dumped(pieces: seq<Piece>, outcome: Outcome)

  /** One turn of the loop on a non-empty buffer: what it writes after the
      indentation, and either the buffer and depth it continues with or how
      the call ends. */
  datatype Step =
    | Continue(pieces: seq<Piece>, rest: seq<Byte>, depth: int)
    | Stop(pieces: seq<Piece>, outcome: Outcome)

  /** What `decodeProto` appends to `out` in one call: for each field its
      indentation and what the loop body writes for it. */
  function Dump(buf: seq<Byte>, depth: int, v: Variant): (r: Dumped)
    ensures r.outcome == Done ==> (r.pieces == [] <==> buf == [])
    decreases |buf|, 2
  {
    if buf == [] then Dumped([], Done)
    else match Turn(buf, depth, v)
      case Stop(p, o) => Dumped(Indentation(depth) + p, o)
      case Continue(p, rest, d) =>
        var tail := Dump(rest, d, v);
        Dumped(Indentation(depth) + p + tail.pieces, tail.outcome)
  }

  /** The loop body after the indentation: the key, then the value its wire
      type announces. */
  function Turn(buf: seq<Byte>, depth: int, v: Variant): (r: Step)
    requires buf != []
    ensures r.Continue? ==> |r.rest| < |buf| && r.pieces != []
    ensures r.Stop? ==> r.outcome != Done
    decreases |buf|, 1
  {
    match DecodeVarint(buf)
    case None => Stop([], UnexpectedEof)
    case Some((op, n)) =>
      if op % 8 == WireBytes then BytesTurn(op / 8, buf[n..], depth, v)
      else ScalarTurn(op / 8, op % 8, buf[n..], depth, v)
  }

  /** A length-delimited value: its length, then its payload. */
  function BytesTurn(tag: nat, b: seq<Byte>, depth: int, v: Variant): (r: Step)
    ensures r.Continue? ==> |r.rest| < |b| && r.pieces != [] && r.depth == depth
    ensures r.Stop? ==> r.outcome != Done
    decreases |b|, 0
  {
    match DecodeVarint(b)
    case None => Stop([], UnexpectedEof)
    case Some((l, m)) =>
      var p := b[m..];
      if l >= TwoTo63 then
        (if v == AsWritten then Stop([StructLine(tag)], Panic) else Stop([], UnexpectedEof))
      else if |p| < l then Stop([], UnexpectedEof)
      else PayloadTurn(tag, p[..l], p[l..], depth, v)
  }

  /** A payload that is present in full. It is first dumped as an embedded
      message one level deeper; when that fails without a panic, the output
      is rolled back and the raw bytes are written instead; decoding goes
      on with `rest` either way. */
  function PayloadTurn(tag: nat, payload: seq<Byte>, rest: seq<Byte>, depth: int, v: Variant): (r: Step)
    ensures r.Continue? ==> r.rest == rest && r.depth == depth && r.pieces != []
    ensures r.Stop? ==> r.outcome == Panic
    decreases |payload|, 3
  {
    var inner := Dump(payload, depth + 1, v);
    if inner.outcome == Panic then Stop([StructLine(tag)] + inner.pieces, Panic)
    else if inner.outcome == Done then Continue([StructLine(tag)] + inner.pieces, rest, depth)
    else Continue([BytesLine(tag, payload)], rest, depth)
  }

  /** The bytes a fixed64 field consumes. */
  function Fixed64Advance(v: Variant): nat
  {
    if v == AsWritten then 4 else 8
  }

  /** Any other value: a fixed-size number, a varint, a group marker, or an
      unknown wire type, which ends the call. */
  function ScalarTurn(tag: nat, wire: nat, b: seq<Byte>, depth: int, v: Variant): (r: Step)
    requires wire != WireBytes
    ensures r.Continue? ==> |r.rest| <= |b| && |r.pieces| == 1
    ensures r.Continue? && wire != WireStartGroup && wire != WireEndGroup ==> r.depth == depth
    ensures r.Stop? ==> r.outcome == UnexpectedEof
  {
    if wire == WireFixed32 then
      if |b| < 4 then Stop([], UnexpectedEof)
      else Continue([Fix32Line(tag, LittleEndian(b[..4]))], b[4..], depth)
    else if wire == WireFixed64 then
      if |b| < 8 then Stop([], UnexpectedEof)
      else Continue([Fix64Line(tag, LittleEndian(b[..8]))], b[Fixed64Advance(v)..], depth)
    else if wire == WireVarint then
      match DecodeVarint(b)
      case None => Stop([], UnexpectedEof)
      case Some((u, k)) => Continue([VarintLine(tag, u)], b[k..], depth)
    else if wire == WireStartGroup then Continue([StartLine(tag)], b, depth + 1)
    else if wire == WireEndGroup then Continue([EndLine(tag)], b, depth - 1)
    else Stop([UnknownWireLine(tag, wire)], UnexpectedEof)
  }

  /** The `bytes.Buffer` the dump is written into. */
  class TextBuffer {
    var pieces: seq<Piece>

    constructor ()
      ensures pieces == []
    {
      pieces := [];
    }

    method Write(p: Piece)
      modifies this
      ensures pieces == old(pieces) + [p]
    {
      pieces := pieces + [p];
    }

    method Len() returns (n: nat)
      ensures n == |pieces|
    {
      n := |pieces|;
    }

    /** `Truncate(n)`: keep the first n pieces. */
    method Truncate(n: nat)
      requires n <= |pieces|
      modifies this
      ensures pieces == old(pieces)[..n]
    {
      pieces := pieces[..n];
    }
  }

  /** `decodeProto(out, buf, depth)` as written: appends exactly `Dump`'s
      pieces to `out` and ends as `Dump` says. */
  method DecodeProto(out: TextBuffer, buf0: seq<Byte>, depth0: int) returns (outcome: Outcome)
    modifies out
    ensures out.pieces == old(out.pieces) + Dump(buf0, depth0, AsWritten).pieces
    ensures outcome == Dump(buf0, depth0, AsWritten).outcome
    decreases |buf0|, 2
  {
    var buf, depth := buf0, depth0;
    ghost var start := out.pieces;
    ghost var done: seq<Piece> := [];
    ghost var target := Dump(buf0, depth0, AsWritten);
    DumpedAfterNothing(buf0, depth0);
    while true
      invariant out.pieces == start + done
      invariant DumpedAfter(target, done, buf, depth)
      decreases |buf|
    {
      if |buf| == 0 {
        DumpedAfterEnd(target, done, depth);
        return Done;
      }
      var stop, rest, nextDepth;
      stop, rest, nextDepth, done := DumpTurnInto(out, buf, depth, target, start, done);
      if stop.Some? {
        return stop.value;
      }
      buf, depth := rest, nextDepth;
    }
  }

  /** One turn of the loop: the indentation, then one field. */
  method DumpTurnInto(out: TextBuffer, buf: seq<Byte>, depth: int,
                      ghost target: Dumped, ghost start: seq<Piece>, ghost done: seq<Piece>)
    returns (stop: Option<Outcome>, rest: seq<Byte>, nextDepth: int, ghost done': seq<Piece>)
    requires buf != []
    requires out.pieces == start + done
    requires DumpedAfter(target, done, buf, depth)
    modifies out
    ensures out.pieces == start + done'
    ensures stop.Some? ==> target == Dumped(done', stop.value)
    ensures stop.None? ==> |rest| < |buf| && DumpedAfter(target, done', rest, nextDepth)
    decreases |buf|, 1
  {
    WriteIndentation(out, depth);
    ghost var mark := out.pieces;
    stop, rest, nextDepth := DecodeField(out, buf, depth);
    ghost var written := out.pieces[|mark|..];
    PrefixSplit(mark, out.pieces);
    DumpedAfterTurn(target, done, buf, depth, written, stop, rest, nextDepth);
    done' := done + Indentation(depth) + written;
  }

  /** `done` was written towards the dump `target` before the loop reached
      `buf` at `depth`: what remains to be written is what `buf` dumps to. */
  ghost predicate DumpedAfter(target: Dumped, done: seq<Piece>, buf: seq<Byte>, depth: int)
  {
    target == Dumped(done + Dump(buf, depth, AsWritten).pieces, Dump(buf, depth, AsWritten).outcome)
  }

  /** One turn of the loop (or the part of it after the key) wrote `written`
      and ended or went on as `step` says. */
  ghost predicate StepWrote(step: Step, written: seq<Piece>, stop: Option<Outcome>, rest: seq<Byte>, nextDepth: int)
  {
    written == step.pieces && (step.Stop? <==> stop.Some?) &&
    (stop.Some? ==> stop.value == step.outcome) &&
    (stop.None? ==> rest == step.rest && nextDepth == step.depth)
  }

  ghost predicate TurnWrote(buf: seq<Byte>, depth: int, written: seq<Piece>, stop: Option<Outcome>, rest: seq<Byte>, nextDepth: int)
    requires buf != []
  {
    StepWrote(Turn(buf, depth, AsWritten), written, stop, rest, nextDepth)
  }

  lemma DumpedAfterNothing(buf0: seq<Byte>, depth0: int)
    ensures DumpedAfter(Dump(buf0, depth0, AsWritten), [], buf0, depth0)
  {
    assert [] + Dump(buf0, depth0, AsWritten).pieces == Dump(buf0, depth0, AsWritten).pieces;
  }

  lemma DumpedAfterEnd(target: Dumped, done: seq<Piece>, depth: int)
    requires DumpedAfter(target, done, [], depth)
    ensures target == Dumped(done, Done)
  {
    assert done + [] == done;
  }

  lemma DumpedAfterTurn(target: Dumped, done: seq<Piece>, buf: seq<Byte>, depth: int,
                        written: seq<Piece>, stop: Option<Outcome>, rest: seq<Byte>, nextDepth: int)
    requires buf != []
    requires DumpedAfter(target, done, buf, depth)
    requires TurnWrote(buf, depth, written, stop, rest, nextDepth)
    ensures stop.Some? ==> target == Dumped(done + Indentation(depth) + written, stop.value)
    ensures stop.None? ==> |rest| < |buf| && DumpedAfter(target, done + Indentation(depth) + written, rest, nextDepth)
  {
    if stop.Some? {
      DumpedAfterStop(target, done, buf, depth);
    } else {
      DumpedAfterContinue(target, done, buf, depth);
    }
  }

  lemma DumpedAfterStop(target: Dumped, done: seq<Piece>, buf: seq<Byte>, depth: int)
    requires buf != [] && Turn(buf, depth, AsWritten).Stop?
    requires DumpedAfter(target, done, buf, depth)
    ensures target == Dumped(done + Indentation(depth) + Turn(buf, depth, AsWritten).pieces, Turn(buf, depth, AsWritten).outcome)
  {
    var step := Turn(buf, depth, AsWritten);
    assert done + (Indentation(depth) + step.pieces) == done + Indentation(depth) + step.pieces;
  }

  lemma DumpedAfterContinue(target: Dumped, done: seq<Piece>, buf: seq<Byte>, depth: int)
    requires buf != [] && Turn(buf, depth, AsWritten).Continue?
    requires DumpedAfter(target, done, buf, depth)
    ensures DumpedAfter(target, done + Indentation(depth) + Turn(buf, depth, AsWritten).pieces,
                        Turn(buf, depth, AsWritten).rest, Turn(buf, depth, AsWritten).depth)
  {
    var step := Turn(buf, depth, AsWritten);
    var tail := Dump(step.rest, step.depth, AsWritten);
    assert done + (Indentation(depth) + step.pieces + tail.pieces) == done + Indentation(depth) + step.pieces + tail.pieces;
  }

  lemma PrefixSplit(a: seq<Piece>, b: seq<Piece>)
    requires |a| <= |b| && b[..|a|] == a
    ensures b == a + b[|a|..]
  {
  }

  /** The indentation loop at the head of each turn: two spaces per level. */
  method WriteIndentation(out: TextBuffer, depth: int)
    modifies out
    ensures out.pieces == old(out.pieces) + Indentation(depth)
  {
    var i := 0;
    while i < depth
      invariant 0 <= i <= if depth > 0 then depth else 0
      invariant out.pieces == old(out.pieces) + Indentation(i)
    {
      out.Write(Indent);
      i := i + 1;
    }
  }

  /** The loop body of `decodeProto` after the indentation: reads the key and
      the value, writes its line, and answers how the loop goes on (None:
      with `rest` at `nextDepth`) or how the call ends. */
  method DecodeField(out: TextBuffer, buf: seq<Byte>, depth: int)
    returns (stop: Option<Outcome>, rest: seq<Byte>, nextDepth: int)
    requires buf != []
    modifies out
    ensures |out.pieces| >= |old(out.pieces)| && out.pieces[..|old(out.pieces)|] == old(out.pieces)
    ensures TurnWrote(buf, depth, out.pieces[|old(out.pieces)|..], stop, rest, nextDepth)
    decreases |buf|, 0
  {
    var decoded := DecodeVarint(buf);
    if decoded.None? {
      return Some(UnexpectedEof), buf, depth;
    }
    var op, n := decoded.value.0, decoded.value.1;
    if op % 8 == WireBytes {
      stop, rest, nextDepth := DecodeBytesField(out, op / 8, buf[n..], depth);
    } else {
      stop, rest, nextDepth := DecodeScalarField(out, op / 8, op % 8, buf[n..], depth);
    }
  }

  /** The `proto.WireBytes` case of the loop body. */
  method DecodeBytesField(out: TextBuffer, tag: nat, b: seq<Byte>, depth: int)
    returns (stop: Option<Outcome>, rest: seq<Byte>, nextDepth: int)
    modifies out
    ensures |out.pieces| >= |old(out.pieces)| && out.pieces[..|old(out.pieces)|] == old(out.pieces)
    ensures StepWrote(BytesTurn(tag, b, depth, AsWritten), out.pieces[|old(out.pieces)|..], stop, rest, nextDepth)
    decreases |b|, 0
  {
    rest, nextDepth := b, depth;
    var length := DecodeVarint(rest);
    if length.None? {
      return Some(UnexpectedEof), rest, nextDepth;
    }
    var l, m := length.value.0, length.value.1;
    rest := rest[m..];
    if l < TwoTo63 && |rest| < l {
      return Some(UnexpectedEof), rest, nextDepth;
    }
    var outLen := out.Len();
    out.Write(StructLine(tag));
    if l >= TwoTo63 {
      // buf[0:int(l)] with int(l) < 0
      return Some(Panic), rest, nextDepth;
    }
    var err := DecodeProto(out, rest[..l], depth + 1);
    if err == Panic {
      return Some(Panic), rest, nextDepth;
    }
    if err != Done {
      out.Truncate(outLen);
      out.Write(BytesLine(tag, rest[..l]));
    }
    rest := rest[l..];
    stop := None;
  }

  /** The other cases of the loop body's switch on the wire type. */
  method DecodeScalarField(out: TextBuffer, tag: nat, wire: nat, b: seq<Byte>, depth: int)
    returns (stop: Option<Outcome>, rest: seq<Byte>, nextDepth: int)
    requires wire != WireBytes
    modifies out
    ensures |out.pieces| >= |old(out.pieces)| && out.pieces[..|old(out.pieces)|] == old(out.pieces)
    ensures StepWrote(ScalarTurn(tag, wire, b, depth, AsWritten), out.pieces[|old(out.pieces)|..], stop, rest, nextDepth)
  {
    rest, nextDepth := b, depth;
    if wire == WireFixed32 {
      if |rest| < 4 {
        return Some(UnexpectedEof), rest, nextDepth;
      }
      var u := LittleEndian(rest[..4]);
      rest := rest[4..];
      out.Write(Fix32Line(tag, u));
    } else if wire == WireFixed64 {
      if |rest| < 8 {
        return Some(UnexpectedEof), rest, nextDepth;
      }
      var u := LittleEndian(rest[..8]);
      rest := rest[4..];
      out.Write(Fix64Line(tag, u));
    } else if wire == WireVarint {
      var value := DecodeVarint(rest);
      if value.None? {
        return Some(UnexpectedEof), rest, nextDepth;
      }
      rest := rest[value.value.1..];
      out.Write(VarintLine(tag, value.value.0));
    } else if wire == WireStartGroup {
      out.Write(StartLine(tag));
      nextDepth := depth + 1;
    } else if wire == WireEndGroup {
      out.Write(EndLine(tag));
      nextDepth := depth - 1;
    } else {
      out.Write(UnknownWireLine(tag, wire));
      return Some(UnexpectedEof), rest, nextDepth;
    }
    stop := None;
  }

  // ---------------------------------------------------------------------
  // Encodings, and what the dump makes of them

  /** The base-128 varint a protobuf encoder writes: seven bits per byte,
      least significant first, the high bit set on every byte but the last. */
  function EncodeVarint(x: nat): (r: seq<Byte>)
    ensures |r| >= 1
  {
    if x < 128 then [x] else [x % 128 + 128] + EncodeVarint(x / 128)
  }

  lemma {:induction false} VarintGroupsOfEncoding(x: nat, k: nat, rest: seq<Byte>)
    requires k <= 9 && x < GroupCap(k)
    ensures VarintGroups(EncodeVarint(x) + rest, k) == Some((x, |EncodeVarint(x)|))
    decreases 9 - k
  {
    var b := EncodeVarint(x) + rest;
    if x >= 128 {
      assert k < 9;
      var c := GroupCap(k + 1);
      assert x < 128 * c;
      assert x / 128 < c;
      VarintGroupsOfEncoding(x / 128, k + 1, rest);
      assert b[0] == x % 128 + 128 && b[1..] == EncodeVarint(x / 128) + rest;
      assert x % 128 + 128 * (x / 128) == x;
    }
  }

  /** Decoding a varint reads back exactly the value encoded, and exactly
      its bytes, whatever follows them. */
  lemma VarintRoundTrip(x: nat, rest: seq<Byte>)
    requires x < TwoTo64
    ensures DecodeVarint(EncodeVarint(x) + rest) == Some((x, |EncodeVarint(x)|))
  {
    GroupCapZero();
    VarintGroupsOfEncoding(x, 0, rest);
  }

  function Pow256(n: nat): (p: nat)
    ensures p > 0
  {
    if n == 0 then 1 else 256 * Pow256(n - 1)
  }

  /** The n-byte little-endian encoding of x (x mod 256^n). */
  function LittleEndianBytes(x: nat, n: nat): (r: seq<Byte>)
    ensures |r| == n
  {
    if n == 0 then [] else [x % 256] + LittleEndianBytes(x / 256, n - 1)
  }

  /** `binary.LittleEndian` reads back an n-byte value written in n bytes. */
  lemma {:induction false} LittleEndianRoundTrip(x: nat, n: nat)
    requires x < Pow256(n)
    ensures LittleEndian(LittleEndianBytes(x, n)) == x
  {
    if n > 0 {
      assert x / 256 < Pow256(n - 1);
      LittleEndianRoundTrip(x / 256, n - 1);
      assert LittleEndianBytes(x, n)[1..] == LittleEndianBytes(x / 256, n - 1);
    }
  }

  /** One field of a message as an encoder writes it; group markers are
      the fields that open and close a group. */
  datatype WireField =
    | VarintField(tag: nat, value: nat)
    | Fixed32Field(tag: nat, value: nat)
    | Fixed64Field(tag: nat, value: nat)
    | BytesField(tag: nat, payload: seq<Byte>)
    | GroupStart(tag: nat)
    | GroupEnd(tag: nat)

  /** Tags whose key (tag << 3 | wire) fits in 64 bits. */
  const TagLimit: nat := 0x2000_0000_0000_0000

  /** Values that fit their wire type; payloads shorter than 2^63 bytes,
      as every Go slice is. */
  predicate WellFormed(f: WireField)
  {
    f.tag < TagLimit &&
    match f
    case VarintField(_, x) => x < TwoTo64
    case Fixed32Field(_, x) => x < 0x1_0000_0000
    case Fixed64Field(_, x) => x < TwoTo64
    case BytesField(_, p) => |p| < TwoTo63
    case _ => true
  }

  function WireOf(f: WireField): (w: nat)
    ensures w < 8 && w != 6 && w != 7
  {
    match f
    case VarintField(_, _) => WireVarint
    case Fixed32Field(_, _) => WireFixed32
    case Fixed64Field(_, _) => WireFixed64
    case BytesField(_, _) => WireBytes
    case GroupStart(_) => WireStartGroup
    case GroupEnd(_) => WireEndGroup
  }

  /** The field's key, then its value. */
  function EncodeField(f: WireField): (r: seq<Byte>)
    ensures |r| >= 1
  {
    EncodeVarint(f.tag * 8 + WireOf(f)) +
    match f
    case VarintField(_, x) => EncodeVarint(x)
    case Fixed32Field(_, x) => LittleEndianBytes(x, 4)
    case Fixed64Field(_, x) => LittleEndianBytes(x, 8)
    case BytesField(_, p) => EncodeVarint(|p|) + p
    case _ => []
  }

  function EncodeMessage(fs: seq<WireField>): seq<Byte>
  {
    if fs == [] then [] else EncodeField(fs[0]) + EncodeMessage(fs[1..])
  }

  /** What the loop body makes of an encoded field followed by `rest`. */
  function FieldTurn(f: WireField, rest: seq<Byte>, depth: int, v: Variant): Step
  {
    match f
    case VarintField(tag, x) => Continue([VarintLine(tag, x)], rest, depth)
    case Fixed32Field(tag, x) => Continue([Fix32Line(tag, x)], rest, depth)
    case Fixed64Field(tag, x) => Continue([Fix64Line(tag, x)], rest, depth)
    case BytesField(tag, p) => PayloadTurn(tag, p, rest, depth, v)
    case GroupStart(tag) => Continue([StartLine(tag)], rest, depth + 1)
    case GroupEnd(tag) => Continue([EndLine(tag)], rest, depth - 1)
  }

  /** The dump of the field goes on after it: the code as written misreads
      every fixed64 field, and an embedded payload must not panic. */
  predicate FieldSafe(f: WireField, depth: int, v: Variant)
  {
    (f.Fixed64Field? ==> v == Intended) &&
    (f.BytesField? ==> Dump(f.payload, depth + 1, v).outcome != Panic)
  }

  lemma Pow256Values()
    ensures Pow256(4) == 0x1_0000_0000 && Pow256(8) == TwoTo64
  {
    assert Pow256(2) == 0x1_0000;
    assert Pow256(4) == 0x1_0000_0000;
    assert Pow256(6) == 0x1_0000_0000_0000;
  }

  /** The key of a field splits into its tag and its wire type. */
  lemma TurnAfterKey(tag: nat, wire: nat, tail: seq<Byte>, depth: int, v: Variant)
    requires tag < TagLimit && wire < 8
    ensures Turn(EncodeVarint(tag * 8 + wire) + tail, depth, v) ==
      if wire == WireBytes then BytesTurn(tag, tail, depth, v) else ScalarTurn(tag, wire, tail, depth, v)
  {
    var key := tag * 8 + wire;
    VarintRoundTrip(key, tail);
    assert (EncodeVarint(key) + tail)[|EncodeVarint(key)|..] == tail;
    assert key / 8 == tag && key % 8 == wire;
  }

  lemma ScalarOnValue(f: WireField, rest: seq<Byte>, depth: int, v: Variant)
    requires WellFormed(f) && !f.BytesField? && (f.Fixed64Field? ==> v == Intended)
    ensures ScalarTurn(f.tag, WireOf(f), EncodeField(f)[|EncodeVarint(f.tag * 8 + WireOf(f))|..] + rest, depth, v)
            == FieldTurn(f, rest, depth, v)
  {
    var value := EncodeField(f)[|EncodeVarint(f.tag * 8 + WireOf(f))|..];
    Pow256Values();
    match f
    case VarintField(tag, x) =>
      assert value == EncodeVarint(x);
      VarintRoundTrip(x, rest);
    case Fixed32Field(tag, x) =>
      assert value == LittleEndianBytes(x, 4);
      LittleEndianRoundTrip(x, 4);
      assert (value + rest)[..4] == value && (value + rest)[4..] == rest;
    case Fixed64Field(tag, x) =>
      assert value == LittleEndianBytes(x, 8);
      LittleEndianRoundTrip(x, 8);
      assert (value + rest)[..8] == value && (value + rest)[8..] == rest;
    case GroupStart(tag) =>
      assert value + rest == rest;
    case GroupEnd(tag) =>
      assert value + rest == rest;
  }

  lemma BytesOnValue(tag: nat, p: seq<Byte>, rest: seq<Byte>, depth: int, v: Variant)
    requires |p| < TwoTo63
    ensures BytesTurn(tag, EncodeVarint(|p|) + p + rest, depth, v) == PayloadTurn(tag, p, rest, depth, v)
  {
    assert EncodeVarint(|p|) + p + rest == EncodeVarint(|p|) + (p + rest);
    VarintRoundTrip(|p|, p + rest);
    assert (EncodeVarint(|p|) + (p + rest))[|EncodeVarint(|p|)|..] == p + rest;
    assert (p + rest)[..|p|] == p && (p + rest)[|p|..] == rest;
  }

  /** The loop body consumes exactly one encoded field: the key splits into
      tag and wire type, the value is read back, and decoding goes on with
      what follows the field. */
  lemma TurnOnField(f: WireField, rest: seq<Byte>, depth: int, v: Variant)
    requires WellFormed(f) && (f.Fixed64Field? ==> v == Intended)
    ensures Turn(EncodeField(f) + rest, depth, v) == FieldTurn(f, rest, depth, v)
  {
    var key := EncodeVarint(f.tag * 8 + WireOf(f));
    var value := EncodeField(f)[|key|..];
    assert EncodeField(f) == key + value;
    assert EncodeField(f) + rest == key + (value + rest);
    TurnAfterKey(f.tag, WireOf(f), value + rest, depth, v);
    if f.BytesField? {
      assert value == EncodeVarint(|f.payload|) + f.payload;
      BytesOnValue(f.tag, f.payload, rest, depth, v);
    } else {
      ScalarOnValue(f, rest, depth, v);
    }
  }

  /** The depth the loop goes on at after the field. */
  function FieldDepth(f: WireField, depth: int): int
  {
    match f
    case GroupStart(_) => depth + 1
    case GroupEnd(_) => depth - 1
    case _ => depth
  }

  /** The pieces the loop body writes for the field. */
  function FieldPieces(f: WireField, depth: int, v: Variant): seq<Piece>
  {
    FieldTurn(f, [], depth, v).pieces
  }

  /** Every field is well formed and the dump goes on after it, each at the
      depth the group markers before it lead to. */
  predicate MessageSafe(fs: seq<WireField>, depth: int, v: Variant)
  {
    fs == [] ||
    (WellFormed(fs[0]) && FieldSafe(fs[0], depth, v) && MessageSafe(fs[1..], FieldDepth(fs[0], depth), v))
  }

  /** One line per field, each after the indentation of its depth. */
  function MessagePieces(fs: seq<WireField>, depth: int, v: Variant): seq<Piece>
  {
    if fs == [] then []
    else Indentation(depth) + FieldPieces(fs[0], depth, v) + MessagePieces(fs[1..], FieldDepth(fs[0], depth), v)
  }

  /** The dump of an encoded message lists its fields in order, one line
      each (an embedded message's own lines, or the raw payload), and ends
      without error. */
  lemma {:induction false} DumpOfMessage(fs: seq<WireField>, depth: int, v: Variant)
    requires MessageSafe(fs, depth, v)
    ensures Dump(EncodeMessage(fs), depth, v) == Dumped(MessagePieces(fs, depth, v), Done)
  {
    if fs != [] {
      var f, rest := fs[0], EncodeMessage(fs[1..]);
      TurnOnField(f, rest, depth, v);
      var step := FieldTurn(f, rest, depth, v);
      assert step == Continue(FieldPieces(f, depth, v), rest, FieldDepth(f, depth));
      DumpOfMessage(fs[1..], FieldDepth(f, depth), v);
      assert Indentation(depth) + step.pieces + MessagePieces(fs[1..], FieldDepth(f, depth), v)
          == MessagePieces(fs, depth, v);
    }
  }

  /** With the fix, no input makes the dump panic. */
  lemma {:induction false} IntendedNeverPanics(buf: seq<Byte>, depth: int)
    ensures Dump(buf, depth, Intended).outcome != Panic
    decreases |buf|, 2
  {
    if buf != [] {
      IntendedTurnNeverPanics(buf, depth);
      var step := Turn(buf, depth, Intended);
      if step.Continue? {
        IntendedNeverPanics(step.rest, step.depth);
      }
    }
  }

  lemma {:induction false} IntendedTurnNeverPanics(buf: seq<Byte>, depth: int)
    requires buf != []
    ensures Turn(buf, depth, Intended).Stop? ==> Turn(buf, depth, Intended).outcome != Panic
    decreases |buf|, 1
  {
    match DecodeVarint(buf)
    case None =>
    case Some((op, n)) =>
      if op % 8 == WireBytes {
        IntendedBytesNeverPanics(op / 8, buf[n..], depth);
      }
  }

  lemma {:induction false} IntendedBytesNeverPanics(tag: nat, b: seq<Byte>, depth: int)
    ensures BytesTurn(tag, b, depth, Intended).Stop? ==> BytesTurn(tag, b, depth, Intended).outcome != Panic
    decreases |b|, 0
  {
    match DecodeVarint(b)
    case None =>
    case Some((l, m)) =>
      var p := b[m..];
      if l < TwoTo63 && l <= |p| {
        IntendedNeverPanics(p[..l], depth + 1);
      }
  }

  /** With the fix, every well-formed message can be dumped: fixed64 fields
      included, its dump is the one DumpOfMessage describes. */
  lemma {:induction false} IntendedMessageSafe(fs: seq<WireField>, depth: int)
    requires forall f :: f in fs ==> WellFormed(f)
    ensures MessageSafe(fs, depth, Intended)
  {
    if fs != [] {
      if fs[0].BytesField? {
        IntendedNeverPanics(fs[0].payload, depth + 1);
      }
      assert forall f :: f in fs[1..] ==> f in fs;
      IntendedMessageSafe(fs[1..], FieldDepth(fs[0], depth));
    }
  }

  lemma {:induction false} LittleEndianBytesSplit(x: nat, m: nat, n: nat)
    requires x < Pow256(m)
    ensures LittleEndianBytes(x, m + n) == LittleEndianBytes(x, m) + LittleEndianBytes(0, n)
  {
    if m > 0 {
      assert x / 256 < Pow256(m - 1);
      LittleEndianBytesSplit(x / 256, m - 1, n);
      assert m + n - 1 == (m - 1) + n;
    }
  }

  /** The code as written reads the high four bytes of a fixed64 value as
      new fields: every value below 2^32 dumps with two extra lines
      "tag=0 varint=0". */
  lemma Fixed64ReadsItsOwnBytes(tag: nat, x: nat, depth: int)
    requires tag < TagLimit && x < 0x1_0000_0000
    ensures Dump(EncodeField(Fixed64Field(tag, x)), depth, AsWritten) ==
      Dumped(Indentation(depth) + [Fix64Line(tag, x)] +
             Indentation(depth) + [VarintLine(0, 0)] +
             Indentation(depth) + [VarintLine(0, 0)], Done)
  {
    var buf := EncodeField(Fixed64Field(tag, x));
    Fixed64TurnAsWritten(tag, x, depth);
    TwoZeroVarints(depth, AsWritten);
    DumpAfterTurn(buf, depth, AsWritten);
    var tail := Dump([0, 0, 0, 0], depth, AsWritten);
    assert Dump(buf, depth, AsWritten) == Dumped(Indentation(depth) + [Fix64Line(tag, x)] + tail.pieces, Done);
  }

  /** A call whose first turn goes on writes that turn and then what the
      call on the rest writes. */
  lemma DumpAfterTurn(buf: seq<Byte>, depth: int, v: Variant)
    requires buf != [] && Turn(buf, depth, v).Continue?
    ensures var t := Turn(buf, depth, v); var tail := Dump(t.rest, t.depth, v);
      Dump(buf, depth, v) == Dumped(Indentation(depth) + t.pieces + tail.pieces, tail.outcome)
  {
  }

  /** The loop body on such a field goes on four bytes too early. */
  lemma Fixed64TurnAsWritten(tag: nat, x: nat, depth: int)
    requires tag < TagLimit && x < 0x1_0000_0000
    ensures Turn(EncodeField(Fixed64Field(tag, x)), depth, AsWritten) ==
      Continue([Fix64Line(tag, x)], [0, 0, 0, 0], depth)
  {
    var value := LittleEndianBytes(x, 8);
    assert EncodeField(Fixed64Field(tag, x)) == EncodeVarint(tag * 8 + WireFixed64) + value;
    LowFixed64Bytes(x);
    TurnAfterKey(tag, WireFixed64, value, depth, AsWritten);
    assert ScalarTurn(tag, WireFixed64, value, depth, AsWritten) == Continue([Fix64Line(tag, x)], [0, 0, 0, 0], depth);
  }

  /** The eight bytes of a value below 2^32: it reads back, and its high
      four bytes are zero. */
  lemma LowFixed64Bytes(x: nat)
    requires x < 0x1_0000_0000
    ensures LittleEndianBytes(x, 8)[..8] == LittleEndianBytes(x, 8)
    ensures LittleEndian(LittleEndianBytes(x, 8)) == x
    ensures LittleEndianBytes(x, 8)[4..] == [0, 0, 0, 0]
  {
    Pow256Values();
    LittleEndianRoundTrip(x, 8);
    LittleEndianBytesSplit(x, 4, 4);
    assert LittleEndianBytes(0, 4) == [0, 0, 0, 0];
  }

  /** Four zero bytes read as two fields "tag=0 varint=0". */
  lemma TwoZeroVarints(depth: int, v: Variant)
    ensures Dump([0, 0, 0, 0], depth, v) ==
      Dumped(Indentation(depth) + [VarintLine(0, 0)] + Indentation(depth) + [VarintLine(0, 0)], Done)
  {
    var f := VarintField(0, 0);
    assert EncodeField(f) == [0, 0];
    TurnOnField(f, [0, 0], depth, v);
    TurnOnField(f, [], depth, v);
    assert [0, 0] + [0, 0] == [0, 0, 0, 0] && [0, 0] + [] == [0, 0];
    assert Dump([0, 0], depth, v) == Dumped(Indentation(depth) + [VarintLine(0, 0)] + [], Done);
  }

  /** With the fix, a fixed64 field dumps as its one line. */
  lemma Fixed64ReadOnce(tag: nat, x: nat, depth: int)
    requires tag < TagLimit && x < TwoTo64
    ensures Dump(EncodeField(Fixed64Field(tag, x)), depth, Intended) ==
      Dumped(Indentation(depth) + [Fix64Line(tag, x)], Done)
  {
    var f := Fixed64Field(tag, x);
    TurnOnField(f, [], depth, Intended);
    assert EncodeField(f) + [] == EncodeField(f);
    assert Turn(EncodeField(f), depth, Intended) == Continue([Fix64Line(tag, x)], [], depth);
    assert Indentation(depth) + [Fix64Line(tag, x)] + [] == Indentation(depth) + [Fix64Line(tag, x)];
  }

  /** The code as written slices with a negative bound when a declared
      length is 2^63 or more: the runtime panics right after the struct
      line is written. */
  lemma HugeLengthPanics(tag: nat, l: nat, rest: seq<Byte>, depth: int)
    requires tag < TagLimit && TwoTo63 <= l < TwoTo64
    ensures Dump(EncodeVarint(tag * 8 + WireBytes) + EncodeVarint(l) + rest, depth, AsWritten) ==
      Dumped(Indentation(depth) + [StructLine(tag)], Panic)
  {
    var tail := EncodeVarint(l) + rest;
    assert EncodeVarint(tag * 8 + WireBytes) + EncodeVarint(l) + rest == EncodeVarint(tag * 8 + WireBytes) + tail;
    TurnAfterKey(tag, WireBytes, tail, depth, AsWritten);
    VarintRoundTrip(l, rest);
  }

  /** With the fix, such a length is reported as `io.ErrUnexpectedEOF`
      before anything but the indentation is written. */
  lemma HugeLengthRejected(tag: nat, l: nat, rest: seq<Byte>, depth: int)
    requires tag < TagLimit && TwoTo63 <= l < TwoTo64
    ensures Dump(EncodeVarint(tag * 8 + WireBytes) + EncodeVarint(l) + rest, depth, Intended) ==
      Dumped(Indentation(depth), UnexpectedEof)
  {
    var tail := EncodeVarint(l) + rest;
    assert EncodeVarint(tag * 8 + WireBytes) + EncodeVarint(l) + rest == EncodeVarint(tag * 8 + WireBytes) + tail;
    TurnAfterKey(tag, WireBytes, tail, depth, Intended);
    VarintRoundTrip(l, rest);
    assert Indentation(depth) + [] == Indentation(depth);
  }

  /** A payload that is not a message (here a lone varint continuation
      byte) is rolled back and written raw, and the dump goes on after it. */
  lemma RawPayloadRollback(tag: nat, c: Byte, rest: seq<Byte>, depth: int, v: Variant)
    requires tag < TagLimit && c >= 128
    ensures Dump(EncodeField(BytesField(tag, [c])) + rest, depth, v) ==
      Dumped(Indentation(depth) + [BytesLine(tag, [c])] + Dump(rest, depth, v).pieces, Dump(rest, depth, v).outcome)
  {
    TurnOnField(BytesField(tag, [c]), rest, depth, v);
    assert DecodeVarint([c]) == None;
    assert Dump([c], depth + 1, v).outcome == UnexpectedEof;
  }

  /** A key with wire type 6 or 7 writes one line and ends the dump with
      `io.ErrUnexpectedEOF`, whatever follows. */
  lemma UnknownWireEnds(tag: nat, wire: nat, rest: seq<Byte>, depth: int, v: Variant)
    requires tag < TagLimit && (wire == 6 || wire == 7)
    ensures Dump(EncodeVarint(tag * 8 + wire) + rest, depth, v) ==
      Dumped(Indentation(depth) + [UnknownWireLine(tag, wire)], UnexpectedEof)
  {
    TurnAfterKey(tag, wire, rest, depth, v);
  }

  /** A declared length beyond the bytes left ends the dump with
      `io.ErrUnexpectedEOF` after the indentation alone. */
  lemma LengthBeyondBuffer(tag: nat, l: nat, p: seq<Byte>, depth: int, v: Variant)
    requires tag < TagLimit && |p| < l < TwoTo63
    ensures Dump(EncodeVarint(tag * 8 + WireBytes) + EncodeVarint(l) + p, depth, v) ==
      Dumped(Indentation(depth), UnexpectedEof)
  {
    var tail := EncodeVarint(l) + p;
    assert EncodeVarint(tag * 8 + WireBytes) + EncodeVarint(l) + p == EncodeVarint(tag * 8 + WireBytes) + tail;
    TurnAfterKey(tag, WireBytes, tail, depth, v);
    VarintRoundTrip(l, p);
    assert tail[|EncodeVarint(l)|..] == p;
    assert Indentation(depth) + [] == Indentation(depth);
  }

  lemma {:induction false} VarintGroupsOfPrefix(x: nat, k: nat, j: nat)
    requires j <= 9 && k < |EncodeVarint(x)|
    ensures VarintGroups(EncodeVarint(x)[..k], j) == None
    decreases k
  {
    if k > 0 {
      var b := EncodeVarint(x)[..k];
      assert x >= 128;
      if j < 9 {
        assert b[1..] == EncodeVarint(x / 128)[..k - 1];
        VarintGroupsOfPrefix(x / 128, k - 1, j + 1);
      }
    }
  }

  /** A key cut short ends the dump with `io.ErrUnexpectedEOF` after the
      indentation alone. */
  lemma TruncatedKey(key: nat, k: nat, depth: int, v: Variant)
    requires 0 < k < |EncodeVarint(key)|
    ensures Dump(EncodeVarint(key)[..k], depth, v) == Dumped(Indentation(depth), UnexpectedEof)
  {
    VarintGroupsOfPrefix(key, k, 0);
    assert Indentation(depth) + [] == Indentation(depth);
  }
}
