/** The gRPC data-frame reader of packet.go (`ParseFrameToByteMsg`): the
    five-byte length-prefixed-message header, the conversion of the HTTP/2
    `:path` into a fully qualified method name, and the choice of the
    method's input or output message type.

    The parsed descriptor files are a parameter: each one answers
    `FindSymbol` as a partial map from fully qualified names to the symbol
    found. A runtime panic of the Go code is the outcome `Crashed`. */
module Frames {
  import opened Common
  import opened ProtoModel

  /** An HTTP/2 DATA frame: its stream id and its payload. */
  datatype Frame = Frame(streamId: nat, data: seq<Byte>)

  /** What `FindSymbol` can find under a name: a method, with its input and
      output message types, or any other kind of symbol. */
  datatype Symbol = MethodSymbol(input: MessageDescriptor, output: MessageDescriptor) | OtherSymbol

  /** One parsed descriptor file, as far as `FindSymbol` reveals it. */
  type DescriptorFile = map<string, Symbol>

  /** The result of the call: a message and nil, a message and an error,
      or a runtime panic. */
  datatype FrameOutcome =
    | Parsed(msg: ProtoByteMsg)
    | Rejected(msg: ProtoByteMsg, reason: string)
    | Crashed

  /** The code as written, or as its comments evidently intend: the frame
      length checked before the first byte is read, and the stream side
      (1 request, 2 response, 0 unknown) mapped onto the message types. */
  datatype Reading = AsWritten | Intended

  /** `MessageType(side)`. As written it is Go's plain integer conversion,
      so side 1 (a request stream) becomes Response and side 2 Unknown. */
  function MessageTypeOf(side: int, r: Reading): int
  {
    if r == AsWritten then side
    else if side == 1 then Request
    else if side == 2 then Response
    else Unknown
  }

  /** `strings.Replace(path[1:], "/", ".", 1)`: the symbol a `:path` names. */
  function SymbolOfPath(path: string): (s: string)
    requires |path| > 0
    ensures |s| == |path| - 1
  {
    ReplaceFirst(path[1..], '/', '.')
  }

  /** The first descriptor file that resolves `sym`, and what it finds. */
  function FirstResolving(files: seq<DescriptorFile>, sym: string): (r: Option<Symbol>)
    ensures r.None? <==> forall i :: 0 <= i < |files| ==> sym !in files[i]
    ensures r.Some? ==> exists i :: 0 <= i < |files| && sym in files[i] && files[i][sym] == r.value &&
                          forall j :: 0 <= j < i ==> sym !in files[j]
  {
    if files == [] then None
    else if sym in files[0] then Some(files[0][sym])
    else
      var r := FirstResolving(files[1..], sym);
      assert forall i :: 1 <= i < |files| ==> files[1..][i - 1] == files[i];
      r
  }

  /** The record returned beside an error. */
  function Unparsed(path: string, side: int, r: Reading): ProtoByteMsg
  {
    ProtoByteMsg(path, MessageTypeOf(side, r), 0, None, None)
  }

  /** `ParseFrameToByteMsg(net, path, frame, side)` over the descriptor
      files `files`. */
  function ParseFrameToByteMsg(path: string, frame: Frame, side: int, files: seq<DescriptorFile>, r: Reading)
    : (res: FrameOutcome)
    ensures res.Parsed? ==>
      |path| > 0 && res.msg.path == path[1..] && res.msg.streamId == frame.streamId &&
      res.msg.msgType == MessageTypeOf(side, r) && res.msg.descriptor.Some? && res.msg.message.Some?
    ensures res.Rejected? ==> res.msg == Unparsed(path, side, r)
    ensures |frame.data| == 0 ==> (res.Crashed? <==> r == AsWritten)
  {
    var buf := frame.data;
    if |buf| == 0 then
      // buf[0] is read before the length is checked
      if r == AsWritten then Crashed else Rejected(Unparsed(path, side, r), "Message length is zero!")
    else if buf[0] == 1 then
      // the log line slices buf[5:]
      if |buf| < 5 then Crashed else Rejected(Unparsed(path, side, r), "Message is using compression!")
    else if files == [] then Rejected(Unparsed(path, side, r), "No proto descriptors were found!")
    else if |path| == 0 then Crashed
    else match FirstResolving(files, SymbolOfPath(path))
      case None => Rejected(Unparsed(path, side, r), "No proto descriptors were found!")
      case Some(OtherSymbol) => Crashed
      case Some(MethodSymbol(input, output)) =>
        if |buf| < 5 then Crashed
        else
          var t := MessageTypeOf(side, r);
          Parsed(ProtoByteMsg(path[1..], t, frame.streamId,
                              Some(if t == Request then input else output), Some(HexEncode(buf[5..]))))
  }

  /** What a successful parse answers: the path without its leading slash,
      the frame's stream id, the hex encoding of everything after the
      five-byte header (which decodes back to those bytes), and the input or
      output type of the method the first resolving file names. */
  lemma ParsedMessage(path: string, frame: Frame, side: int, files: seq<DescriptorFile>, r: Reading)
    requires ParseFrameToByteMsg(path, frame, side, files, r).Parsed?
    ensures var m := ParseFrameToByteMsg(path, frame, side, files, r).msg;
      |path| > 0 && |frame.data| >= 5 && frame.data[0] != 1 &&
      m.path == path[1..] && m.streamId == frame.streamId && m.msgType == MessageTypeOf(side, r) &&
      m.message.Some? && HexDecode(m.message.value) == Some(frame.data[5..]) &&
      match FirstResolving(files, SymbolOfPath(path))
      case Some(MethodSymbol(input, output)) =>
        m.descriptor == Some(if m.msgType == Request then input else output)
      case _ => false
  {
    HexRoundTrip(frame.data[5..]);
  }

  /** Every error answer carries the path unchanged, stream id 0 and no
      descriptor or message; an unresolved method and a compressed frame
      are errors. */
  lemma RejectedMessage(path: string, frame: Frame, side: int, files: seq<DescriptorFile>, r: Reading)
    ensures ParseFrameToByteMsg(path, frame, side, files, r).Rejected? ==>
      ParseFrameToByteMsg(path, frame, side, files, r).msg == Unparsed(path, side, r)
    ensures |frame.data| >= 5 && frame.data[0] == 1 ==>
      ParseFrameToByteMsg(path, frame, side, files, r) ==
        Rejected(Unparsed(path, side, r), "Message is using compression!")
    ensures |frame.data| > 0 && frame.data[0] != 1 && |path| > 0 &&
            (forall i :: 0 <= i < |files| ==> SymbolOfPath(path) !in files[i]) ==>
      ParseFrameToByteMsg(path, frame, side, files, r) ==
        Rejected(Unparsed(path, side, r), "No proto descriptors were found!")
  {
  }

  /** The five-byte gRPC header: the compressed flag, then the payload
      length as a 32-bit big-endian number. */
  function GrpcMessage(payload: seq<Byte>): (b: seq<Byte>)
    requires |payload| < 0x1_0000_0000
    ensures |b| == 5 + |payload| && b[0] == 0 && b[5..] == payload
  {
    var n := |payload|;
    [0, n / 0x100_0000, n / 0x1_0000 % 256, n / 0x100 % 256, n % 256] + payload
  }

  /** `strings.Replace(s, "/", ".", 1)` on a `:path` "/pkg.Svc/Method"
      gives "pkg.Svc.Method". */
  lemma SymbolOfMethodPath(service: string, rpc: string)
    requires '/' !in service
    ensures SymbolOfPath("/" + service + "/" + rpc) == service + "." + rpc
  {
    ReplaceFirstAfter(service, rpc);
    assert ("/" + service + "/" + rpc)[1..] == service + "/" + rpc;
  }

  lemma {:induction false} ReplaceFirstAfter(service: string, rpc: string)
    requires '/' !in service
    ensures ReplaceFirst(service + "/" + rpc, '/', '.') == service + "." + rpc
  {
    if service != [] {
      ReplaceFirstAfter(service[1..], rpc);
      assert (service + "/" + rpc)[1..] == service[1..] + "/" + rpc;
    }
  }

  /** A gRPC message on the stream of a method known to the first file that
      resolves it reads back as its payload, at the method's input or
      output type. */
  lemma GrpcMessageRoundTrip(service: string, rpc: string, id: nat, payload: seq<Byte>, side: int,
                             files: seq<DescriptorFile>, r: Reading, input: MessageDescriptor, output: MessageDescriptor)
    requires '/' !in service && |payload| < 0x1_0000_0000
    requires FirstResolving(files, service + "." + rpc) == Some(MethodSymbol(input, output))
    ensures var res := ParseFrameToByteMsg("/" + service + "/" + rpc, Frame(id, GrpcMessage(payload)), side, files, r);
      res.Parsed? && res.msg.path == service + "/" + rpc && res.msg.streamId == id &&
      res.msg.descriptor == Some(if MessageTypeOf(side, r) == Request then input else output) &&
      HexDecode(res.msg.message.value) == Some(payload)
  {
    var path := "/" + service + "/" + rpc;
    SymbolOfMethodPath(service, rpc);
    assert path[1..] == service + "/" + rpc;
    HexRoundTrip(payload);
  }

  /** As written, an empty frame panics on `buf[0]`: the branch meant for
      it cannot be reached. */
  lemma EmptyFrameCrashes(path: string, id: nat, side: int, files: seq<DescriptorFile>)
    ensures ParseFrameToByteMsg(path, Frame(id, []), side, files, AsWritten) == Crashed
  {
  }

  /** With the length checked first, an empty frame is the error the
      code has a branch for, with the unparsed record beside it. */
  lemma EmptyFrameRejected(path: string, id: nat, side: int, files: seq<DescriptorFile>)
    ensures ParseFrameToByteMsg(path, Frame(id, []), side, files, Intended) ==
      Rejected(ProtoByteMsg(path, MessageTypeOf(side, Intended), 0, None, None), "Message length is zero!")
  {
  }

  /** As written, a frame of a request stream (side 1) is typed Response
      and gets the method's output type. */
  lemma RequestFrameTypedAsResponse(path: string, frame: Frame, files: seq<DescriptorFile>)
    requires ParseFrameToByteMsg(path, frame, 1, files, AsWritten).Parsed?
    ensures var m := ParseFrameToByteMsg(path, frame, 1, files, AsWritten).msg;
      m.msgType == Response &&
      FirstResolving(files, SymbolOfPath(path)).Some? && FirstResolving(files, SymbolOfPath(path)).value.MethodSymbol? &&
      m.descriptor == Some(FirstResolving(files, SymbolOfPath(path)).value.output)
  {
  }

  /** With the sides mapped as the comment on `streamSide` says, request
      frames get the input type and response frames the output type. */
  lemma SidesTypedAsIntended(path: string, frame: Frame, side: int, files: seq<DescriptorFile>)
    requires ParseFrameToByteMsg(path, frame, side, files, Intended).Parsed?
    ensures var m := ParseFrameToByteMsg(path, frame, side, files, Intended).msg;
      FirstResolving(files, SymbolOfPath(path)).Some? && FirstResolving(files, SymbolOfPath(path)).value.MethodSymbol? &&
      (side == 1 ==> m.msgType == Request && m.descriptor == Some(FirstResolving(files, SymbolOfPath(path)).value.input)) &&
      (side == 2 ==> m.msgType == Response && m.descriptor == Some(FirstResolving(files, SymbolOfPath(path)).value.output))
  {
  }
}
