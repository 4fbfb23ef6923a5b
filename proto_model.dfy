/** The protobuf-side data the fuzzer passes around: message and field
    descriptors (as far as the fuzzer inspects them), field values, the
    captured gRPC message record and the value-dependency record. */
module ProtoModel {
  import opened Common

  /** The field types of descriptor.proto that the fuzzer distinguishes. */
  datatype FieldType =
    | TDouble | TFloat | TInt64 | TUint64 | TInt32 | TFixed64 | TFixed32 | TBool
    | TString | TGroup | TMessage | TBytes | TUint32 | TEnum | TSfixed32 | TSfixed64
    | TSint32 | TSint64

  /** A field descriptor: short name, fully qualified name, type, cardinality
      and, for an enum field, the numbers of the enum's values in declaration
      order (None when the descriptor has no enum type). */
  datatype FieldDescriptor = FieldDescriptor(
    name: string,
    fullName: string,
    ftype: FieldType,
    repeated: bool,
    enumValues: Option<seq<int>>)

  /** A message descriptor: its name and its fields in declaration order. */
  datatype MessageDescriptor = MessageDescriptor(name: string, fields: seq<FieldDescriptor>)

  /** A field value as the dynamic-message library hands it out. Floating
      point values, nested messages and lists are opaque tokens. */
  datatype Value = Num(n: int) | Flag(b: bool) | Text(s: string) | Raw(bytes: seq<Byte>) | Opaque(id: nat)

  /** `packet.MessageType` is a plain integer conversion of the stream side:
      Request = 0, Response = 1, Unknown = 2. */
  const Request: int := 0
  const Response: int := 1
  const Unknown: int := 2

  /** A captured message: the method path, the message type, the HTTP/2
      stream id, the message descriptor (nil when none was found) and the
      hex encoding of the protobuf payload (nil likewise). */
  datatype ProtoByteMsg = ProtoByteMsg(
    path: string,
    msgType: int,
    streamId: nat,
    descriptor: Option<MessageDescriptor>,
    message: Option<string>)

  /** A value dependency between two message types: for each related field
      pair, the fully qualified name in `msg1`'s type mapped to the one in
      `msg2`'s type. */
  datatype MsgValDep = MsgValDep(msg1: string, msg2: string, relations: map<string, string>)

  /** The name `Descriptor.GetName()` yields; a nil descriptor is not read by
      the fuzzer, so it is only asked of messages that carry one. */
  function DescriptorName(m: ProtoByteMsg): string
    requires m.descriptor.Some?
  {
    m.descriptor.value.name
  }
}
