/** What both mutators share: the dynamic message they edit, seen as the
    values of its set fields by field name, the marshaller that turns it
    into protobuf bytes (a parameter: the wire encoding is not part of this
    model), and the hex string or error a mutation call answers. */
module MutatorBase {
  import opened Common
  import opened ProtoModel

  /** A dynamic message: the value of every set field, by field name. An
      unset field has no entry. */
  type Message = map<string, Value>

  /** `msg.Marshal()`: the protobuf encoding of the message, or an error. */
  type Marshaller = Message -> Result<seq<Byte>, string>

  /** The answer of `MutateField`/`MutateMessage`: the hex string with a nil
      error, the empty string with an error, or a runtime panic. */
  datatype Outcome = Mutated(hex: string) | Failed(reason: string) | Panicked

  const MarshalFailed: string := "Failed to marshal the mutated message!"

  /** `errors.WithMessage(err, msg).Error()`. */
  function WithMessage(msg: string, err: string): string
  {
    msg + ": " + err
  }

  /** Two messages agree on field `k`: both leave it unset, or both hold
      the same value. */
  predicate SameAt(m1: Message, m2: Message, k: string)
  {
    (k in m1 <==> k in m2) && (k in m1 ==> m1[k] == m2[k])
  }

  /** The field names of a descriptor are pairwise distinct, as protobuf
      requires of every message type. */
  predicate UniqueNames(fields: seq<FieldDescriptor>)
  {
    forall i, j :: 0 <= i < j < |fields| ==> fields[i].name != fields[j].name
  }

  /** The tail shared by every mutation call: marshal the message and
      return `hex.EncodeToString` of the bytes. The string decodes back to
      exactly the marshalled bytes; a marshalling error is reported with
      its prefix. */
  function Encoded(marshal: Marshaller, m: Message): (r: Outcome)
    ensures r.Mutated? <==> marshal(m).Ok?
    ensures r.Mutated? ==> HexDecode(r.hex) == Some(marshal(m).value)
    ensures r.Failed? ==> r.reason == WithMessage(MarshalFailed, marshal(m).error)
  {
    match marshal(m)
    case Ok(b) => HexRoundTrip(b); Mutated(HexEncode(b))
    case Err(e) => Failed(WithMessage(MarshalFailed, e))
  }
}
