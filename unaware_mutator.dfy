/** The dependency-unaware mutator of mutator/dependencyUnawareMutator.go:
    a `MutatedMessage` holds the message being mutated, its descriptor and
    the names of the fields it must leave alone, and mutates one field or
    every field at a time, choosing each new value by the field's type.

    The random source is a parameter: `draw` is the value `rand.Int()` or
    `rand.Intn(n)` draws for a field (reduced modulo the bound here). The
    floating-point tables hold opaque tokens. The decoding of the protobuf
    bytes is the parameter `unmarshal`. */
module UnawareMutator {
  import opened Common
  import opened ProtoModel
  import opened MutatorBase

  /** The value tables are indexed as written, by `rand.Intn(len - 1)`, or
      as evidently intended, by `rand.Intn(len)`; likewise `MutateField`
      looks at field 0 only as written, and skips every ignored field as
      intended. */
  datatype Reading = AsWritten | Intended

  const InterestingInt32: seq<int> := [0x7fff_ffff, -0x8000_0000, 0, 0x7fff, -0x8000]
  const InterestingInt64: seq<int> :=
    [0x7fff_ffff_ffff_ffff, -0x8000_0000_0000_0000, 0, 0x7fff_ffff, -0x8000_0000]
  const InterestingUint32: seq<int> := [0xffff_ffff, 0, 0xffff]
  const InterestingUint64: seq<int> := [0xffff_ffff_ffff_ffff, 0, 0xffff_ffff]
  /** Seven float32 values and eleven float64 values (extremes, zero,
      epsilon, infinities, NaN), as tokens. */
  const InterestingFloat32: seq<Value> := [Opaque(0), Opaque(1), Opaque(2), Opaque(3), Opaque(4), Opaque(5), Opaque(6)]
  const InterestingFloat64: seq<Value> :=
    [Opaque(7), Opaque(8), Opaque(9), Opaque(10), Opaque(11), Opaque(12), Opaque(13), Opaque(14), Opaque(15),
     Opaque(16), Opaque(17)]

  /** `int(math.Pow(2, 32))`, the longest string or bytes value kept. */
  const MaxFieldLength: int := 0x1_0000_0000

  const MutateFailed: string := "MutateMessage failed"

  /** `protoreflect`'s decoding of protobuf bytes against a descriptor. */
  type Unmarshaller = (MessageDescriptor, seq<Byte>) -> Result<Message, string>

  /** What mutating one field did to the message, and whether it stopped
      with an error or a panic. */
  datatype Failure = Error(reason: string) | Panic
  datatype Applied = Applied(msg: Message, failure: Option<Failure>)

  /** The table index `rand.Intn` gives for a table of `len` entries; None
      when the bound is not positive, where `rand.Intn` panics. */
  function PickIndex(draw: nat, len: nat, rd: Reading): (r: Option<nat>)
    ensures r.Some? ==> r.value < len
    ensures rd == AsWritten ==> (r.Some? <==> len >= 2) && (r.Some? ==> r.value <= len - 2)
    ensures rd == Intended ==> (r.Some? <==> len >= 1)
  {
    var bound := if rd == AsWritten then len - 1 else len;
    if bound <= 0 then None else Some(draw % bound)
  }

  function Nums(s: seq<int>): (r: seq<Value>)
    ensures |r| == |s| && forall i :: 0 <= i < |s| ==> r[i] == Num(s[i])
  {
    seq(|s|, i requires 0 <= i < |s| => Num(s[i]))
  }

  /** `strings.Repeat(s, k)` / `bytes.Repeat(s, k)`. */
  function Repeat<T>(s: seq<T>, k: nat): (r: seq<T>)
    ensures |r| == k * |s|
  {
    if k == 0 then [] else Repeat(s, k - 1) + s
  }

  /** `m'` differs from `m` at most in field `name`. */
  ghost predicate OnlyAt(m': Message, m: Message, name: string)
  {
    forall k :: k != name ==> SameAt(m', m, k)
  }

  /** What mutating a field does to it: set a new value, clear it, leave
      it, or stop with an error or a panic. */
  datatype Effect = SetTo(v: Value) | Clear | Keep | Stop(failure: Failure)

  /** The field's current value, None when it is unset. */
  function Lookup(m: Message, name: string): Option<Value>
  {
    if name in m then Some(m[name]) else None
  }

  /** The effect carried out on the message: only the field changes, and
      only when the step does not stop. */
  function Apply(m: Message, name: string, e: Effect): (a: Applied)
    ensures a.failure.Some? <==> e.Stop?
    ensures a.failure.Some? ==> a.msg == m
    ensures OnlyAt(a.msg, m, name)
  {
    match e
    case SetTo(v) => Applied(m[name := v], None)
    case Clear => Applied(m - {name}, None)
    case Keep => Applied(m, None)
    case Stop(f) => Applied(m, Some(f))
  }

  /** `TrySetField(fd, v)`: a single value is refused for a repeated
      field, which takes a list. */
  function SetEffect(fd: FieldDescriptor, v: Value, kind: string): Effect
  {
    if fd.repeated then Stop(Error(WithMessage(MutateFailed, "Failed to change " + kind + " field value")))
    else SetTo(v)
  }

  /** Set the field to the table entry picked by the draw. */
  function PickEffect(fd: FieldDescriptor, table: seq<Value>, draw: nat, rd: Reading, kind: string): Effect
  {
    match PickIndex(draw, |table|, rd)
    case None => Stop(Panic)
    case Some(i) => SetEffect(fd, table[i], kind)
  }

  /** `GetField(fd).(string)`: an unset field reads as "", and the type
      assertion panics (None) on the list a repeated field holds. */
  function TextOf(fd: FieldDescriptor, cur: Option<Value>): Option<string>
  {
    if fd.repeated then None
    else match cur
      case None => Some("")
      case Some(Text(s)) => Some(s)
      case Some(_) => None
  }

  /** `GetField(fd).([]byte)`, likewise. */
  function BytesOf(fd: FieldDescriptor, cur: Option<Value>): Option<seq<Byte>>
  {
    if fd.repeated then None
    else match cur
      case None => Some([])
      case Some(Raw(b)) => Some(b)
      case Some(_) => None
  }

  /** `MutateString`: the old value repeated `draw % 100` times, or the
      field cleared when that is longer than 2^32. */
  function TextEffect(fd: FieldDescriptor, cur: Option<Value>, draw: nat): Effect
  {
    match TextOf(fd, cur)
    case None => Stop(Panic)
    case Some(s) =>
      var v := Repeat(s, draw % 100);
      if |v| > MaxFieldLength then Clear else SetEffect(fd, Text(v), "string")
  }

  /** `MutateBytes`, likewise. */
  function RawEffect(fd: FieldDescriptor, cur: Option<Value>, draw: nat): Effect
  {
    match BytesOf(fd, cur)
    case None => Stop(Panic)
    case Some(b) =>
      var v := Repeat(b, draw % 100);
      if |v| > MaxFieldLength then Clear else SetEffect(fd, Raw(v), "bytes")
  }

  /** The switch on the field's type in `mutateField(field)`, followed by
      `MutateRepeated`, which does nothing. Message and group fields are
      left alone. */
  function FieldEffect(fd: FieldDescriptor, cur: Option<Value>, draw: nat, rd: Reading): Effect
  {
    match fd.ftype
    case TBool => SetEffect(fd, Flag(draw % 2 == 0), "bool")
    case TString => TextEffect(fd, cur, draw)
    case TBytes => RawEffect(fd, cur, draw)
    case TFloat => PickEffect(fd, InterestingFloat32, draw, rd, "float")
    case TDouble => PickEffect(fd, InterestingFloat64, draw, rd, "double")
    case TInt32 => PickEffect(fd, Nums(InterestingInt32), draw, rd, "Int32")
    case TSint32 => PickEffect(fd, Nums(InterestingInt32), draw, rd, "Int32")
    case TSfixed32 => PickEffect(fd, Nums(InterestingInt32), draw, rd, "Int32")
    case TInt64 => PickEffect(fd, Nums(InterestingInt64), draw, rd, "Int64")
    case TSint64 => PickEffect(fd, Nums(InterestingInt64), draw, rd, "Int64")
    case TSfixed64 => PickEffect(fd, Nums(InterestingInt64), draw, rd, "Int64")
    case TUint32 => PickEffect(fd, Nums(InterestingUint32), draw, rd, "uint32")
    case TFixed32 => PickEffect(fd, Nums(InterestingUint32), draw, rd, "uint32")
    case TUint64 => PickEffect(fd, Nums(InterestingUint64), draw, rd, "uint64")
    case TFixed64 => PickEffect(fd, Nums(InterestingUint64), draw, rd, "uint64")
    case TEnum =>
      (match fd.enumValues
       case None => Stop(Error(WithMessage(MutateFailed, "Cannot get type for enum " + fd.name)))
       case Some(vals) => PickEffect(fd, Nums(vals), draw, rd, "enum"))
    case TMessage => Keep
    case TGroup => Keep
  }

  /** `mutateField(field)` on the message. */
  function MutateOne(fd: FieldDescriptor, m: Message, draw: nat, rd: Reading): Applied
  {
    Apply(m, fd.name, FieldEffect(fd, Lookup(m, fd.name), draw, rd))
  }

  /** The loop of `MutateMessage`: each field whose name is not ignored is
      mutated with its draw, in descriptor order, until one fails. */
  function MutateAll(m: Message, fields: seq<FieldDescriptor>, ignored: seq<string>, draws: seq<nat>, rd: Reading): Applied
    requires |draws| == |fields|
  {
    if fields == [] then Applied(m, None)
    else
      var n := |fields| - 1;
      var a := MutateAll(m, fields[..n], ignored, draws[..n], rd);
      if a.failure.Some? || fields[n].name in ignored then a
      else MutateOne(fields[n], a.msg, draws[n], rd)
  }

  /** The answer once the fields are mutated. */
  function Conclude(a: Applied, marshal: Marshaller): Outcome
  {
    match a.failure
    case None => Encoded(marshal, a.msg)
    case Some(Error(e)) => Failed(e)
    case Some(Panic) => Panicked
  }

  /** The first field at or after `i` whose name is not ignored, or the
      number of fields when there is none. */
  function FirstUnignored(fields: seq<FieldDescriptor>, ignored: seq<string>, i: nat): (r: nat)
    requires i <= |fields|
    ensures i <= r <= |fields|
    ensures forall j :: i <= j < r ==> fields[j].name in ignored
    ensures r < |fields| ==> fields[r].name !in ignored
    decreases |fields| - i
  {
    if i == |fields| then i
    else if fields[i].name in ignored then FirstUnignored(fields, ignored, i + 1)
    else i
  }

  /** The index `MutateField` leaves in `currentFieldIdx`. As written the
      search looks at field 0 only and moves on to field 1 when field 0 is
      ignored. */
  function SelectedField(fields: seq<FieldDescriptor>, ignored: seq<string>, rd: Reading): nat
  {
    if rd == Intended then FirstUnignored(fields, ignored, 0)
    else if |fields| > 0 && fields[0].name in ignored then 1
    else 0
  }

  // ---------------------------------------------------------------------
  // Properties of the value choice

  /** A field mutation depends only on the field's own value, and touches
      no other field. */
  lemma MutateOneLocal(fd: FieldDescriptor, m1: Message, m2: Message, draw: nat, rd: Reading)
    requires SameAt(m1, m2, fd.name)
    ensures MutateOne(fd, m1, draw, rd).failure == MutateOne(fd, m2, draw, rd).failure
    ensures SameAt(MutateOne(fd, m1, draw, rd).msg, MutateOne(fd, m2, draw, rd).msg, fd.name)
    ensures OnlyAt(MutateOne(fd, m1, draw, rd).msg, m1, fd.name)
  {
    assert Lookup(m1, fd.name) == Lookup(m2, fd.name);
  }

  /** Strings: the old value (an unset field reads as "") repeated k
      times, 0 <= k < 100; the field is cleared instead exactly when that
      is longer than 2^32. */
  lemma TextRepeated(fd: FieldDescriptor, cur: Option<Value>, draw: nat, rd: Reading)
    requires fd.ftype == TString && !fd.repeated && (cur.None? || cur.value.Text?)
    ensures var s := if cur.Some? then cur.value.s else "";
            var k := draw % 100;
            var e := FieldEffect(fd, cur, draw, rd);
            k < 100 && (e.Clear? || e.SetTo?) &&
            (e.Clear? <==> k * |s| > MaxFieldLength) &&
            (e.SetTo? ==> e.v == Text(Repeat(s, k)) && |e.v.s| == k * |s|)
  {
  }

  /** Bytes, likewise. */
  lemma BytesRepeated(fd: FieldDescriptor, cur: Option<Value>, draw: nat, rd: Reading)
    requires fd.ftype == TBytes && !fd.repeated && (cur.None? || cur.value.Raw?)
    ensures var s := if cur.Some? then cur.value.bytes else [];
            var k := draw % 100;
            var e := FieldEffect(fd, cur, draw, rd);
            k < 100 && (e.Clear? || e.SetTo?) &&
            (e.Clear? <==> k * |s| > MaxFieldLength) &&
            (e.SetTo? ==> e.v == Raw(Repeat(s, k)) && |e.v.bytes| == k * |s|)
  {
  }

  /** An enum field without an enum type is an error; message fields,
      repeated or not, are left as they are; a single value is refused by
      a repeated scalar field, and the type assertion on a repeated string
      or bytes field panics. */
  lemma MutateOneErrors(fd: FieldDescriptor, cur: Option<Value>, draw: nat, rd: Reading)
    ensures fd.ftype == TEnum && fd.enumValues.None? ==>
      FieldEffect(fd, cur, draw, rd) == Stop(Error(WithMessage(MutateFailed, "Cannot get type for enum " + fd.name)))
    ensures fd.ftype in {TMessage, TGroup} ==> FieldEffect(fd, cur, draw, rd) == Keep
    ensures fd.repeated && fd.ftype in {TBool, TInt32, TInt64, TUint32, TUint64, TSint32, TSint64,
                                        TFixed32, TFixed64, TSfixed32, TSfixed64} ==>
      FieldEffect(fd, cur, draw, rd).Stop? && FieldEffect(fd, cur, draw, rd).failure.Error?
    ensures fd.repeated && fd.ftype in {TString, TBytes} ==> FieldEffect(fd, cur, draw, rd) == Stop(Panic)
  {
  }

  /** As written, `rand.Intn(len - 1)` never picks the last entry: an
      int32 field is always set, but never to the last value of its table
      (-2^15), and an enum with a single value panics. */
  lemma LastTableEntryNeverChosen(fd: FieldDescriptor, cur: Option<Value>, draw: nat)
    requires fd.ftype == TInt32 && !fd.repeated
    ensures FieldEffect(fd, cur, draw, AsWritten).SetTo?
    ensures FieldEffect(fd, cur, draw, AsWritten) != SetTo(Num(-0x8000))
    ensures FieldEffect(fd.(ftype := TEnum, enumValues := Some([7])), cur, draw, AsWritten) == Stop(Panic)
  {
    var i := PickIndex(draw, 5, AsWritten).value;
    assert i <= 3;
    assert Nums(InterestingInt32)[i] == Num(InterestingInt32[i]);
  }

  /** With `rand.Intn(len)`, every table entry and every enum value can be
      chosen. */
  lemma EveryTableEntryReachable(fd: FieldDescriptor, cur: Option<Value>, i: nat)
    requires !fd.repeated
    ensures fd.ftype == TInt32 && i < |InterestingInt32| ==>
      FieldEffect(fd, cur, i, Intended) == SetTo(Num(InterestingInt32[i]))
    ensures fd.ftype == TEnum && fd.enumValues.Some? && i < |fd.enumValues.value| ==>
      FieldEffect(fd, cur, i, Intended) == SetTo(Num(fd.enumValues.value[i]))
  {
  }

  // ---------------------------------------------------------------------
  // Properties of the field loop

  lemma MutateAllStep(m: Message, fields: seq<FieldDescriptor>, ignored: seq<string>, draws: seq<nat>, rd: Reading, i: nat)
    requires |draws| == |fields| && i < |fields|
    ensures var a := MutateAll(m, fields[..i], ignored, draws[..i], rd);
      MutateAll(m, fields[..i + 1], ignored, draws[..i + 1], rd) ==
        if a.failure.Some? || fields[i].name in ignored then a else MutateOne(fields[i], a.msg, draws[i], rd)
  {
    assert fields[..i + 1][..i] == fields[..i];
    assert draws[..i + 1][..i] == draws[..i];
  }

  /** Once a field fails, the later fields are not mutated. */
  lemma {:induction false} FailurePersists(m: Message, fields: seq<FieldDescriptor>, ignored: seq<string>,
                                           draws: seq<nat>, rd: Reading, n: nat)
    requires |draws| == |fields| && n <= |fields|
    requires MutateAll(m, fields[..n], ignored, draws[..n], rd).failure.Some?
    ensures MutateAll(m, fields, ignored, draws, rd) == MutateAll(m, fields[..n], ignored, draws[..n], rd)
    decreases |fields|
  {
    if n < |fields| {
      var k := |fields| - 1;
      assert fields[..k][..n] == fields[..n];
      assert draws[..k][..n] == draws[..n];
      FailurePersists(m, fields[..k], ignored, draws[..k], rd, n);
      MutateAllStep(m, fields, ignored, draws, rd, k);
      assert fields[..k + 1] == fields && draws[..k + 1] == draws;
    } else {
      assert fields[..n] == fields && draws[..n] == draws;
    }
  }

  /** A field every one of whose namesakes is ignored keeps its value or
      stays unset. */
  lemma {:induction false} MutateAllKeepsIgnored(m: Message, fields: seq<FieldDescriptor>, ignored: seq<string>,
                                                 draws: seq<nat>, rd: Reading, k: string)
    requires |draws| == |fields|
    requires forall i :: 0 <= i < |fields| && fields[i].name == k ==> k in ignored
    ensures SameAt(MutateAll(m, fields, ignored, draws, rd).msg, m, k)
  {
    if fields != [] {
      var n := |fields| - 1;
      assert forall i :: 0 <= i < n ==> fields[..n][i] == fields[i];
      MutateAllKeepsIgnored(m, fields[..n], ignored, draws[..n], rd, k);
      var a := MutateAll(m, fields[..n], ignored, draws[..n], rd);
      if !(a.failure.Some? || fields[n].name in ignored) {
        MutateOneLocal(fields[n], a.msg, a.msg, draws[n], rd);
      }
    }
  }

  /** `MutateMessage` mutates every field that is not ignored, each once
      and with its own draw: when no field fails and names are distinct,
      each such field ends as mutating it alone would leave it. */
  lemma {:induction false} MutateAllPerField(m: Message, fields: seq<FieldDescriptor>, ignored: seq<string>,
                                             draws: seq<nat>, rd: Reading, i: nat)
    requires |draws| == |fields| && UniqueNames(fields) && i < |fields| && fields[i].name !in ignored
    requires MutateAll(m, fields, ignored, draws, rd).failure.None?
    ensures SameAt(MutateAll(m, fields, ignored, draws, rd).msg, MutateOne(fields[i], m, draws[i], rd).msg, fields[i].name)
  {
    var n := |fields| - 1;
    var init, dinit := fields[..n], draws[..n];
    var a := MutateAll(m, init, ignored, dinit, rd);
    assert a.failure.None?;
    assert UniqueNames(init);
    if i < n {
      assert init[i] == fields[i] && dinit[i] == draws[i];
      MutateAllPerField(m, init, ignored, dinit, rd, i);
      if fields[n].name !in ignored {
        MutateOneLocal(fields[n], a.msg, a.msg, draws[n], rd);
        assert fields[n].name != fields[i].name;
      }
    } else {
      assert forall j :: 0 <= j < |init| ==> init[j].name != fields[i].name;
      MutateAllKeepsIgnored(m, init, ignored, dinit, rd, fields[i].name);
      MutateOneLocal(fields[i], a.msg, m, draws[i], rd);
    }
  }

  /** As written, with fields a and b both ignored, `MutateField` still
      mutates b. */
  lemma IgnoredFieldMutated()
    ensures var a := FieldDescriptor("a", "pkg.M.a", TInt32, false, None);
            var b := FieldDescriptor("b", "pkg.M.b", TInt32, false, None);
            SelectedField([a, b], ["a", "b"], AsWritten) == 1 && [a, b][1].name in ["a", "b"]
  {
  }

  /** As intended, the field chosen is the first one that is not ignored,
      and the call panics only when all are ignored. */
  lemma SelectedFieldNotIgnored(fields: seq<FieldDescriptor>, ignored: seq<string>)
    ensures var s := SelectedField(fields, ignored, Intended);
      s <= |fields| &&
      (s < |fields| ==> fields[s].name !in ignored) &&
      (forall j :: 0 <= j < s ==> fields[j].name in ignored) &&
      (s == |fields| <==> forall j :: 0 <= j < |fields| ==> fields[j].name in ignored)
  {
  }

  // ---------------------------------------------------------------------
  // The code

  /** The scan of `ignoredFields` for a field name. */
  method NameIgnored(name: string, ignored: seq<string>) returns (found: bool)
    ensures found <==> name in ignored
  {
    found := false;
    var j := 0;
    while j < |ignored|
      invariant 0 <= j <= |ignored|
      invariant name !in ignored[..j]
    {
      if name == ignored[j] {
        found := true;
        break;
      }
      j := j + 1;
    }
    assert found || ignored[..j] == ignored;
  }

  class MutatedMessage {
    /** `mm.currentMessage`; the nil message of the zero value is read as
        the empty one: it is nil only while `descriptor` is nil too, and
        then both mutating methods panic whichever of the two they touch
        first. */
    var currentMessage: Message
    /** `mm.descriptor`: `None` is the nil pointer of the zero value. */
    var descriptor: Option<MessageDescriptor>
    var ignoredFields: seq<string>
    var currentFieldIdx: int

    /** The zero value of the struct. */
    constructor ()
      ensures currentMessage == map[] && descriptor == None && ignoredFields == []
      ensures currentFieldIdx == 0
    {
      currentMessage := map[];
      descriptor := None;
      ignoredFields := [];
      currentFieldIdx := 0;
    }

    /** `New(message, dsc, ignoredFd)`: the hex string decoded and
        unmarshalled into a new message of type `dsc`. An empty string, a
        string that is not hex and bytes that do not unmarshal are errors. */
    method New(message: string, dsc: MessageDescriptor, ignoredFd: seq<string>, unmarshal: Unmarshaller)
      returns (err: Option<string>)
      modifies this
      ensures currentFieldIdx == old(currentFieldIdx)
      ensures message == [] ==> err == Some("Message contents should not be empty!") && unchanged(this)
      ensures message != [] && HexDecode(message).None? ==>
        err == Some("Failed to initialize mutated message") && unchanged(this)
      ensures message != [] && HexDecode(message).Some? && unmarshal(dsc, HexDecode(message).value).Err? ==>
        err == Some(WithMessage("Failed to unmarshal message contents!", unmarshal(dsc, HexDecode(message).value).error)) &&
        currentMessage == map[] && descriptor == old(descriptor) && ignoredFields == old(ignoredFields)
      ensures message != [] && HexDecode(message).Some? && unmarshal(dsc, HexDecode(message).value).Ok? ==>
        err == None && currentMessage == unmarshal(dsc, HexDecode(message).value).value &&
        descriptor == Some(dsc) && ignoredFields == ignoredFd
    {
      if |message| == 0 {
        return Some("Message contents should not be empty!");
      }
      var buf := HexDecode(message);
      if buf.None? {
        return Some("Failed to initialize mutated message");
      }
      currentMessage := map[];
      var decoded := unmarshal(dsc, buf.value);
      if decoded.Err? {
        return Some(WithMessage("Failed to unmarshal message contents!", decoded.error));
      }
      currentMessage := decoded.value;
      ignoredFields := ignoredFd;
      descriptor := Some(dsc);
      return None;
    }

    /** `MutateField()`: mutate the field `SelectedField` names; a nil
        descriptor (no successful `New`) and an index past the last field
        panic. */
    method MutateField(draw: nat, rd: Reading, marshal: Marshaller) returns (r: Outcome)
      modifies this
      ensures descriptor == old(descriptor) && ignoredFields == old(ignoredFields)
      ensures descriptor.None? ==> r == Panicked && unchanged(this)
      ensures descriptor.Some? ==> currentFieldIdx == SelectedField(descriptor.value.fields, ignoredFields, rd)
      ensures descriptor.Some? && currentFieldIdx >= |descriptor.value.fields| ==>
        r == Panicked && currentMessage == old(currentMessage)
      ensures descriptor.Some? && currentFieldIdx < |descriptor.value.fields| ==>
        var a := MutateOne(descriptor.value.fields[currentFieldIdx], old(currentMessage), draw, rd);
        currentMessage == a.msg && r == Conclude(a, marshal)
    {
      if descriptor.None? {
        return Panicked;
      }
      var fields := descriptor.value.fields;
      currentFieldIdx := 0;
      if |fields| == 0 {
        return Panicked;
      }
      if rd == AsWritten {
        // the outer loop ends in an unconditional break: field 0 is the
        // only one examined
        var ignored := NameIgnored(fields[0].name, ignoredFields);
        if ignored {
          currentFieldIdx := currentFieldIdx + 1;
        }
      } else {
        while currentFieldIdx < |fields| && fields[currentFieldIdx].name in ignoredFields
          invariant 0 <= currentFieldIdx <= |fields|
          invariant forall j :: 0 <= j < currentFieldIdx ==> fields[j].name in ignoredFields
          invariant descriptor == old(descriptor) && ignoredFields == old(ignoredFields)
          invariant currentMessage == old(currentMessage)
          decreases |fields| - currentFieldIdx
        {
          currentFieldIdx := currentFieldIdx + 1;
        }
        FirstUnignoredIs(fields, ignoredFields, currentFieldIdx);
      }
      if currentFieldIdx >= |fields| {
        return Panicked;
      }
      var a := MutateOne(fields[currentFieldIdx], currentMessage, draw, rd);
      currentMessage := a.msg;
      r := Conclude(a, marshal);
    }

    /** `MutateMessage()`: every field whose name is not ignored is
        mutated, in descriptor order, with its own draw; the first failure
        is returned. A nil descriptor (no successful `New`) panics. */
    method MutateMessage(draws: seq<nat>, rd: Reading, marshal: Marshaller) returns (r: Outcome)
      requires descriptor.Some? ==> |draws| == |descriptor.value.fields|
      modifies this
      ensures descriptor == old(descriptor) && ignoredFields == old(ignoredFields)
      ensures currentFieldIdx == old(currentFieldIdx)
      ensures descriptor.None? ==> r == Panicked && unchanged(this)
      ensures descriptor.Some? ==>
        currentMessage == MutateAll(old(currentMessage), descriptor.value.fields, ignoredFields, draws, rd).msg
      ensures descriptor.Some? ==>
        r == Conclude(MutateAll(old(currentMessage), descriptor.value.fields, ignoredFields, draws, rd), marshal)
    {
      if descriptor.None? {
        return Panicked;
      }
      var fields := descriptor.value.fields;
      for i := 0 to |fields|
        invariant descriptor == old(descriptor) && ignoredFields == old(ignoredFields)
        invariant currentFieldIdx == old(currentFieldIdx)
        invariant MutateAll(old(currentMessage), fields[..i], ignoredFields, draws[..i], rd) == Applied(currentMessage, None)
      {
        MutateAllStep(old(currentMessage), fields, ignoredFields, draws, rd, i);
        var skipField := NameIgnored(fields[i].name, ignoredFields);
        if skipField {
          continue;
        }
        var a := MutateOne(fields[i], currentMessage, draws[i], rd);
        currentMessage := a.msg;
        if a.failure.Some? {
          FailurePersists(old(currentMessage), fields, ignoredFields, draws, rd, i + 1);
          return Conclude(a, marshal);
        }
      }
      assert fields[..|fields|] == fields && draws[..|draws|] == draws;
      r := Conclude(Applied(currentMessage, None), marshal);
    }
  }

  lemma FirstUnignoredIs(fields: seq<FieldDescriptor>, ignored: seq<string>, i: nat)
    requires i <= |fields|
    requires forall j :: 0 <= j < i ==> fields[j].name in ignored
    requires i < |fields| ==> fields[i].name !in ignored
    ensures FirstUnignored(fields, ignored, 0) == i
  {
  }
}
