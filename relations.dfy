/** The message-relation analysis of packet/relations.go: first-occurrence
    de-duplication by method path, request/response pairing by stream id,
    the field-level dependency rule, the de-duplicated dependency list, and
    the transition counts between request paths.

    Decoding a protobuf payload against its descriptor is a parameter
    (`unmarshal`); a decoded message is a map from field name to value. */
module Relations {
  import opened Common
  import opened ProtoModel

  // ---------------------------------------------------------------------
  // unique

  /** The set of paths of `s`. */
  function Paths(s: seq<ProtoByteMsg>): set<string>
  {
    if s == [] then {} else Paths(s[..|s| - 1]) + {s[|s| - 1].path}
  }

  lemma {:induction false} PathsMembership(s: seq<ProtoByteMsg>, p: string)
    ensures p in Paths(s) <==> exists i :: 0 <= i < |s| && s[i].path == p
  {
    if s != [] {
      PathsMembership(s[..|s| - 1], p);
      assert forall i :: 0 <= i < |s| - 1 ==> s[..|s| - 1][i] == s[i];
    }
  }

  lemma PathsSnoc(s: seq<ProtoByteMsg>, m: ProtoByteMsg)
    ensures Paths(s + [m]) == Paths(s) + {m.path}
  {
    assert (s + [m])[..|s|] == s;
  }

  /** What `unique` builds: the input in order, each entry kept only when no
      entry kept before it has its path. */
  function Dedup(s: seq<ProtoByteMsg>): (r: seq<ProtoByteMsg>)
    ensures |r| <= |s|
    ensures r == [] <==> s == []
  {
    if s == [] then []
    else
      var d := Dedup(s[..|s| - 1]);
      if s[|s| - 1].path in Paths(d) then d else d + [s[|s| - 1]]
  }

  /** Reference definition: the entries whose path does not occur earlier in
      the input, in input order. */
  function FirstOccurrences(s: seq<ProtoByteMsg>): seq<ProtoByteMsg>
  {
    if s == [] then []
    else FirstOccurrences(s[..|s| - 1]) + (if s[|s| - 1].path in Paths(s[..|s| - 1]) then [] else [s[|s| - 1]])
  }

  /** `unique` loses no path. */
  lemma {:induction false} DedupPaths(s: seq<ProtoByteMsg>)
    ensures Paths(Dedup(s)) == Paths(s)
  {
    if s != [] {
      var init, last := s[..|s| - 1], s[|s| - 1];
      DedupPaths(init);
      assert s == init + [last];
      PathsSnoc(init, last);
      if last.path !in Paths(Dedup(init)) {
        PathsSnoc(Dedup(init), last);
      }
    }
  }

  /** `unique` keeps exactly the first entry of every path, in input order. */
  lemma {:induction false} DedupKeepsFirstOccurrences(s: seq<ProtoByteMsg>)
    ensures Dedup(s) == FirstOccurrences(s)
  {
    if s != [] {
      DedupKeepsFirstOccurrences(s[..|s| - 1]);
      DedupPaths(s[..|s| - 1]);
    }
  }

  /** No two entries of the output of `unique` share a path. */
  lemma {:induction false} DedupDistinct(s: seq<ProtoByteMsg>)
    ensures forall i, j :: 0 <= i < j < |Dedup(s)| ==> Dedup(s)[i].path != Dedup(s)[j].path
  {
    if s != [] {
      var d := Dedup(s[..|s| - 1]);
      DedupDistinct(s[..|s| - 1]);
      var last := s[|s| - 1];
      if last.path !in Paths(d) {
        forall i | 0 <= i < |d|
          ensures d[i].path != last.path
        {
          PathsMembership(d, last.path);
        }
        assert Dedup(s) == d + [last];
      }
    }
  }

  /** Every entry of the output of `unique` is an entry of its input. */
  lemma {:induction false} DedupFromInput(s: seq<ProtoByteMsg>)
    ensures forall m :: m in Dedup(s) ==> m in s
  {
    if s != [] {
      DedupFromInput(s[..|s| - 1]);
      assert s == s[..|s| - 1] + [s[|s| - 1]];
    }
  }

  /** `unique(msgs)`. */
  method Unique(msgs: seq<ProtoByteMsg>) returns (list: seq<ProtoByteMsg>)
    ensures list == Dedup(msgs)
  {
    var keys: set<string> := {};
    list := [];
    for i := 0 to |msgs|
      invariant list == Dedup(msgs[..i])
      invariant keys == Paths(list)
    {
      var entry := msgs[i];
      assert msgs[..i + 1][..i] == msgs[..i];
      if entry.path !in keys {
        PathsSnoc(list, entry);
        keys := keys + {entry.path};
        list := list + [entry];
      }
    }
    assert msgs[..|msgs|] == msgs;
  }

  // ---------------------------------------------------------------------
  // sortReqResOrder

  /** The index of the first message of stream `id` and type `t` at or
      after position `from`. */
  function FirstOfFrom(msgs: seq<ProtoByteMsg>, id: nat, t: int, from: nat): (r: Option<nat>)
    decreases |msgs| - from
    ensures r.Some? ==> from <= r.value < |msgs| && msgs[r.value].streamId == id && msgs[r.value].msgType == t
    ensures r.Some? ==> forall j :: from <= j < r.value ==> !(msgs[j].streamId == id && msgs[j].msgType == t)
    ensures r.None? ==> forall j :: from <= j < |msgs| ==> !(msgs[j].streamId == id && msgs[j].msgType == t)
  {
    if from >= |msgs| then None
    else if msgs[from].streamId == id && msgs[from].msgType == t then Some(from)
    else FirstOfFrom(msgs, id, t, from + 1)
  }

  /** The index of the first message of stream `id` and type `t`. */
  function FirstOf(msgs: seq<ProtoByteMsg>, id: nat, t: int): Option<nat>
  {
    FirstOfFrom(msgs, id, t, 0)
  }

  /** The stream ids of `s`. */
  function StreamIds(s: seq<ProtoByteMsg>): set<nat>
  {
    if s == [] then {} else StreamIds(s[..|s| - 1]) + {s[|s| - 1].streamId}
  }

  lemma StreamIdsAppend(s: seq<ProtoByteMsg>, a: ProtoByteMsg, b: ProtoByteMsg)
    ensures StreamIds(s + [a, b]) == StreamIds(s) + {a.streamId, b.streamId}
  {
    assert (s + [a, b])[..|s| + 1] == s + [a];
    assert (s + [a])[..|s|] == s;
  }

  lemma {:induction false} StreamIdsMembership(s: seq<ProtoByteMsg>, id: nat)
    ensures id in StreamIds(s) <==> exists i :: 0 <= i < |s| && s[i].streamId == id
  {
    if s != [] {
      StreamIdsMembership(s[..|s| - 1], id);
      assert forall i :: 0 <= i < |s| - 1 ==> s[..|s| - 1][i] == s[i];
    }
  }

  /** What `sortReqResOrder` has built after looking at the first `n`
      messages: a request whose stream was not paired yet is paired with the
      first response of its stream, when there is one. */
  function Paired(msgs: seq<ProtoByteMsg>, n: nat): (r: seq<ProtoByteMsg>)
    requires n <= |msgs|
    ensures |r| <= 2 * n
  {
    if n == 0 then []
    else
      var s := Paired(msgs, n - 1);
      var m := msgs[n - 1];
      if m.streamId !in StreamIds(s) && m.msgType == Request then
        match FirstOf(msgs, m.streamId, Response)
        case Some(j) => s + [m, msgs[j]]
        case None => s
      else s
  }

  /** The layout of the output: requests at even positions, each followed
      by a response of the same stream, and no stream paired twice. */
  predicate PairedShape(s: seq<ProtoByteMsg>)
  {
    |s| % 2 == 0 &&
    (forall k :: 0 <= k < |s| ==> s[k].msgType == (if k % 2 == 0 then Request else Response)) &&
    (forall k :: 0 < k < |s| && k % 2 == 1 ==> s[k].streamId == s[k - 1].streamId) &&
    (forall a, b :: 0 <= a < b < |s| && a % 2 == 0 && b % 2 == 0 ==> s[a].streamId != s[b].streamId)
  }

  lemma {:induction false} PairedHasShape(msgs: seq<ProtoByteMsg>, n: nat)
    requires n <= |msgs|
    ensures PairedShape(Paired(msgs, n))
  {
    if n > 0 {
      PairedHasShape(msgs, n - 1);
      var s := Paired(msgs, n - 1);
      var m := msgs[n - 1];
      if m.streamId !in StreamIds(s) && m.msgType == Request && FirstOf(msgs, m.streamId, Response).Some? {
        var t := s + [m, msgs[FirstOf(msgs, m.streamId, Response).value]];
        assert Paired(msgs, n) == t;
        forall a | 0 <= a < |s| && a % 2 == 0
          ensures t[a].streamId != t[|s|].streamId
        {
          StreamIdsMembership(s, m.streamId);
        }
      }
    }
  }

  /** Which streams get paired: exactly those with a request among the first
      `n` messages and a response anywhere. */
  lemma {:induction false} PairedStreams(msgs: seq<ProtoByteMsg>, n: nat, id: nat)
    requires n <= |msgs|
    ensures id in StreamIds(Paired(msgs, n)) <==>
      FirstOf(msgs, id, Request).Some? && FirstOf(msgs, id, Request).value < n && FirstOf(msgs, id, Response).Some?
  {
    if n > 0 {
      PairedStreams(msgs, n - 1, id);
      var s := Paired(msgs, n - 1);
      var m := msgs[n - 1];
      if m.streamId !in StreamIds(s) && m.msgType == Request && FirstOf(msgs, m.streamId, Response).Some? {
        StreamIdsAppend(s, m, msgs[FirstOf(msgs, m.streamId, Response).value]);
        if m.streamId == id {
          PairedStreams(msgs, n - 1, id);
        }
      }
    }
  }

  lemma {:induction false} PairedEven(msgs: seq<ProtoByteMsg>, n: nat)
    requires n <= |msgs|
    ensures |Paired(msgs, n)| % 2 == 0
  {
    if n > 0 {
      PairedEven(msgs, n - 1);
    }
  }

  /** The request of a pair is the first request of its stream. */
  predicate FirstRequestAt(msgs: seq<ProtoByteMsg>, s: seq<ProtoByteMsg>, k: nat, n: nat)
    requires k < |s|
  {
    var fr := FirstOf(msgs, s[k].streamId, Request);
    fr.Some? && fr.value < n && s[k] == msgs[fr.value]
  }

  /** The response of a pair is the first response of its stream. */
  predicate FirstResponseAt(msgs: seq<ProtoByteMsg>, s: seq<ProtoByteMsg>, k: nat)
    requires k < |s|
  {
    var fr := FirstOf(msgs, s[k].streamId, Response);
    k + 1 < |s| && fr.Some? && s[k + 1] == msgs[fr.value]
  }

  /** Each pair is the first request and the first response of its stream. */
  lemma {:induction false} PairedFirsts(msgs: seq<ProtoByteMsg>, n: nat)
    requires n <= |msgs|
    ensures var s := Paired(msgs, n);
      forall k :: 0 <= k < |s| && k % 2 == 0 ==> FirstRequestAt(msgs, s, k, n) && FirstResponseAt(msgs, s, k)
  {
    if n > 0 {
      PairedFirsts(msgs, n - 1);
      var s := Paired(msgs, n - 1);
      var m := msgs[n - 1];
      if m.streamId !in StreamIds(s) && m.msgType == Request && FirstOf(msgs, m.streamId, Response).Some? {
        PairedStreams(msgs, n - 1, m.streamId);
        var fr := FirstOf(msgs, m.streamId, Request);
        assert fr.Some? && fr.value == n - 1;
        var t := s + [m, msgs[FirstOf(msgs, m.streamId, Response).value]];
        assert Paired(msgs, n) == t;
        PairedEven(msgs, n - 1);
        forall k | 0 <= k < |t| && k % 2 == 0
          ensures FirstRequestAt(msgs, t, k, n) && FirstResponseAt(msgs, t, k)
        {
          if k < |s| {
            assert FirstRequestAt(msgs, s, k, n - 1) && FirstResponseAt(msgs, s, k);
            assert t[k] == s[k];
            assert k + 1 < |s|;
            assert t[k + 1] == s[k + 1];
          } else {
            assert k == |s| && t[k] == m && t[k + 1] == msgs[FirstOf(msgs, m.streamId, Response).value];
          }
        }
      } else {
        assert Paired(msgs, n) == s;
        forall k | 0 <= k < |s| && k % 2 == 0
          ensures FirstRequestAt(msgs, s, k, n) && FirstResponseAt(msgs, s, k)
        {
          assert 0 <= k < |Paired(msgs, n - 1)| && k % 2 == 0;
          assert FirstRequestAt(msgs, Paired(msgs, n - 1), k, n - 1);
        }
      }
    }
  }

  /** The first request of stream `x` comes before the first request of
      stream `y`. */
  predicate RequestedBefore(msgs: seq<ProtoByteMsg>, x: ProtoByteMsg, y: ProtoByteMsg)
  {
    var fx, fy := FirstOf(msgs, x.streamId, Request), FirstOf(msgs, y.streamId, Request);
    fx.Some? && fy.Some? && fx.value < fy.value
  }

  /** Pairs come in the order of their requests' positions: each pair's
      request comes before the next pair's. */
  lemma {:induction false} PairedInOrder(msgs: seq<ProtoByteMsg>, n: nat)
    requires n <= |msgs|
    ensures var s := Paired(msgs, n);
      forall a :: 0 <= a && a + 2 < |s| && a % 2 == 0 ==> RequestedBefore(msgs, s[a], s[a + 2])
  {
    if n > 0 {
      PairedInOrder(msgs, n - 1);
      var s := Paired(msgs, n - 1);
      var m := msgs[n - 1];
      if m.streamId !in StreamIds(s) && m.msgType == Request && FirstOf(msgs, m.streamId, Response).Some? {
        PairedInOrderGrow(msgs, n);
      } else {
        assert Paired(msgs, n) == s;
      }
    }
  }

  /** The step of `PairedInOrder` that appends a pair. */
  lemma PairedInOrderGrow(msgs: seq<ProtoByteMsg>, n: nat)
    requires 0 < n <= |msgs|
    requires var s := Paired(msgs, n - 1);
      forall a :: 0 <= a && a + 2 < |s| && a % 2 == 0 ==> RequestedBefore(msgs, s[a], s[a + 2])
    requires var s, m := Paired(msgs, n - 1), msgs[n - 1];
      m.streamId !in StreamIds(s) && m.msgType == Request && FirstOf(msgs, m.streamId, Response).Some?
    ensures var s := Paired(msgs, n);
      forall a :: 0 <= a && a + 2 < |s| && a % 2 == 0 ==> RequestedBefore(msgs, s[a], s[a + 2])
  {
    var s := Paired(msgs, n - 1);
    var m := msgs[n - 1];
    var t := s + [m, msgs[FirstOf(msgs, m.streamId, Response).value]];
    assert Paired(msgs, n) == t;
    PairedEven(msgs, n - 1);
    forall a | 0 <= a && a + 2 < |t| && a % 2 == 0
      ensures RequestedBefore(msgs, t[a], t[a + 2])
    {
      if a + 2 < |s| {
        assert RequestedBefore(msgs, s[a], s[a + 2]);
        assert t[a] == s[a] && t[a + 2] == s[a + 2];
      } else {
        assert a == |s| - 2;
        PairedInOrderLast(msgs, n);
        assert t[a] == s[a] && t[a + 2] == m;
      }
    }
  }

  /** The request of the last pair built so far comes before a request
      that opens a new pair. */
  lemma PairedInOrderLast(msgs: seq<ProtoByteMsg>, n: nat)
    requires 0 < n <= |msgs| && |Paired(msgs, n - 1)| >= 2 && |Paired(msgs, n - 1)| % 2 == 0
    requires var s, m := Paired(msgs, n - 1), msgs[n - 1];
      m.streamId !in StreamIds(s) && m.msgType == Request && FirstOf(msgs, m.streamId, Response).Some?
    ensures var s := Paired(msgs, n - 1); RequestedBefore(msgs, s[|s| - 2], msgs[n - 1])
  {
    var s, m := Paired(msgs, n - 1), msgs[n - 1];
    var a := |s| - 2;
    PairedFirsts(msgs, n - 1);
    assert FirstRequestAt(msgs, s, a, n - 1);
    PairedStreams(msgs, n - 1, m.streamId);
    var fy := FirstOf(msgs, m.streamId, Request);
    assert fy.Some? && fy.value <= n - 1;
    assert fy.value >= n - 1;
  }

  /** `sortReqResOrder(msgs)`. */
  method SortReqResOrder(msgs: seq<ProtoByteMsg>) returns (sorted: seq<ProtoByteMsg>)
    ensures sorted == Paired(msgs, |msgs|)
  {
    sorted := [];
    var keys: set<nat> := {};
    for i := 0 to |msgs|
      invariant sorted == Paired(msgs, i)
      invariant keys == StreamIds(sorted)
    {
      if msgs[i].streamId !in keys && msgs[i].msgType == Request {
        var j := 0;
        while j < |msgs|
          invariant 0 <= j <= |msgs|
          invariant FirstOfFrom(msgs, msgs[i].streamId, Response, j) == FirstOf(msgs, msgs[i].streamId, Response)
        {
          if msgs[i].streamId == msgs[j].streamId && msgs[j].msgType == Response {
            StreamIdsAppend(sorted, msgs[i], msgs[j]);
            sorted := sorted + [msgs[i], msgs[j]];
            keys := keys + {msgs[i].streamId};
            break;
          }
          j := j + 1;
        }
      }
    }
  }

  /** Every message of the output of `sortReqResOrder` is an input message. */
  lemma {:induction false} PairedFromInput(msgs: seq<ProtoByteMsg>, n: nat)
    requires n <= |msgs|
    ensures forall x :: x in Paired(msgs, n) ==> x in msgs
  {
    if n > 0 {
      PairedFromInput(msgs, n - 1);
    }
  }

  // ---------------------------------------------------------------------
  // getRelationshipsFromFields and DissectMsgsCommonFields

  /** How a defect of the source is read: as the code is written, or as its
      authors evidently meant it. It selects the value comparison of
      `getRelationshipsFromFields` (Go's `==`, which panics on uncomparable
      values, or a comparison of contents) and the bound of the second
      counting loop of `CalculateRelationMatrix`. */
  datatype Reading = AsWritten | Intended

  /** A decoded message: field name to value. */
  type DynMessage = map<string, Value>

  /** What `GetField` answers for a field the message does not set: its
      default value, one fixed token in this model. */
  const Unset: Value := Opaque(0)

  /** `msg.GetField(fd)`: the value the message holds for the field, or
      the default when it holds none. */
  function GetField(m: DynMessage, fd: FieldDescriptor): (v: Value)
    ensures fd.name in m ==> v == m[fd.name]
    ensures fd.name !in m ==> v == Unset
  {
    if fd.name in m then m[fd.name] else Unset
  }

  /** The values of the two fields are both `[]interface{}` (two repeated
      fields; map fields are repeated too) or both `[]byte` (two singular
      bytes fields): Go types without `==`. */
  predicate Uncomparable(fd1: FieldDescriptor, fd2: FieldDescriptor)
  {
    fd1.repeated == fd2.repeated && (fd1.repeated || (fd1.ftype == TBytes && fd2.ftype == TBytes))
  }

  /** `val1 == val2` on the two `interface{}` values; `None` is the runtime
      panic. A repeated and a singular field hold values of different
      dynamic types, which Go reports unequal. */
  function ValuesEqual(fd1: FieldDescriptor, fd2: FieldDescriptor, v1: Value, v2: Value, rd: Reading)
    : (r: Option<bool>)
    ensures r.None? <==> rd == AsWritten && Uncomparable(fd1, fd2)
    ensures r == Some(true) <==> fd1.repeated == fd2.repeated && v1 == v2 && !(rd == AsWritten && Uncomparable(fd1, fd2))
  {
    if fd1.repeated != fd2.repeated then Some(false)
    else if rd == AsWritten && Uncomparable(fd1, fd2) then None
    else Some(v1 == v2)
  }

  /** `getRelationshipsFromFields` reaches a value comparison: the two
      fields have the same type and one lower-cased name contains the
      other (an equal name contains itself). */
  predicate Compared(fd1: FieldDescriptor, fd2: FieldDescriptor)
  {
    var n1, n2 := ToLower(fd1.name), ToLower(fd2.name);
    fd1.ftype == fd2.ftype && (Contains(n1, n2) || Contains(n2, n1))
  }

  /** The rule of `getRelationshipsFromFields`: the comparison is reached
      and finds the values equal. */
  predicate Related(fd1: FieldDescriptor, fd2: FieldDescriptor, v1: Value, v2: Value, rd: Reading)
  {
    Compared(fd1, fd2) && ValuesEqual(fd1, fd2, v1, v2, rd) == Some(true)
  }

  /** Related fields have one type, one repeatedness and equal values, and
      the pair does not panic. */
  lemma RelatedMeansEqual(fd1: FieldDescriptor, fd2: FieldDescriptor, v1: Value, v2: Value, rd: Reading)
    requires Related(fd1, fd2, v1, v2, rd)
    ensures fd1.ftype == fd2.ftype && fd1.repeated == fd2.repeated && v1 == v2 && !Panics(fd1, fd2, rd)
  {
  }

  /** `getRelationshipsFromFields` panics on the pair, whatever the values. */
  predicate Panics(fd1: FieldDescriptor, fd2: FieldDescriptor, rd: Reading)
  {
    Compared(fd1, fd2) && rd == AsWritten && Uncomparable(fd1, fd2)
  }

  /** One step of the dependency map: `fd1`'s fully qualified name mapped to
      `fd2`'s when the pair is related. */
  function RelateStep(deps: map<string, string>, fd1: FieldDescriptor, fd2: FieldDescriptor,
                      m1: DynMessage, m2: DynMessage, rd: Reading): map<string, string>
  {
    if Related(fd1, fd2, GetField(m1, fd1), GetField(m2, fd2), rd) then deps[fd1.fullName := fd2.fullName] else deps
  }

  lemma ContainsItself(s: string)
    ensures Contains(s, s)
  {
    assert OccursAt(s, s, 0) by { assert s[0..|s|] == s; }
  }

  /** `getRelationshipsFromFields(fd1, fd2, msg1, msg2, deps)`: it panics
      exactly on a compared uncomparable pair; otherwise the check for
      equal names is subsumed by the check for containment, so the map
      changes exactly when the pair is related. */
  method RelateFields(fd1: FieldDescriptor, fd2: FieldDescriptor, msg1: DynMessage, msg2: DynMessage,
                      deps: map<string, string>, rd: Reading) returns (deps': map<string, string>, panicked: bool)
    ensures panicked <==> Panics(fd1, fd2, rd)
    ensures !panicked ==> deps' == RelateStep(deps, fd1, fd2, msg1, msg2, rd)
  {
    var val1, val2 := GetField(msg1, fd1), GetField(msg2, fd2);
    var fName1, fName2 := ToLower(fd1.name), ToLower(fd2.name);
    deps', panicked := deps, false;
    if fd1.ftype != fd2.ftype {
      return;
    }
    if fName1 == fName2 {
      ContainsItself(fName1);
      var eq := ValuesEqual(fd1, fd2, val1, val2, rd);
      if eq.None? {
        return deps', true;
      }
      if eq.value {
        deps' := deps'[fd1.fullName := fd2.fullName];
      }
    }
    if Contains(fName1, fName2) || Contains(fName2, fName1) {
      var eq := ValuesEqual(fd1, fd2, val1, val2, rd);
      if eq.None? {
        return deps', true;
      }
      if eq.value {
        deps' := deps'[fd1.fullName := fd2.fullName];
      }
    }
  }

  /** The rule, and its panic, do not care which message comes first. */
  lemma RelatedSymmetric(fd1: FieldDescriptor, fd2: FieldDescriptor, v1: Value, v2: Value, rd: Reading)
    ensures Related(fd1, fd2, v1, v2, rd) <==> Related(fd2, fd1, v2, v1, rd)
    ensures Panics(fd1, fd2, rd) <==> Panics(fd2, fd1, rd)
  {
  }

  /** Fields whose names agree up to case: as written, the comparison
      panics exactly when their types agree and both are repeated or both
      are singular bytes fields; otherwise they are related exactly when
      type, repeatedness and value agree. Fields of different types are
      never compared. */
  lemma RelatedSameName(fd1: FieldDescriptor, fd2: FieldDescriptor, v1: Value, v2: Value, rd: Reading)
    ensures ToLower(fd1.name) == ToLower(fd2.name) ==>
      (Panics(fd1, fd2, rd) <==>
         rd == AsWritten && fd1.ftype == fd2.ftype && fd1.repeated == fd2.repeated &&
         (fd1.repeated || fd1.ftype == TBytes))
    ensures ToLower(fd1.name) == ToLower(fd2.name) ==>
      (Related(fd1, fd2, v1, v2, rd) <==>
         fd1.ftype == fd2.ftype && fd1.repeated == fd2.repeated && v1 == v2 && !Panics(fd1, fd2, rd))
    ensures fd1.ftype != fd2.ftype ==> !Related(fd1, fd2, v1, v2, rd) && !Panics(fd1, fd2, rd)
  {
    ContainsItself(ToLower(fd1.name));
  }

  /** As written, two singular bytes fields, or two repeated fields, of the
      same type and the same name up to case crash the analysis whatever
      their values; read as intended they are related exactly when their
      contents are equal. */
  lemma UncomparableFieldsPanic(fd1: FieldDescriptor, fd2: FieldDescriptor, v1: Value, v2: Value)
    requires ToLower(fd1.name) == ToLower(fd2.name) && fd1.ftype == fd2.ftype
    requires (fd1.repeated && fd2.repeated) || (!fd1.repeated && !fd2.repeated && fd1.ftype == TBytes)
    ensures Panics(fd1, fd2, AsWritten) && !Related(fd1, fd2, v1, v2, AsWritten)
    ensures !Panics(fd1, fd2, Intended) && (Related(fd1, fd2, v1, v2, Intended) <==> v1 == v2)
  {
    ContainsItself(ToLower(fd1.name));
  }

  /** The dependency map after `fd1` met the fields `fs2` in order. */
  function RowDeps(deps: map<string, string>, fd1: FieldDescriptor, fs2: seq<FieldDescriptor>,
                   m1: DynMessage, m2: DynMessage, rd: Reading): map<string, string>
  {
    if fs2 == [] then deps
    else RelateStep(RowDeps(deps, fd1, fs2[..|fs2| - 1], m1, m2, rd), fd1, fs2[|fs2| - 1], m1, m2, rd)
  }

  /** The dependency map after every field of `fs1` met every field of
      `fs2`, in the nested loop order. */
  function FieldDeps(deps: map<string, string>, fs1: seq<FieldDescriptor>, fs2: seq<FieldDescriptor>,
                     m1: DynMessage, m2: DynMessage, rd: Reading): map<string, string>
  {
    if fs1 == [] then deps
    else RowDeps(FieldDeps(deps, fs1[..|fs1| - 1], fs2, m1, m2, rd), fs1[|fs1| - 1], fs2, m1, m2, rd)
  }

  /** `fd1` is related to field `j` of the second message. */
  predicate RowRelated(fd1: FieldDescriptor, fs2: seq<FieldDescriptor>, m1: DynMessage, m2: DynMessage,
                       rd: Reading, j: int)
  {
    0 <= j < |fs2| && Related(fd1, fs2[j], GetField(m1, fd1), GetField(m2, fs2[j]), rd)
  }

  /** Field `i` of the first message and field `j` of the second are related. */
  predicate RelatedPair(fs1: seq<FieldDescriptor>, fs2: seq<FieldDescriptor>, m1: DynMessage, m2: DynMessage,
                        rd: Reading, i: int, j: int)
  {
    0 <= i < |fs1| && RowRelated(fs1[i], fs2, m1, m2, rd, j)
  }

  /** Some field of the first list and some field of the second make the
      comparison panic. */
  predicate SomePairPanics(fs1: seq<FieldDescriptor>, fs2: seq<FieldDescriptor>, rd: Reading)
  {
    exists i, j :: 0 <= i < |fs1| && 0 <= j < |fs2| && Panics(fs1[i], fs2[j], rd)
  }

  /** Keys are never removed, and a related pair always leaves its key. */
  lemma {:induction false} RowDepsComplete(deps: map<string, string>, fd1: FieldDescriptor, fs2: seq<FieldDescriptor>,
                                           m1: DynMessage, m2: DynMessage, rd: Reading)
    ensures deps.Keys <= RowDeps(deps, fd1, fs2, m1, m2, rd).Keys
    ensures (exists j :: RowRelated(fd1, fs2, m1, m2, rd, j)) ==> fd1.fullName in RowDeps(deps, fd1, fs2, m1, m2, rd)
  {
    if fs2 != [] {
      var init := fs2[..|fs2| - 1];
      RowDepsComplete(deps, fd1, init, m1, m2, rd);
      var r := RowDeps(deps, fd1, init, m1, m2, rd);
      assert RowDeps(deps, fd1, fs2, m1, m2, rd) == RelateStep(r, fd1, fs2[|fs2| - 1], m1, m2, rd);
      if exists j :: RowRelated(fd1, fs2, m1, m2, rd, j) {
        var j :| RowRelated(fd1, fs2, m1, m2, rd, j);
        if j < |init| {
          assert init[j] == fs2[j];
          assert RowRelated(fd1, init, m1, m2, rd, j);
        }
      }
    }
  }

  lemma {:induction false} RowDepsValues(deps: map<string, string>, fd1: FieldDescriptor, fs2: seq<FieldDescriptor>,
                                         m1: DynMessage, m2: DynMessage, rd: Reading, k: string)
    requires k in RowDeps(deps, fd1, fs2, m1, m2, rd)
    ensures (k in deps && RowDeps(deps, fd1, fs2, m1, m2, rd)[k] == deps[k]) ||
      (k == fd1.fullName && exists j :: RowRelated(fd1, fs2, m1, m2, rd, j) && RowDeps(deps, fd1, fs2, m1, m2, rd)[k] == fs2[j].fullName)
  {
    if fs2 != [] {
      var init := fs2[..|fs2| - 1];
      var r := RowDeps(deps, fd1, init, m1, m2, rd);
      var last := |fs2| - 1;
      if Related(fd1, fs2[last], GetField(m1, fd1), GetField(m2, fs2[last]), rd) && k == fd1.fullName {
        assert RowRelated(fd1, fs2, m1, m2, rd, last);
      } else {
        RowDepsValues(deps, fd1, init, m1, m2, rd, k);
        if !(k in deps && r[k] == deps[k]) {
          var j :| RowRelated(fd1, init, m1, m2, rd, j) && r[k] == init[j].fullName;
          assert init[j] == fs2[j];
          assert RowRelated(fd1, fs2, m1, m2, rd, j);
        }
      }
    }
  }

  /** Every field of the first message related to some field of the
      second leaves its fully qualified name as a key. */
  lemma {:induction false} FieldDepsComplete(deps: map<string, string>, fs1: seq<FieldDescriptor>, fs2: seq<FieldDescriptor>,
                                             m1: DynMessage, m2: DynMessage, rd: Reading, i: int, j: int)
    requires RelatedPair(fs1, fs2, m1, m2, rd, i, j)
    ensures fs1[i].fullName in FieldDeps(deps, fs1, fs2, m1, m2, rd)
  {
    var init, last := fs1[..|fs1| - 1], fs1[|fs1| - 1];
    var mid := FieldDeps(deps, init, fs2, m1, m2, rd);
    assert FieldDeps(deps, fs1, fs2, m1, m2, rd) == RowDeps(mid, last, fs2, m1, m2, rd);
    RowDepsComplete(mid, last, fs2, m1, m2, rd);
    if i < |init| {
      assert init[i] == fs1[i];
      FieldDepsComplete(deps, init, fs2, m1, m2, rd, i, j);
    } else {
      assert RowRelated(last, fs2, m1, m2, rd, j);
    }
  }

  /** Each key of the dependency map is mapped to the fully qualified name
      of a field it is related to. */
  lemma {:induction false} FieldDepsValues(deps: map<string, string>, fs1: seq<FieldDescriptor>, fs2: seq<FieldDescriptor>,
                                           m1: DynMessage, m2: DynMessage, rd: Reading, k: string)
    requires k in FieldDeps(deps, fs1, fs2, m1, m2, rd)
    ensures (k in deps && FieldDeps(deps, fs1, fs2, m1, m2, rd)[k] == deps[k]) ||
      exists i, j :: RelatedPair(fs1, fs2, m1, m2, rd, i, j) && fs1[i].fullName == k &&
                     FieldDeps(deps, fs1, fs2, m1, m2, rd)[k] == fs2[j].fullName
  {
    if fs1 != [] {
      var init, last := fs1[..|fs1| - 1], fs1[|fs1| - 1];
      var mid := FieldDeps(deps, init, fs2, m1, m2, rd);
      var r := FieldDeps(deps, fs1, fs2, m1, m2, rd);
      RowDepsValues(mid, last, fs2, m1, m2, rd, k);
      if k in mid && r[k] == mid[k] {
        FieldDepsValues(deps, init, fs2, m1, m2, rd, k);
        if !(k in deps && mid[k] == deps[k]) {
          var i, j :| RelatedPair(init, fs2, m1, m2, rd, i, j) && init[i].fullName == k && mid[k] == fs2[j].fullName;
          assert init[i] == fs1[i];
          assert RelatedPair(fs1, fs2, m1, m2, rd, i, j);
        }
      } else {
        var j :| RowRelated(last, fs2, m1, m2, rd, j) && k == last.fullName && r[k] == fs2[j].fullName;
        assert RelatedPair(fs1, fs2, m1, m2, rd, |fs1| - 1, j);
      }
    }
  }

  /** The answer of `DissectMsgsCommonFields`: a dependency, the names of
      two unrelated messages (returned beside an error), an error, or the
      runtime panic of a value comparison. */
  datatype Dissection = Dependent(dep: MsgValDep) | Unrelated(dep: MsgValDep) | Refused(reason: string) | Crashed

  /** A captured message: its payload and its descriptor are present (the
      analysis dereferences both). */
  predicate Captured(m: ProtoByteMsg)
  {
    m.message.Some? && m.descriptor.Some?
  }

  /** What `DissectMsgsCommonFields(msg1, msg2)` answers. A panic in the
      nested loop discards the map, so it crashes whichever pair panics
      first. */
  function Dissect(msg1: ProtoByteMsg, msg2: ProtoByteMsg,
                   unmarshal: (MessageDescriptor, seq<Byte>) -> Option<DynMessage>, rd: Reading): Dissection
    requires Captured(msg1) && Captured(msg2)
  {
    if msg1.path == msg2.path then Refused("Both messages are for the same method!")
    else if |msg1.message.value| == 0 || |msg2.message.value| == 0 then Refused("Message contents should not be empty!")
    else match (HexDecode(msg1.message.value), HexDecode(msg2.message.value))
      case (None, _) => Refused("Failed to decode msg1 message")
      case (_, None) => Refused("Failed to decode msg2 message")
      case (Some(buf1), Some(buf2)) =>
        var d1, d2 := msg1.descriptor.value, msg2.descriptor.value;
        match (unmarshal(d1, buf1), unmarshal(d2, buf2))
        case (None, _) => Refused("Failed to unmarshal msg1 contents!")
        case (_, None) => Refused("Failed to unmarshal msg2 contents!")
        case (Some(m1), Some(m2)) =>
          if SomePairPanics(d1.fields, d2.fields, rd) then Crashed
          else
            var dep := MsgValDep(d1.name, d2.name, FieldDeps(map[], d1.fields, d2.fields, m1, m2, rd));
            if |dep.relations| > 0 then Dependent(dep) else Unrelated(dep)
  }

  /** `DissectMsgsCommonFields(msg1, msg2)`. */
  method DissectMsgsCommonFields(msg1: ProtoByteMsg, msg2: ProtoByteMsg,
                                 unmarshal: (MessageDescriptor, seq<Byte>) -> Option<DynMessage>, rd: Reading)
    returns (r: Dissection)
    requires Captured(msg1) && Captured(msg2)
    ensures r == Dissect(msg1, msg2, unmarshal, rd)
  {
    if msg1.path == msg2.path {
      return Refused("Both messages are for the same method!");
    }
    if |msg1.message.value| == 0 || |msg2.message.value| == 0 {
      return Refused("Message contents should not be empty!");
    }
    var buf1 := HexDecode(msg1.message.value);
    if buf1.None? {
      return Refused("Failed to decode msg1 message");
    }
    var buf2 := HexDecode(msg2.message.value);
    if buf2.None? {
      return Refused("Failed to decode msg2 message");
    }
    var d1, d2 := msg1.descriptor.value, msg2.descriptor.value;
    var pbMsg1 := unmarshal(d1, buf1.value);
    if pbMsg1.None? {
      return Refused("Failed to unmarshal msg1 contents!");
    }
    var pbMsg2 := unmarshal(d2, buf2.value);
    if pbMsg2.None? {
      return Refused("Failed to unmarshal msg2 contents!");
    }
    var deps, panicked := RelateAllFields(d1.fields, d2.fields, pbMsg1.value, pbMsg2.value, rd);
    if panicked {
      return Crashed;
    }
    var dep := MsgValDep(d1.name, d2.name, deps);
    if |deps| > 0 {
      r := Dependent(dep);
    } else {
      r := Unrelated(dep);
    }
  }

  /** The nested loop of `DissectMsgsCommonFields` over the fields of both
      descriptors: it panics exactly when some pair is uncomparable, and
      otherwise builds the dependency map. */
  method RelateAllFields(fs1: seq<FieldDescriptor>, fs2: seq<FieldDescriptor>, m1: DynMessage, m2: DynMessage,
                         rd: Reading) returns (deps: map<string, string>, panicked: bool)
    ensures panicked <==> SomePairPanics(fs1, fs2, rd)
    ensures !panicked ==> deps == FieldDeps(map[], fs1, fs2, m1, m2, rd)
  {
    deps, panicked := map[], false;
    for i := 0 to |fs1|
      invariant deps == FieldDeps(map[], fs1[..i], fs2, m1, m2, rd)
      invariant forall i', j' :: 0 <= i' < i && 0 <= j' < |fs2| ==> !Panics(fs1[i'], fs2[j'], rd)
    {
      deps, panicked := RelateRow(fs1[i], fs2, m1, m2, deps, rd);
      if panicked {
        var j :| 0 <= j < |fs2| && Panics(fs1[i], fs2[j], rd);
        return;
      }
      assert fs1[..i + 1][..i] == fs1[..i];
    }
    assert fs1[..|fs1|] == fs1;
  }

  /** The inner loop: field `fd1` of the first message against every field
      of the second, in order. */
  method RelateRow(fd1: FieldDescriptor, fs2: seq<FieldDescriptor>, m1: DynMessage, m2: DynMessage,
                   deps: map<string, string>, rd: Reading) returns (deps': map<string, string>, panicked: bool)
    ensures panicked <==> exists j :: 0 <= j < |fs2| && Panics(fd1, fs2[j], rd)
    ensures !panicked ==> deps' == RowDeps(deps, fd1, fs2, m1, m2, rd)
  {
    deps', panicked := deps, false;
    for j := 0 to |fs2|
      invariant deps' == RowDeps(deps, fd1, fs2[..j], m1, m2, rd)
      invariant forall j' :: 0 <= j' < j ==> !Panics(fd1, fs2[j'], rd)
    {
      assert fs2[..j + 1][..j] == fs2[..j];
      deps', panicked := RelateFields(fd1, fs2[j], m1, m2, deps', rd);
      if panicked {
        return;
      }
    }
    assert fs2[..|fs2|] == fs2;
  }

  /** The guards of `DissectMsgsCommonFields`, the crash of its value
      comparison, and the names it returns whether or not a relation was
      found. */
  lemma DissectAnswers(msg1: ProtoByteMsg, msg2: ProtoByteMsg,
                       unmarshal: (MessageDescriptor, seq<Byte>) -> Option<DynMessage>, rd: Reading)
    requires Captured(msg1) && Captured(msg2)
    ensures msg1.path == msg2.path ==> Dissect(msg1, msg2, unmarshal, rd) == Refused("Both messages are for the same method!")
    ensures msg1.path != msg2.path && (msg1.message.value == "" || msg2.message.value == "") ==>
      Dissect(msg1, msg2, unmarshal, rd) == Refused("Message contents should not be empty!")
    ensures !Dissect(msg1, msg2, unmarshal, rd).Refused? ==>
      msg1.path != msg2.path && msg1.message.value != "" && msg2.message.value != "" &&
      (Dissect(msg1, msg2, unmarshal, rd).Crashed? <==>
         SomePairPanics(msg1.descriptor.value.fields, msg2.descriptor.value.fields, rd))
    ensures Dissect(msg1, msg2, unmarshal, rd).Dependent? || Dissect(msg1, msg2, unmarshal, rd).Unrelated? ==>
      Dissect(msg1, msg2, unmarshal, rd).dep.msg1 == msg1.descriptor.value.name &&
      Dissect(msg1, msg2, unmarshal, rd).dep.msg2 == msg2.descriptor.value.name &&
      (Dissect(msg1, msg2, unmarshal, rd).Dependent? <==> |Dissect(msg1, msg2, unmarshal, rd).dep.relations| > 0)
  {
  }

  /** Read as intended, the comparison never panics and the dissection
      never crashes; its dependencies are then exactly those of the written
      code on messages without uncomparable pairs. */
  lemma {:induction false} IntendedNeverCrashes(msg1: ProtoByteMsg, msg2: ProtoByteMsg,
                                                unmarshal: (MessageDescriptor, seq<Byte>) -> Option<DynMessage>)
    requires Captured(msg1) && Captured(msg2)
    ensures !Dissect(msg1, msg2, unmarshal, Intended).Crashed?
    ensures !SomePairPanics(msg1.descriptor.value.fields, msg2.descriptor.value.fields, AsWritten) ==>
      Dissect(msg1, msg2, unmarshal, AsWritten) == Dissect(msg1, msg2, unmarshal, Intended)
  {
    var fs1, fs2 := msg1.descriptor.value.fields, msg2.descriptor.value.fields;
    if !SomePairPanics(fs1, fs2, AsWritten) {
      forall m1: DynMessage, m2: DynMessage
        ensures FieldDeps(map[], fs1, fs2, m1, m2, AsWritten) == FieldDeps(map[], fs1, fs2, m1, m2, Intended)
      {
        FieldDepsReadingsAgree(map[], fs1, fs2, m1, m2);
      }
    }
  }

  /** On fields no pair of which panics as written, both readings build the
      same dependency map. */
  lemma {:induction false} FieldDepsReadingsAgree(deps: map<string, string>, fs1: seq<FieldDescriptor>,
                                                  fs2: seq<FieldDescriptor>, m1: DynMessage, m2: DynMessage)
    requires !SomePairPanics(fs1, fs2, AsWritten)
    ensures FieldDeps(deps, fs1, fs2, m1, m2, AsWritten) == FieldDeps(deps, fs1, fs2, m1, m2, Intended)
  {
    if fs1 != [] {
      var init, last := fs1[..|fs1| - 1], fs1[|fs1| - 1];
      assert !SomePairPanics(init, fs2, AsWritten) by {
        forall i, j | 0 <= i < |init| && 0 <= j < |fs2|
          ensures !Panics(init[i], fs2[j], AsWritten)
        {
          assert init[i] == fs1[i];
        }
      }
      FieldDepsReadingsAgree(deps, init, fs2, m1, m2);
      RowDepsReadingsAgree(FieldDeps(deps, init, fs2, m1, m2, AsWritten), last, fs2, m1, m2);
    }
  }

  lemma {:induction false} RowDepsReadingsAgree(deps: map<string, string>, fd1: FieldDescriptor,
                                                fs2: seq<FieldDescriptor>, m1: DynMessage, m2: DynMessage)
    requires forall j :: 0 <= j < |fs2| ==> !Panics(fd1, fs2[j], AsWritten)
    ensures RowDeps(deps, fd1, fs2, m1, m2, AsWritten) == RowDeps(deps, fd1, fs2, m1, m2, Intended)
  {
    if fs2 != [] {
      var init := fs2[..|fs2| - 1];
      assert forall j :: 0 <= j < |init| ==> init[j] == fs2[j];
      RowDepsReadingsAgree(deps, fd1, init, m1, m2);
      assert !Panics(fd1, fs2[|fs2| - 1], AsWritten);
    }
  }

  // ---------------------------------------------------------------------
  // CalculateReqResRelations

  /** The de-duplication key `fmt.Sprintf("%s:%s", Msg1, Msg2)`. */
  function KeyOf(d: MsgValDep): string
  {
    d.msg1 + ":" + d.msg2
  }

  /** The position of the first colon of `k`, or its length. */
  function ColonAt(k: string): (i: nat)
    ensures i <= |k|
  {
    if k == [] || k[0] == ':' then 0 else 1 + ColonAt(k[1..])
  }

  lemma {:induction false} ColonAfter(s: string, t: string)
    requires ':' !in s
    ensures ColonAt(s + ":" + t) == |s|
  {
    if s != [] {
      assert (s + ":" + t)[1..] == s[1..] + ":" + t;
      ColonAfter(s[1..], t);
    }
  }

  /** The key determines the pair of message names when neither first name
      holds a colon, as protobuf message names never do. */
  lemma KeyOfInjective(d1: MsgValDep, d2: MsgValDep)
    requires ':' !in d1.msg1 && ':' !in d2.msg1
    requires KeyOf(d1) == KeyOf(d2)
    ensures d1.msg1 == d2.msg1 && d1.msg2 == d2.msg2
  {
    var k := KeyOf(d1);
    ColonAfter(d1.msg1, d1.msg2);
    ColonAfter(d2.msg1, d2.msg2);
    assert d1.msg1 == k[..|d1.msg1|] == d2.msg1;
    assert d1.msg2 == k[|d1.msg1| + 1..] == d2.msg2;
  }

  function Keys(rels: seq<MsgValDep>): set<string>
  {
    if rels == [] then {} else Keys(rels[..|rels| - 1]) + {KeyOf(rels[|rels| - 1])}
  }

  lemma KeysSnoc(rels: seq<MsgValDep>, d: MsgValDep)
    ensures Keys(rels + [d]) == Keys(rels) + {KeyOf(d)}
  {
    assert (rels + [d])[..|rels|] == rels;
  }

  lemma {:induction false} KeysMembership(rels: seq<MsgValDep>, key: string)
    ensures key in Keys(rels) <==> exists i :: 0 <= i < |rels| && KeyOf(rels[i]) == key
  {
    if rels != [] {
      KeysMembership(rels[..|rels| - 1], key);
      assert forall i :: 0 <= i < |rels| - 1 ==> rels[..|rels| - 1][i] == rels[i];
    }
  }

  /** Every message of `a` is captured. */
  predicate AllCaptured(a: seq<ProtoByteMsg>)
  {
    forall m :: m in a ==> Captured(m)
  }

  /** The number of iterations: `len(aMsgs) - 2`, none when that is not
      positive. */
  function Iterations(a: seq<ProtoByteMsg>): nat
  {
    if |a| >= 2 then |a| - 2 else 0
  }

  /** The answers of the first `n` iterations; iteration `i` dissects the
      pair (a[i + 1], a[i + 2]). */
  function Examinations(a: seq<ProtoByteMsg>, unmarshal: (MessageDescriptor, seq<Byte>) -> Option<DynMessage>,
                        rd: Reading, n: nat): (outs: seq<Dissection>)
    requires AllCaptured(a) && n <= Iterations(a)
    ensures |outs| == n
  {
    if n == 0 then [] else Examinations(a, unmarshal, rd, n - 1) + [Dissect(a[n], a[n + 1], unmarshal, rd)]
  }

  /** Answer `k` of the first `n` iterations is the dissection of
      (a[k + 1], a[k + 2]). */
  lemma {:induction false} ExaminationsAt(a: seq<ProtoByteMsg>, unmarshal: (MessageDescriptor, seq<Byte>) -> Option<DynMessage>,
                                          rd: Reading, n: nat, k: nat)
    requires AllCaptured(a) && n <= Iterations(a) && k < n
    ensures a[k + 1] in a && a[k + 2] in a
    ensures Examinations(a, unmarshal, rd, n)[k] == Dissect(a[k + 1], a[k + 2], unmarshal, rd)
  {
    if k < n - 1 {
      ExaminationsAt(a, unmarshal, rd, n - 1, k);
    }
  }

  /** Iteration `k` panics. */
  predicate PairCrashes(a: seq<ProtoByteMsg>, unmarshal: (MessageDescriptor, seq<Byte>) -> Option<DynMessage>,
                        rd: Reading, k: int)
    requires AllCaptured(a)
  {
    0 <= k < Iterations(a) && Dissect(a[k + 1], a[k + 2], unmarshal, rd).Crashed?
  }

  /** Some answer is the runtime panic. */
  predicate AnyCrashed(outs: seq<Dissection>)
  {
    exists k :: 0 <= k < |outs| && outs[k].Crashed?
  }

  /** The dependency list built from a sequence of answers: a dependency is
      appended when no dependency with its key was appended before. */
  function KeepFirstKeys(outs: seq<Dissection>): seq<MsgValDep>
  {
    if outs == [] then []
    else
      var r := KeepFirstKeys(outs[..|outs| - 1]);
      var e := outs[|outs| - 1];
      if e.Dependent? && KeyOf(e.dep) !in Keys(r) then r + [e.dep] else r
  }

  lemma KeepFirstKeysSnoc(outs: seq<Dissection>, e: Dissection)
    ensures KeepFirstKeys(outs + [e]) ==
      if e.Dependent? && KeyOf(e.dep) !in Keys(KeepFirstKeys(outs)) then KeepFirstKeys(outs) + [e.dep]
      else KeepFirstKeys(outs)
  {
    assert (outs + [e])[..|outs|] == outs;
  }

  /** One iteration of `CalculateReqResRelations`: dissect the pair and
      append its dependency when its key is new; report the panic. */
  method DissectAndKeep(m1: ProtoByteMsg, m2: ProtoByteMsg,
                        unmarshal: (MessageDescriptor, seq<Byte>) -> Option<DynMessage>, rd: Reading,
                        rels: seq<MsgValDep>, keys: set<string>, ghost outs: seq<Dissection>)
    returns (rels': seq<MsgValDep>, keys': set<string>, crashed: bool, ghost outs': seq<Dissection>)
    requires Captured(m1) && Captured(m2)
    requires rels == KeepFirstKeys(outs) && keys == Keys(rels)
    ensures outs' == outs + [Dissect(m1, m2, unmarshal, rd)]
    ensures crashed <==> Dissect(m1, m2, unmarshal, rd).Crashed?
    ensures rels' == KeepFirstKeys(outs') && keys' == Keys(rels')
  {
    var dp := DissectMsgsCommonFields(m1, m2, unmarshal, rd);
    KeepFirstKeysSnoc(outs, dp);
    outs' := outs + [dp];
    rels', keys', crashed := rels, keys, dp.Crashed?;
    if dp.Dependent? {
      var mKey := dp.dep.msg1 + ":" + dp.dep.msg2;
      if mKey !in keys {
        KeysSnoc(rels, dp.dep);
        rels' := rels + [dp.dep];
        keys' := keys + {mKey};
      }
    }
  }

  /** What `CalculateReqResRelations(msgs)` returns: the dependency list
      of the dissections of the request/response ordering, or `None` when
      one of them panics (nothing recovers the panic). */
  function ReqResRelations(msgs: seq<ProtoByteMsg>, unmarshal: (MessageDescriptor, seq<Byte>) -> Option<DynMessage>,
                           rd: Reading): Option<seq<MsgValDep>>
    requires AllCaptured(msgs)
  {
    var a := Paired(msgs, |msgs|);
    PairedFromInput(msgs, |msgs|);
    var outs := Examinations(a, unmarshal, rd, Iterations(a));
    if AnyCrashed(outs) then None else Some(KeepFirstKeys(outs))
  }

  /** `CalculateReqResRelations(msgs)`. */
  method CalculateReqResRelations(msgs: seq<ProtoByteMsg>,
                                  unmarshal: (MessageDescriptor, seq<Byte>) -> Option<DynMessage>, rd: Reading)
    returns (rels: Option<seq<MsgValDep>>)
    requires AllCaptured(msgs)
    ensures rels == ReqResRelations(msgs, unmarshal, rd)
  {
    var aMsgs := SortReqResOrder(msgs);
    PairedFromInput(msgs, |msgs|);
    assert AllCaptured(aMsgs);
    var found: seq<MsgValDep> := [];
    var keys: set<string> := {};
    ghost var outs: seq<Dissection> := [];
    var i := 0;
    while i < |aMsgs| - 2
      invariant 0 <= i <= Iterations(aMsgs)
      invariant outs == Examinations(aMsgs, unmarshal, rd, i)
      invariant !AnyCrashed(outs)
      invariant found == KeepFirstKeys(outs) && keys == Keys(found)
    {
      var crashed;
      found, keys, crashed, outs := ExamineNext(aMsgs, unmarshal, rd, i, found, keys, outs);
      if crashed {
        return None;
      }
      i := i + 1;
    }
    assert i == Iterations(aMsgs);
    rels := Some(found);
  }

  /** Iteration `i` of `CalculateReqResRelations`: dissect the pair
      (a[i + 1], a[i + 2]) and keep its dependency under a new key. */
  method ExamineNext(a: seq<ProtoByteMsg>, unmarshal: (MessageDescriptor, seq<Byte>) -> Option<DynMessage>,
                     rd: Reading, i: nat, found: seq<MsgValDep>, keys: set<string>, ghost outs: seq<Dissection>)
    returns (found': seq<MsgValDep>, keys': set<string>, crashed: bool, ghost outs': seq<Dissection>)
    requires AllCaptured(a) && i < Iterations(a)
    requires outs == Examinations(a, unmarshal, rd, i) && !AnyCrashed(outs)
    requires found == KeepFirstKeys(outs) && keys == Keys(found)
    ensures crashed ==> AnyCrashed(Examinations(a, unmarshal, rd, Iterations(a)))
    ensures outs' == Examinations(a, unmarshal, rd, i + 1)
    ensures !crashed ==> !AnyCrashed(outs')
    ensures found' == KeepFirstKeys(outs') && keys' == Keys(found')
  {
    assert a[i + 1] in a && a[i + 2] in a;
    found', keys', crashed, outs' := DissectAndKeep(a[i + 1], a[i + 2], unmarshal, rd, found, keys, outs);
    if crashed {
      CrashStops(a, unmarshal, rd, i);
    } else {
      assert forall k :: 0 <= k < |outs'| ==> outs'[k] == if k < |outs| then outs[k] else outs'[i];
    }
  }

  /** One crashing iteration makes the whole run a panic. */
  lemma CrashStops(a: seq<ProtoByteMsg>, unmarshal: (MessageDescriptor, seq<Byte>) -> Option<DynMessage>,
                   rd: Reading, k: nat)
    requires AllCaptured(a) && k < Iterations(a)
    requires Dissect(a[k + 1], a[k + 2], unmarshal, rd).Crashed?
    ensures AnyCrashed(Examinations(a, unmarshal, rd, Iterations(a)))
  {
    ExaminationsAt(a, unmarshal, rd, Iterations(a), k);
  }

  /** The answers of all iterations hold a panic exactly when some
      iteration's pair crashes. */
  lemma ExaminationsCrash(a: seq<ProtoByteMsg>, unmarshal: (MessageDescriptor, seq<Byte>) -> Option<DynMessage>,
                          rd: Reading)
    requires AllCaptured(a)
    ensures AnyCrashed(Examinations(a, unmarshal, rd, Iterations(a))) <==> exists k :: PairCrashes(a, unmarshal, rd, k)
  {
    var n := Iterations(a);
    var outs := Examinations(a, unmarshal, rd, n);
    forall k | 0 <= k < n
      ensures outs[k].Crashed? <==> PairCrashes(a, unmarshal, rd, k)
    {
      ExaminationsAt(a, unmarshal, rd, n, k);
    }
  }

  /** `CalculateReqResRelations` panics exactly when one of the pairs it
      visits has an uncomparable pair of fields and passes every guard. */
  lemma ReqResRelationsCrash(msgs: seq<ProtoByteMsg>, unmarshal: (MessageDescriptor, seq<Byte>) -> Option<DynMessage>,
                             rd: Reading)
    requires AllCaptured(msgs)
    ensures AllCaptured(Paired(msgs, |msgs|))
    ensures ReqResRelations(msgs, unmarshal, rd).None? <==>
      exists k :: PairCrashes(Paired(msgs, |msgs|), unmarshal, rd, k)
  {
    PairedFromInput(msgs, |msgs|);
    var a := Paired(msgs, |msgs|);
    var outs := Examinations(a, unmarshal, rd, Iterations(a));
    assert ReqResRelations(msgs, unmarshal, rd).None? <==> AnyCrashed(outs);
    ExaminationsCrash(a, unmarshal, rd);
  }

  /** Read as intended, `CalculateReqResRelations` always returns. */
  lemma ReqResRelationsIntendedReturns(msgs: seq<ProtoByteMsg>,
                                       unmarshal: (MessageDescriptor, seq<Byte>) -> Option<DynMessage>)
    requires AllCaptured(msgs)
    ensures ReqResRelations(msgs, unmarshal, Intended).Some?
  {
    PairedFromInput(msgs, |msgs|);
    var a := Paired(msgs, |msgs|);
    ReqResRelationsCrash(msgs, unmarshal, Intended);
    if exists k :: PairCrashes(a, unmarshal, Intended, k) {
      var k :| PairCrashes(a, unmarshal, Intended, k);
      IntendedNeverCrashes(a[k + 1], a[k + 2], unmarshal);
    }
  }

  /** No two dependencies of the list share a key. */
  lemma {:induction false} KeepFirstKeysDistinct(outs: seq<Dissection>)
    ensures var r := KeepFirstKeys(outs);
      forall i, j :: 0 <= i < j < |r| ==> KeyOf(r[i]) != KeyOf(r[j])
  {
    if outs != [] {
      var init, e := outs[..|outs| - 1], outs[|outs| - 1];
      KeepFirstKeysDistinct(init);
      var r := KeepFirstKeys(init);
      assert outs == init + [e];
      KeepFirstKeysSnoc(init, e);
      if e.Dependent? && KeyOf(e.dep) !in Keys(r) {
        KeysMembership(r, KeyOf(e.dep));
      }
    }
  }

  /** Answer `i` is the first dependency with key `key`. */
  predicate FirstWithKey(outs: seq<Dissection>, i: int, key: string)
  {
    0 <= i < |outs| && outs[i].Dependent? && KeyOf(outs[i].dep) == key &&
    forall i' :: 0 <= i' < i ==> !(outs[i'].Dependent? && KeyOf(outs[i'].dep) == key)
  }

  /** Every dependency of the list is the first dependency found with its
      key, in the order found. */
  lemma {:induction false} KeepFirstKeysSound(outs: seq<Dissection>)
    ensures var r := KeepFirstKeys(outs);
      forall k :: 0 <= k < |r| ==> exists i :: FirstWithKey(outs, i, KeyOf(r[k])) && outs[i].dep == r[k]
  {
    if outs != [] {
      var init, e := outs[..|outs| - 1], outs[|outs| - 1];
      KeepFirstKeysSound(init);
      assert outs == init + [e];
      KeepFirstKeysSoundStep(init, e);
    }
  }

  /** The step of `KeepFirstKeysSound` for one more answer. */
  lemma KeepFirstKeysSoundStep(init: seq<Dissection>, e: Dissection)
    requires var r := KeepFirstKeys(init);
      forall k :: 0 <= k < |r| ==> exists i :: FirstWithKey(init, i, KeyOf(r[k])) && init[i].dep == r[k]
    ensures var outs := init + [e]; var r' := KeepFirstKeys(outs);
      forall k :: 0 <= k < |r'| ==> exists i :: FirstWithKey(outs, i, KeyOf(r'[k])) && outs[i].dep == r'[k]
  {
    var outs := init + [e];
    KeepFirstKeysComplete(init);
    var r := KeepFirstKeys(init);
    KeepFirstKeysSnoc(init, e);
    var r' := KeepFirstKeys(outs);
    var grows := e.Dependent? && KeyOf(e.dep) !in Keys(r);
    if grows {
      assert r' == r + [e.dep];
      forall i' | 0 <= i' < |outs| - 1
        ensures !(outs[i'].Dependent? && KeyOf(outs[i'].dep) == KeyOf(e.dep))
      {
        assert outs[i'] == init[i'];
      }
      assert FirstWithKey(outs, |outs| - 1, KeyOf(e.dep));
    } else {
      assert r' == r;
    }
    forall k | 0 <= k < |r'|
      ensures exists i :: FirstWithKey(outs, i, KeyOf(r'[k])) && outs[i].dep == r'[k]
    {
      if k < |r| {
        assert r'[k] == r[k];
        var i :| FirstWithKey(init, i, KeyOf(r[k])) && init[i].dep == r[k];
        assert outs[i] == init[i];
        assert forall i' :: 0 <= i' < i ==> outs[i'] == init[i'];
        assert FirstWithKey(outs, i, KeyOf(r'[k])) && outs[i].dep == r'[k];
      } else {
        assert grows && r'[k] == e.dep;
        assert outs[|outs| - 1].dep == r'[k];
      }
    }
  }

  /** Every dependency found has its key in the list. */
  lemma {:induction false} KeepFirstKeysComplete(outs: seq<Dissection>)
    ensures forall i :: 0 <= i < |outs| && outs[i].Dependent? ==> KeyOf(outs[i].dep) in Keys(KeepFirstKeys(outs))
  {
    if outs != [] {
      var init, e := outs[..|outs| - 1], outs[|outs| - 1];
      KeepFirstKeysComplete(init);
      assert outs == init + [e];
      KeepFirstKeysSnoc(init, e);
      if e.Dependent? && KeyOf(e.dep) !in Keys(KeepFirstKeys(init)) {
        KeysSnoc(KeepFirstKeys(init), e.dep);
      }
      forall i | 0 <= i < |init|
        ensures outs[i] == init[i]
      {
      }
    }
  }

  /** The loop never looks at the first message of the ordered list: the
      first request is never dissected, whatever it is. */
  lemma {:induction false} FirstMessageNeverExamined(a: seq<ProtoByteMsg>, x: ProtoByteMsg,
                                                     unmarshal: (MessageDescriptor, seq<Byte>) -> Option<DynMessage>,
                                                     rd: Reading, n: nat)
    requires AllCaptured(a) && Captured(x) && |a| > 0 && n <= Iterations(a)
    ensures AllCaptured([x] + a[1..])
    ensures Examinations([x] + a[1..], unmarshal, rd, n) == Examinations(a, unmarshal, rd, n)
  {
    var b := [x] + a[1..];
    assert forall i :: 1 <= i < |a| ==> b[i] == a[i];
    if n > 0 {
      FirstMessageNeverExamined(a, x, unmarshal, rd, n - 1);
    }
  }

  // ---------------------------------------------------------------------
  // CalculateRelationMatrix

  /** The requests among `msgs`, in order. */
  function Requests(msgs: seq<ProtoByteMsg>): seq<ProtoByteMsg>
  {
    if msgs == [] then []
    else Requests(msgs[..|msgs| - 1]) + (if msgs[|msgs| - 1].msgType == Request then [msgs[|msgs| - 1]] else [])
  }

  /** Every request path has an entry in `index`. */
  predicate Indexed(req: seq<ProtoByteMsg>, index: map<string, int>)
  {
    forall j :: 0 <= j < |req| ==> req[j].path in index
  }

  /** The number of transitions req[j] -> req[j + 1], for j < hi, from the
      path with index `a` to the path with index `b`. */
  function Transitions(req: seq<ProtoByteMsg>, index: map<string, int>, a: int, b: int, hi: nat): nat
    requires Indexed(req, index) && hi < |req|
  {
    if hi == 0 then 0
    else Transitions(req, index, a, b, hi - 1) +
         (if index[req[hi - 1].path] == a && index[req[hi].path] == b then 1 else 0)
  }

  /** How many transitions the two loops count among `n` >= 10 requests:
      nine in the window, then one per further iteration. */
  function CountedSteps(n: nat, v: Reading): nat
    requires n >= 10
  {
    if v == AsWritten then (if n - 2 > 9 then n - 2 else 9) else n - 1
  }

  /** Every cell of `matrix` holds the transitions counted before `hi`. */
  ghost predicate CountsUpTo(matrix: array2<int>, req: seq<ProtoByteMsg>, index: map<string, int>, hi: nat)
    requires Indexed(req, index) && hi < |req|
    reads matrix
  {
    forall a, b :: 0 <= a < matrix.Length0 && 0 <= b < matrix.Length1 ==>
      matrix[a, b] == Transitions(req, index, a, b, hi)
  }

  /** `matrix[kIdx1][kIdx2] += 1` for the transition req[j] -> req[j + 1]. */
  method Bump(matrix: array2<int>, kIdx1: int, kIdx2: int,
              ghost req: seq<ProtoByteMsg>, ghost index: map<string, int>, ghost j: nat)
    requires Indexed(req, index) && j + 1 < |req|
    requires kIdx1 == index[req[j].path] && kIdx2 == index[req[j + 1].path]
    requires 0 <= kIdx1 < matrix.Length0 && 0 <= kIdx2 < matrix.Length1
    requires CountsUpTo(matrix, req, index, j)
    modifies matrix
    ensures CountsUpTo(matrix, req, index, j + 1)
  {
    matrix[kIdx1, kIdx2] := matrix[kIdx1, kIdx2] + 1;
  }

  /** The request filter at the head of `CalculateRelationMatrix`. */
  method FilterRequests(msgs: seq<ProtoByteMsg>) returns (requestMsgs: seq<ProtoByteMsg>)
    ensures requestMsgs == Requests(msgs)
  {
    requestMsgs := [];
    for i := 0 to |msgs|
      invariant requestMsgs == Requests(msgs[..i])
    {
      assert msgs[..i + 1][..i] == msgs[..i];
      if msgs[i].msgType == Request {
        requestMsgs := requestMsgs + [msgs[i]];
      }
    }
    assert msgs[..|msgs|] == msgs;
  }

  /** The path index of `CalculateRelationMatrix`: each path of `uniqMsgs`
      mapped to a position holding it. */
  method IndexPaths(uniqMsgs: seq<ProtoByteMsg>) returns (index: map<string, int>)
    ensures index.Keys == Paths(uniqMsgs)
    ensures forall p :: p in index ==> 0 <= index[p] < |uniqMsgs| && uniqMsgs[index[p]].path == p
  {
    index := map[];
    for i := 0 to |uniqMsgs|
      invariant index.Keys == Paths(uniqMsgs[..i])
      invariant forall p :: p in index ==> 0 <= index[p] < i && uniqMsgs[index[p]].path == p
    {
      assert uniqMsgs[..i + 1] == uniqMsgs[..i] + [uniqMsgs[i]];
      PathsSnoc(uniqMsgs[..i], uniqMsgs[i]);
      index := index[uniqMsgs[i].path := i];
    }
    assert uniqMsgs[..|uniqMsgs|] == uniqMsgs;
  }

  /** The two counting loops of `CalculateRelationMatrix`: the first ten
      requests, then the window slid one request at a time. */
  method CountTransitions(matrix: array2<int>, requestMsgs: seq<ProtoByteMsg>, index: map<string, int>, v: Reading)
    requires |requestMsgs| >= 10 && Indexed(requestMsgs, index)
    requires forall j :: 0 <= j < |requestMsgs| ==>
      0 <= index[requestMsgs[j].path] < matrix.Length0 && index[requestMsgs[j].path] < matrix.Length1
    requires CountsUpTo(matrix, requestMsgs, index, 0)
    modifies matrix
    ensures CountsUpTo(matrix, requestMsgs, index, CountedSteps(|requestMsgs|, v))
  {
    for i := 0 to 9
      invariant CountsUpTo(matrix, requestMsgs, index, i)
    {
      var kIdx1 := index[requestMsgs[i].path];
      var kIdx2 := index[requestMsgs[i + 1].path];
      Bump(matrix, kIdx1, kIdx2, requestMsgs, index, i);
    }
    var lWMsg := requestMsgs[9];
    var last := if v == AsWritten then |requestMsgs| - 10 else |requestMsgs| - 9;
    var i := 1;
    while i < last
      invariant 1 <= i && (i <= last || i == 1)
      invariant lWMsg == requestMsgs[i + 8]
      invariant CountsUpTo(matrix, requestMsgs, index, i + 8)
    {
      var kIdx1 := index[lWMsg.path];
      var kIdx2 := index[requestMsgs[i + 9].path];
      Bump(matrix, kIdx1, kIdx2, requestMsgs, index, i + 8);
      lWMsg := requestMsgs[i + 9];
      i := i + 1;
    }
  }

  /** `CalculateRelationMatrix(msgs)` up to `normalize`: the integer
      transition counts between request paths, and the index of each
      request path (the position of its first occurrence). */
  method CalculateRelationMatrix(msgs: seq<ProtoByteMsg>, v: Reading)
    returns (matrix: array2<int>, index: map<string, int>)
    requires |Requests(msgs)| >= 10
    ensures fresh(matrix)
    ensures matrix.Length0 == matrix.Length1 == |Dedup(Requests(msgs))|
    ensures index.Keys == Paths(Requests(msgs)) && Indexed(Requests(msgs), index)
    ensures forall p :: p in index ==> 0 <= index[p] < |Dedup(Requests(msgs))| && Dedup(Requests(msgs))[index[p]].path == p
    ensures CountsUpTo(matrix, Requests(msgs), index, CountedSteps(|Requests(msgs)|, v))
  {
    var requestMsgs := FilterRequests(msgs);
    var uniqMsgs := Unique(requestMsgs);
    DedupPaths(requestMsgs);
    var n := |uniqMsgs|;
    index := IndexPaths(uniqMsgs);
    forall j | 0 <= j < |requestMsgs|
      ensures requestMsgs[j].path in index
    {
      PathsMembership(requestMsgs, requestMsgs[j].path);
    }
    matrix := new int[n, n]((a, b) => 0);
    CountTransitions(matrix, requestMsgs, index, v);
  }

  /** A transition before `hi` is counted in its own cell. */
  lemma {:induction false} TransitionCounted(req: seq<ProtoByteMsg>, index: map<string, int>, j: nat, hi: nat)
    requires Indexed(req, index) && j < hi < |req|
    ensures Transitions(req, index, index[req[j].path], index[req[j + 1].path], hi) >= 1
  {
    if j < hi - 1 {
      TransitionCounted(req, index, j, hi - 1);
    }
  }

  /** As written, with eleven requests or more the second loop stops one
      iteration early: the cell of the final transition counts one less
      than the transitions into it. */
  lemma FinalTransitionUncounted(req: seq<ProtoByteMsg>, index: map<string, int>)
    requires Indexed(req, index) && |req| >= 11
    ensures CountedSteps(|req|, AsWritten) == |req| - 2
    ensures var a, b := index[req[|req| - 2].path], index[req[|req| - 1].path];
      Transitions(req, index, a, b, CountedSteps(|req|, AsWritten)) + 1 == Transitions(req, index, a, b, |req| - 1)
  {
  }

  /** With the corrected bound every transition between consecutive
      requests is counted. */
  lemma EveryTransitionCounted(req: seq<ProtoByteMsg>, index: map<string, int>)
    requires Indexed(req, index) && |req| >= 10
    ensures CountedSteps(|req|, Intended) == |req| - 1
    ensures forall j :: 0 <= j < |req| - 1 ==>
      Transitions(req, index, index[req[j].path], index[req[j + 1].path], CountedSteps(|req|, Intended)) >= 1
  {
    forall j | 0 <= j < |req| - 1
      ensures Transitions(req, index, index[req[j].path], index[req[j + 1].path], |req| - 1) >= 1
    {
      TransitionCounted(req, index, j, |req| - 1);
    }
  }
}
