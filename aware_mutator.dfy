/** The dependency-aware mutator of mutator/dependencyAwareMutator.go.
    Before mutating, it finds the fields of the message that a value
    dependency relates to another message, overwrites each of them with the
    value of the same-named field of the dependency messages, and then
    leaves them alone: `MutateField` draws a field that is not dependent
    and `MutateMessage` mutates every field that is not.

    The package-level `mutateField` helper is not part of this model: it
    is the parameter `mutate`. The random source is the sequence `draws` of
    the values `rand.Intn` returns. */
module AwareMutator {
  import opened Common
  import opened ProtoModel
  import opened MutatorBase

  /** The type and cardinality of a field: what `TrySetFieldByName` checks
      a value against before it stores it. */
  datatype FieldKind = FieldKind(ftype: FieldType, repeated: bool)

  function KindOf(f: FieldDescriptor): FieldKind
  {
    FieldKind(f.ftype, f.repeated)
  }

  /** A dependency message: the name of its type and, by field name, what
      `TryGetFieldByName` reads from it and the kind of the field it reads
      it from. */
  datatype DepMessage = DepMessage(typeName: string, values: Message, kinds: map<string, FieldKind>)

  /** `mutateField(field, msg, rand)`: the message with that field
      mutated, or an error. */
  type FieldMutator = (FieldDescriptor, Message) -> Result<Message, string>

  /** The dependency concerns the message type `msgName`. */
  predicate Mentions(dep: MsgValDep, msgName: string)
  {
    dep.msg1 == msgName || dep.msg2 == msgName
  }

  /** The fully qualified field name is a key or a value of the
      dependency's relations. */
  predicate Relates(dep: MsgValDep, fullName: string)
  {
    exists k :: k in dep.relations && (k == fullName || dep.relations[k] == fullName)
  }

  /** A field is dependent when a dependency concerning the message type
      relates it. */
  predicate Dependent(valDeps: seq<MsgValDep>, msgName: string, f: FieldDescriptor)
  {
    exists i :: 0 <= i < |valDeps| && Mentions(valDeps[i], msgName) && Relates(valDeps[i], f.fullName)
  }

  /** `isFieldIgnored(internalIgFields, f)` for a field named `name`: the
      collected names hold it, that is, a dependent field of the message
      bears that name. */
  predicate Skipped(valDeps: seq<MsgValDep>, msgName: string, fields: seq<FieldDescriptor>, name: string)
    ensures Skipped(valDeps, msgName, fields, name) ==> valDeps != [] && fields != []
  {
    exists j :: 0 <= j < |fields| && fields[j].name == name && Dependent(valDeps, msgName, fields[j])
  }

  /** Dependency `dep` concerns the message type and relates a field named
      `name`: the pass over `dep` collects `name`. */
  predicate RelatedBy(dep: MsgValDep, msgName: string, fields: seq<FieldDescriptor>, name: string)
  {
    exists j :: 0 <= j < |fields| && fields[j].name == name && Mentions(dep, msgName) && Relates(dep, fields[j].fullName)
  }

  /** A name is skipped after one more dependency exactly when it was
      skipped before or the new dependency relates it. */
  lemma SkippedSnoc(valDeps: seq<MsgValDep>, dep: MsgValDep, msgName: string,
                    fields: seq<FieldDescriptor>, name: string)
    ensures Skipped(valDeps + [dep], msgName, fields, name) <==>
            Skipped(valDeps, msgName, fields, name) || RelatedBy(dep, msgName, fields, name)
  {
    var all := valDeps + [dep];
    if Skipped(all, msgName, fields, name) {
      var j :| 0 <= j < |fields| && fields[j].name == name && Dependent(all, msgName, fields[j]);
      var i :| 0 <= i < |all| && Mentions(all[i], msgName) && Relates(all[i], fields[j].fullName);
      if i < |valDeps| {
        assert all[i] == valDeps[i];
        assert Dependent(valDeps, msgName, fields[j]);
      }
    }
    if Skipped(valDeps, msgName, fields, name) {
      var j :| 0 <= j < |fields| && fields[j].name == name && Dependent(valDeps, msgName, fields[j]);
      var i :| 0 <= i < |valDeps| && Mentions(valDeps[i], msgName) && Relates(valDeps[i], fields[j].fullName);
      assert all[i] == valDeps[i];
      assert Dependent(all, msgName, fields[j]);
    }
    if RelatedBy(dep, msgName, fields, name) {
      var j :| 0 <= j < |fields| && fields[j].name == name && Mentions(dep, msgName) && Relates(dep, fields[j].fullName);
      assert all[|valDeps|] == dep;
      assert Dependent(all, msgName, fields[j]);
    }
  }

  /** Dependency message `d` is one of the pair, has the field, and its
      value is of the field's type and cardinality, so that
      `TrySetFieldByName` accepts it. */
  predicate Supplies(d: DepMessage, dep: MsgValDep, f: FieldDescriptor)
  {
    (d.typeName == dep.msg1 || d.typeName == dep.msg2) && f.name in d.values &&
    f.name in d.kinds && d.kinds[f.name] == KindOf(f)
  }

  /** The loop over the dependency messages: each one of the pair that
      supplies the field overwrites it. A read that fails, or a value that
      `TrySetFieldByName` refuses, leaves the field as it was. */
  function CopyField(msg: Message, f: FieldDescriptor, dep: MsgValDep, depMsgs: seq<DepMessage>): (r: Message)
    ensures r.Keys == msg.Keys || r.Keys == msg.Keys + {f.name}
  {
    if depMsgs == [] then msg
    else
      var m := CopyField(msg, f, dep, depMsgs[..|depMsgs| - 1]);
      var d := depMsgs[|depMsgs| - 1];
      if Supplies(d, dep, f) then m[f.name := d.values[f.name]] else m
  }

  /** The pass of one dependency over the fields, in descriptor order. */
  function CopyDep(msg: Message, dep: MsgValDep, msgName: string, fields: seq<FieldDescriptor>,
                   depMsgs: seq<DepMessage>): (r: Message)
    ensures msg.Keys <= r.Keys
    ensures forall k :: k in r && k !in msg ==> exists f :: f in fields && f.name == k
  {
    if fields == [] then msg
    else
      var m := CopyDep(msg, dep, msgName, fields[..|fields| - 1], depMsgs);
      var f := fields[|fields| - 1];
      if Mentions(dep, msgName) && Relates(dep, f.fullName) then CopyField(m, f, dep, depMsgs) else m
  }

  /** All dependencies, in order. */
  function CopyDeps(msg: Message, valDeps: seq<MsgValDep>, msgName: string, fields: seq<FieldDescriptor>,
                    depMsgs: seq<DepMessage>): (r: Message)
    ensures msg.Keys <= r.Keys
    ensures forall k :: k in r && k !in msg ==> exists f :: f in fields && f.name == k
  {
    if valDeps == [] then msg
    else CopyDep(CopyDeps(msg, valDeps[..|valDeps| - 1], msgName, fields, depMsgs),
                 valDeps[|valDeps| - 1], msgName, fields, depMsgs)
  }

  /** The fields `MutateMessage` hands to `mutateField`, in order. */
  function Kept(valDeps: seq<MsgValDep>, msgName: string, fields: seq<FieldDescriptor>,
                fs: seq<FieldDescriptor>): (r: seq<FieldDescriptor>)
    ensures |r| <= |fs|
  {
    if fs == [] then []
    else
      var f := fs[|fs| - 1];
      Kept(valDeps, msgName, fields, fs[..|fs| - 1]) + (if Skipped(valDeps, msgName, fields, f.name) then [] else [f])
  }

  /** `mutateField` applied to each of `fs` in turn; the first error ends it. */
  function MutateAll(m: Message, fs: seq<FieldDescriptor>, mutate: FieldMutator): Result<Message, string>
  {
    if fs == [] then Ok(m)
    else match MutateAll(m, fs[..|fs| - 1], mutate)
      case Err(e) => Err(e)
      case Ok(m') => mutate(fs[|fs| - 1], m')
  }

  /** The answer once `mutateField` has answered. */
  function Concluded(res: Result<Message, string>, marshal: Marshaller): Outcome
  {
    match res
    case Err(e) => Failed(e)
    case Ok(m) => Encoded(marshal, m)
  }

  // ---------------------------------------------------------------------
  // Properties of the copying

  /** The position of the last dependency message that supplies the
      field, if any does. */
  function LastSupplier(f: FieldDescriptor, dep: MsgValDep, depMsgs: seq<DepMessage>): (r: Option<nat>)
    ensures r.None? <==> forall l :: 0 <= l < |depMsgs| ==> !Supplies(depMsgs[l], dep, f)
    ensures r.Some? ==> (r.value < |depMsgs| && Supplies(depMsgs[r.value], dep, f) &&
      forall l :: r.value < l < |depMsgs| ==> !Supplies(depMsgs[l], dep, f))
  {
    if depMsgs == [] then None
    else if Supplies(depMsgs[|depMsgs| - 1], dep, f) then Some(|depMsgs| - 1)
    else
      var init := depMsgs[..|depMsgs| - 1];
      assert forall l :: 0 <= l < |init| ==> init[l] == depMsgs[l];
      LastSupplier(f, dep, init)
  }

  /** Copying ends with the value of the last dependency message that
      supplies the field, and leaves the message as it was when none does:
      the last one wins. */
  lemma {:induction false} CopyFieldLastWins(msg: Message, f: FieldDescriptor, dep: MsgValDep, depMsgs: seq<DepMessage>)
    ensures CopyField(msg, f, dep, depMsgs) ==
      match LastSupplier(f, dep, depMsgs)
      case None => msg
      case Some(l) => msg[f.name := depMsgs[l].values[f.name]]
  {
    if depMsgs != [] {
      var init := depMsgs[..|depMsgs| - 1];
      var d := depMsgs[|depMsgs| - 1];
      CopyFieldLastWins(msg, f, dep, init);
      if Supplies(d, dep, f) {
        var m := CopyField(msg, f, dep, init);
        var v := d.values[f.name];
        match LastSupplier(f, dep, init)
        case None =>
        case Some(l) =>
          var w := init[l].values[f.name];
          assert m[f.name := v] == msg[f.name := w][f.name := v] == msg[f.name := v];
      }
    }
  }

  /** A dependency message whose field has another type or cardinality
      never overwrites the field: when no supplier of the pair has a value
      `TrySetFieldByName` accepts, the message keeps its own value, even if
      every one of them has a field of that name. */
  lemma MismatchedKindsIgnored(msg: Message, f: FieldDescriptor, dep: MsgValDep, depMsgs: seq<DepMessage>)
    requires forall l :: 0 <= l < |depMsgs| && f.name in depMsgs[l].kinds ==> depMsgs[l].kinds[f.name] != KindOf(f)
    ensures CopyField(msg, f, dep, depMsgs) == msg
  {
    CopyFieldLastWins(msg, f, dep, depMsgs);
  }

  /** Running the copy loop twice is running it once: it does not matter
      how many relation entries name the field. */
  lemma CopyFieldIdempotent(msg: Message, f: FieldDescriptor, dep: MsgValDep, depMsgs: seq<DepMessage>)
    ensures CopyField(CopyField(msg, f, dep, depMsgs), f, dep, depMsgs) == CopyField(msg, f, dep, depMsgs)
  {
    var once := CopyField(msg, f, dep, depMsgs);
    CopyFieldLastWins(msg, f, dep, depMsgs);
    CopyFieldLastWins(once, f, dep, depMsgs);
    match LastSupplier(f, dep, depMsgs)
    case None =>
    case Some(l) =>
      var v := depMsgs[l].values[f.name];
      assert once[f.name := v] == msg[f.name := v][f.name := v] == msg[f.name := v];
  }

  /** A field copy changes nothing but that field. */
  lemma CopyFieldFrame(msg: Message, f: FieldDescriptor, dep: MsgValDep, depMsgs: seq<DepMessage>, k: string)
    requires k != f.name
    ensures SameAt(CopyField(msg, f, dep, depMsgs), msg, k)
  {
    CopyFieldLastWins(msg, f, dep, depMsgs);
  }

  /** A dependency pass changes only fields it relates. */
  lemma {:induction false} CopyDepFrame(msg: Message, dep: MsgValDep, msgName: string, fields: seq<FieldDescriptor>,
                                        depMsgs: seq<DepMessage>, k: string)
    requires forall j :: 0 <= j < |fields| && fields[j].name == k ==> !(Mentions(dep, msgName) && Relates(dep, fields[j].fullName))
    ensures SameAt(CopyDep(msg, dep, msgName, fields, depMsgs), msg, k)
  {
    if fields != [] {
      var init := fields[..|fields| - 1];
      var f := fields[|fields| - 1];
      assert forall j :: 0 <= j < |init| ==> init[j] == fields[j];
      CopyDepFrame(msg, dep, msgName, init, depMsgs, k);
      if Mentions(dep, msgName) && Relates(dep, f.fullName) {
        CopyFieldFrame(CopyDep(msg, dep, msgName, init, depMsgs), f, dep, depMsgs, k);
      }
    }
  }

  /** The dependency copies change only dependent fields: every other
      field keeps its value or stays unset. */
  lemma {:induction false} CopyDepsFrame(msg: Message, valDeps: seq<MsgValDep>, msgName: string,
                                         fields: seq<FieldDescriptor>, depMsgs: seq<DepMessage>, k: string)
    requires forall j :: 0 <= j < |fields| && fields[j].name == k ==> !Dependent(valDeps, msgName, fields[j])
    ensures SameAt(CopyDeps(msg, valDeps, msgName, fields, depMsgs), msg, k)
  {
    if valDeps != [] {
      var init := valDeps[..|valDeps| - 1];
      var dep := valDeps[|valDeps| - 1];
      forall j | 0 <= j < |fields| && fields[j].name == k
        ensures !Dependent(init, msgName, fields[j]) && !(Mentions(dep, msgName) && Relates(dep, fields[j].fullName))
      {
      }
      CopyDepsFrame(msg, init, msgName, fields, depMsgs, k);
      CopyDepFrame(CopyDeps(msg, init, msgName, fields, depMsgs), dep, msgName, fields, depMsgs, k);
    }
  }

  /** A dependency pass of a dependency that does not concern the message
      type changes nothing. */
  lemma {:induction false} UnrelatedDepInert(msg: Message, dep: MsgValDep, msgName: string,
                                             fields: seq<FieldDescriptor>, depMsgs: seq<DepMessage>)
    requires !Mentions(dep, msgName)
    ensures CopyDep(msg, dep, msgName, fields, depMsgs) == msg
  {
    if fields != [] {
      UnrelatedDepInert(msg, dep, msgName, fields[..|fields| - 1], depMsgs);
    }
  }

  /** The dependencies that concern the message type, in order. */
  function Concerning(valDeps: seq<MsgValDep>, msgName: string): seq<MsgValDep>
  {
    if valDeps == [] then []
    else
      var d := valDeps[|valDeps| - 1];
      Concerning(valDeps[..|valDeps| - 1], msgName) + (if Mentions(d, msgName) then [d] else [])
  }

  /** Exactly the dependencies concerning the message type are kept. */
  lemma {:induction false} ConcerningMembers(valDeps: seq<MsgValDep>, msgName: string)
    ensures forall d :: d in Concerning(valDeps, msgName) <==> d in valDeps && Mentions(d, msgName)
  {
    if valDeps != [] {
      var init := valDeps[..|valDeps| - 1];
      ConcerningMembers(init, msgName);
      assert valDeps == init + [valDeps[|valDeps| - 1]];
    }
  }

  /** Dependencies that do not mention the message's name have no effect:
      copying with all of them is copying with only those that do. */
  lemma {:induction false} UnrelatedDepsIgnored(msg: Message, valDeps: seq<MsgValDep>, msgName: string,
                                                fields: seq<FieldDescriptor>, depMsgs: seq<DepMessage>)
    ensures CopyDeps(msg, valDeps, msgName, fields, depMsgs) ==
            CopyDeps(msg, Concerning(valDeps, msgName), msgName, fields, depMsgs)
  {
    if valDeps != [] {
      var init := valDeps[..|valDeps| - 1];
      var d := valDeps[|valDeps| - 1];
      UnrelatedDepsIgnored(msg, init, msgName, fields, depMsgs);
      var c := Concerning(init, msgName);
      if Mentions(d, msgName) {
        assert Concerning(valDeps, msgName) == c + [d];
        CopyDepsSnoc(msg, c, d, msgName, fields, depMsgs);
      } else {
        assert Concerning(valDeps, msgName) == c;
        UnrelatedDepInert(CopyDeps(msg, init, msgName, fields, depMsgs), d, msgName, fields, depMsgs);
      }
    }
  }

  lemma CopyDepsSnoc(msg: Message, valDeps: seq<MsgValDep>, d: MsgValDep, msgName: string,
                     fields: seq<FieldDescriptor>, depMsgs: seq<DepMessage>)
    ensures CopyDeps(msg, valDeps + [d], msgName, fields, depMsgs) ==
            CopyDep(CopyDeps(msg, valDeps, msgName, fields, depMsgs), d, msgName, fields, depMsgs)
  {
    assert (valDeps + [d])[..|valDeps|] == valDeps;
  }

  /** With distinct field names, a field is skipped exactly when it is
      dependent. */
  lemma SkippedIffDependent(valDeps: seq<MsgValDep>, msgName: string, fields: seq<FieldDescriptor>, i: nat)
    requires UniqueNames(fields) && i < |fields|
    ensures Skipped(valDeps, msgName, fields, fields[i].name) <==> Dependent(valDeps, msgName, fields[i])
  {
    if Skipped(valDeps, msgName, fields, fields[i].name) {
      var j :| 0 <= j < |fields| && fields[j].name == fields[i].name && Dependent(valDeps, msgName, fields[j]);
      assert j == i;
    }
  }

  /** `MutateMessage` hands over exactly the fields that are not skipped,
      in descriptor order: the list is the descriptor's fields with the
      skipped ones taken out. */
  lemma {:induction false} KeptFields(valDeps: seq<MsgValDep>, msgName: string, fields: seq<FieldDescriptor>,
                                      fs: seq<FieldDescriptor>)
    ensures forall f :: f in Kept(valDeps, msgName, fields, fs) <==> f in fs && !Skipped(valDeps, msgName, fields, f.name)
    ensures |Kept(valDeps, msgName, fields, fs)| <= |fs|
  {
    if fs != [] {
      var init := fs[..|fs| - 1];
      KeptFields(valDeps, msgName, fields, init);
      assert fs == init + [fs[|fs| - 1]];
    }
  }

  lemma KeptAppend(valDeps: seq<MsgValDep>, msgName: string, fields: seq<FieldDescriptor>,
                   fs: seq<FieldDescriptor>, f: FieldDescriptor)
    ensures Kept(valDeps, msgName, fields, fs + [f]) ==
            Kept(valDeps, msgName, fields, fs) + (if Skipped(valDeps, msgName, fields, f.name) then [] else [f])
  {
    assert (fs + [f])[..|fs|] == fs;
  }

  lemma MutateAllStep(m: Message, fs: seq<FieldDescriptor>, f: FieldDescriptor, mutate: FieldMutator)
    ensures MutateAll(m, fs + [f], mutate) ==
      match MutateAll(m, fs, mutate)
      case Err(e) => Err(e)
      case Ok(m') => mutate(f, m')
  {
    assert (fs + [f])[..|fs|] == fs;
  }

  /** After an error, mutating further fields changes nothing. */
  lemma {:induction false} ErrorPersists(m: Message, fs: seq<FieldDescriptor>, more: seq<FieldDescriptor>,
                                         mutate: FieldMutator)
    requires MutateAll(m, fs, mutate).Err?
    ensures MutateAll(m, fs + more, mutate) == MutateAll(m, fs, mutate)
  {
    if more != [] {
      ErrorPersists(m, fs, more[..|more| - 1], mutate);
      assert (fs + more)[..|fs + more| - 1] == fs + more[..|more| - 1];
    } else {
      assert fs + more == fs;
    }
  }

  // ---------------------------------------------------------------------
  // The code

  /** The innermost loop: every dependency message of the pair overwrites
      the field with its own value of it. */
  method CopyFromDepMessages(msg: Message, f: FieldDescriptor, dep: MsgValDep, depMsgs: seq<DepMessage>)
    returns (out: Message)
    ensures out == CopyField(msg, f, dep, depMsgs)
  {
    out := msg;
    for l := 0 to |depMsgs|
      invariant out == CopyField(msg, f, dep, depMsgs[..l])
    {
      assert depMsgs[..l + 1][..l] == depMsgs[..l];
      var d := depMsgs[l];
      if d.typeName == dep.msg1 || d.typeName == dep.msg2 {
        if f.name in d.values && f.name in d.kinds && d.kinds[f.name] == KindOf(f) {
          out := out[f.name := d.values[f.name]];
        }
      }
    }
    assert depMsgs[..|depMsgs|] == depMsgs;
  }

  /** The loop over the relations of one dependency for one field: each
      entry whose key or value is the field's fully qualified name records
      the field's name and runs the copy loop again. */
  method CopyIfRelated(msg: Message, ignored: seq<string>, f: FieldDescriptor, dep: MsgValDep,
                       depMsgs: seq<DepMessage>)
    returns (out: Message, ignored': seq<string>)
    ensures out == if Relates(dep, f.fullName) then CopyField(msg, f, dep, depMsgs) else msg
    ensures forall s :: s in ignored' <==> s in ignored || (Relates(dep, f.fullName) && s == f.name)
  {
    out, ignored' := msg, ignored;
    var rest := dep.relations.Keys;
    var seen := false;
    while rest != {}
      invariant rest <= dep.relations.Keys
      invariant seen <==> exists k :: k in dep.relations && k !in rest && (k == f.fullName || dep.relations[k] == f.fullName)
      invariant out == if seen then CopyField(msg, f, dep, depMsgs) else msg
      invariant forall s :: s in ignored' <==> s in ignored || (seen && s == f.name)
      decreases |rest|
    {
      var k :| k in rest;
      if k == f.fullName || dep.relations[k] == f.fullName {
        ignored' := ignored' + [f.name];
        if seen {
          CopyFieldIdempotent(msg, f, dep, depMsgs);
        }
        out := CopyFromDepMessages(out, f, dep, depMsgs);
        seen := true;
      }
      rest := rest - {k};
    }
  }

  /** The pass of one dependency over the fields. */
  method ApplyDependency(msg: Message, ignored: seq<string>, dep: MsgValDep, msgName: string,
                         fields: seq<FieldDescriptor>, depMsgs: seq<DepMessage>)
    returns (out: Message, ignored': seq<string>)
    ensures out == CopyDep(msg, dep, msgName, fields, depMsgs)
    ensures forall s :: s in ignored' <==> (s in ignored || RelatedBy(dep, msgName, fields, s))
  {
    out, ignored' := msg, ignored;
    if dep.msg1 == msgName || dep.msg2 == msgName {
      for j := 0 to |fields|
        invariant out == CopyDep(msg, dep, msgName, fields[..j], depMsgs)
        invariant forall s :: s in ignored' <==> (s in ignored ||
          exists j' :: 0 <= j' < j && fields[j'].name == s && Relates(dep, fields[j'].fullName))
      {
        assert fields[..j + 1][..j] == fields[..j];
        out, ignored' := CopyIfRelated(out, ignored', fields[j], dep, depMsgs);
      }
      assert fields[..|fields|] == fields;
    } else {
      UnrelatedDepInert(msg, dep, msgName, fields, depMsgs);
    }
  }

  /** The dependency section shared by `MutateField` and `MutateMessage`:
      the message after the copies and the names of the dependent fields. */
  method CollectDependencies(msg: Message, valDeps: seq<MsgValDep>, msgName: string,
                             fields: seq<FieldDescriptor>, depMsgs: seq<DepMessage>)
    returns (out: Message, ignored: seq<string>)
    ensures out == CopyDeps(msg, valDeps, msgName, fields, depMsgs)
    ensures forall s :: s in ignored <==> Skipped(valDeps, msgName, fields, s)
  {
    out, ignored := msg, [];
    for i := 0 to |valDeps|
      invariant out == CopyDeps(msg, valDeps[..i], msgName, fields, depMsgs)
      invariant forall s :: s in ignored <==> Skipped(valDeps[..i], msgName, fields, s)
    {
      assert valDeps[..i + 1] == valDeps[..i] + [valDeps[i]];
      CopyDepsSnoc(msg, valDeps[..i], valDeps[i], msgName, fields, depMsgs);
      out, ignored := ApplyDependency(out, ignored, valDeps[i], msgName, fields, depMsgs);
      forall s
        ensures s in ignored <==> Skipped(valDeps[..i + 1], msgName, fields, s)
      {
        SkippedSnoc(valDeps[..i], valDeps[i], msgName, fields, s);
      }
    }
    assert valDeps[..|valDeps|] == valDeps;
  }

  /** The retry loop: the first of the draws `draws[0..10]` that falls on
      a field whose name was not collected, or the eleventh draw. */
  method Retry(fields: seq<FieldDescriptor>, ignored: seq<string>, draws: seq<nat>) returns (idx: nat, t: nat)
    requires |fields| > 0 && |draws| >= 11
    ensures t <= 10 && idx == draws[t] % |fields|
    ensures forall u :: 0 <= u < t ==> fields[draws[u] % |fields|].name in ignored
    ensures t < 10 ==> fields[idx].name !in ignored
  {
    idx, t := draws[0] % |fields|, 0;
    while t < 10
      invariant t <= 10 && idx == draws[t] % |fields|
      invariant forall u :: 0 <= u < t ==> fields[draws[u] % |fields|].name in ignored
    {
      if fields[idx].name in ignored {
        t := t + 1;
        idx := draws[t] % |fields|;
      } else {
        break;
      }
    }
  }

  /** `MutateField`: the first of at most eleven draws (one, then up to ten
      retries) that falls on a field that is not dependent is mutated.
      When all eleven fall on dependent fields, the message is returned
      with only the dependency copies applied. An empty descriptor makes
      `rand.Intn(0)` panic. */
  method MutateField(dsc: MessageDescriptor, msg: Message, valDeps: seq<MsgValDep>, depMsgs: seq<DepMessage>,
                     draws: seq<nat>, mutate: FieldMutator, marshal: Marshaller)
    returns (r: Outcome, chosen: Option<nat>)
    requires |draws| >= 11
    ensures |dsc.fields| == 0 ==> r == Panicked && chosen == None
    ensures chosen.Some? ==> exists t :: (0 <= t <= 10 && chosen.value == draws[t] % |dsc.fields| &&
      !Skipped(valDeps, dsc.name, dsc.fields, dsc.fields[chosen.value].name) &&
      forall u :: 0 <= u < t ==> Skipped(valDeps, dsc.name, dsc.fields, dsc.fields[draws[u] % |dsc.fields|].name))
    ensures |dsc.fields| > 0 && chosen.None? ==>
      (forall t :: 0 <= t <= 10 ==> Skipped(valDeps, dsc.name, dsc.fields, dsc.fields[draws[t] % |dsc.fields|].name)) &&
      r == Encoded(marshal, CopyDeps(msg, valDeps, dsc.name, dsc.fields, depMsgs))
    ensures chosen.Some? ==>
      r == Concluded(mutate(dsc.fields[chosen.value], CopyDeps(msg, valDeps, dsc.name, dsc.fields, depMsgs)), marshal)
  {
    var fields := dsc.fields;
    if |fields| == 0 {
      return Panicked, None;
    }
    var copied, ignored := CollectDependencies(msg, valDeps, dsc.name, fields, depMsgs);
    var mutFieldIdx, t := Retry(fields, ignored, draws);
    if fields[mutFieldIdx].name in ignored {
      assert t == 10;
      return Encoded(marshal, copied), None;
    }
    r := Concluded(mutate(fields[mutFieldIdx], copied), marshal);
    chosen := Some(mutFieldIdx);
    assert 0 <= t <= 10 && mutFieldIdx == draws[t] % |fields| && !Skipped(valDeps, dsc.name, fields, fields[mutFieldIdx].name);
  }

  /** The mutation loop of `MutateMessage`: fields whose name was collected
      are passed over, the others mutated in order until one fails. */
  method MutateUnskipped(copied: Message, ignored: seq<string>, valDeps: seq<MsgValDep>, msgName: string,
                         fields: seq<FieldDescriptor>, mutate: FieldMutator)
    returns (res: Result<Message, string>)
    requires forall s :: s in ignored <==> Skipped(valDeps, msgName, fields, s)
    ensures res == MutateAll(copied, Kept(valDeps, msgName, fields, fields), mutate)
  {
    var cur := copied;
    for i := 0 to |fields|
      invariant MutateAll(copied, Kept(valDeps, msgName, fields, fields[..i]), mutate) == Ok(cur)
    {
      var before := Kept(valDeps, msgName, fields, fields[..i]);
      assert fields[..i + 1] == fields[..i] + [fields[i]];
      KeptAppend(valDeps, msgName, fields, fields[..i], fields[i]);
      if fields[i].name in ignored {
        assert Skipped(valDeps, msgName, fields, fields[i].name);
        assert Kept(valDeps, msgName, fields, fields[..i + 1]) == before;
        continue;
      }
      var kept := Kept(valDeps, msgName, fields, fields[..i + 1]);
      assert kept == before + [fields[i]];
      MutateAllStep(copied, before, fields[i], mutate);
      match mutate(fields[i], cur)
      case Err(e) =>
        KeptSplit(valDeps, msgName, fields, i + 1);
        ErrorPersists(copied, kept, Kept(valDeps, msgName, fields, fields[i + 1..]), mutate);
        return Err(e);
      case Ok(m) =>
        assert MutateAll(copied, kept, mutate) == Ok(m);
        cur := m;
    }
    assert fields[..|fields|] == fields;
    res := Ok(cur);
  }

  /** `MutateMessage`: after the dependency copies, every field that is not
      dependent is mutated, in descriptor order; the first error is
      returned. */
  method MutateMessage(dsc: MessageDescriptor, msg: Message, valDeps: seq<MsgValDep>, depMsgs: seq<DepMessage>,
                       mutate: FieldMutator, marshal: Marshaller)
    returns (r: Outcome)
    ensures r == Concluded(MutateAll(CopyDeps(msg, valDeps, dsc.name, dsc.fields, depMsgs),
                                     Kept(valDeps, dsc.name, dsc.fields, dsc.fields), mutate), marshal)
  {
    var copied, ignored := CollectDependencies(msg, valDeps, dsc.name, dsc.fields, depMsgs);
    var res := MutateUnskipped(copied, ignored, valDeps, dsc.name, dsc.fields, mutate);
    r := Concluded(res, marshal);
  }

  lemma {:induction false} KeptSplit(valDeps: seq<MsgValDep>, msgName: string, fields: seq<FieldDescriptor>, n: nat)
    requires n <= |fields|
    ensures Kept(valDeps, msgName, fields, fields) ==
            Kept(valDeps, msgName, fields, fields[..n]) + Kept(valDeps, msgName, fields, fields[n..])
  {
    KeptConcat(valDeps, msgName, fields, fields[..n], fields[n..]);
    assert fields[..n] + fields[n..] == fields;
  }

  lemma {:induction false} KeptConcat(valDeps: seq<MsgValDep>, msgName: string, fields: seq<FieldDescriptor>,
                                      a: seq<FieldDescriptor>, b: seq<FieldDescriptor>)
    ensures Kept(valDeps, msgName, fields, a + b) ==
            Kept(valDeps, msgName, fields, a) + Kept(valDeps, msgName, fields, b)
  {
    if b != [] {
      var init := b[..|b| - 1];
      var f := b[|b| - 1];
      KeptConcat(valDeps, msgName, fields, a, init);
      assert (a + b)[..|a + b| - 1] == a + init;
      assert b[..|b| - 1] == init;
    } else {
      assert a + b == a;
    }
  }
}
