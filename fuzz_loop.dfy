/** The deterministic parts of the fuzzing loop (loop/loop.go): growing the
    message queue when a mutated message reaches new coverage, the linear
    searches over captured messages, the handler selection before tracing,
    and the tails of the two energy computations (rescale, add, sort).

    The measurements of the energy computations (execution time, coverage
    length, field count), the clock and the tracing session are inputs. */
module FuzzLoop {
  import opened Common
  import opened ProtoModel
  import opened TraceCoverage
  import opened Util

  /** `LoopMessage`: a message of the fuzzing queue. */
  datatype LoopMessage = LoopMessage(
    path: string,
    descriptor: Option<MessageDescriptor>,
    coverage: seq<CoverageBlock>,
    energy: int,
    message: Option<string>)

  /** `DependentMsgChain`, as far as the energy computation reads it: the
      chain's energy and its messages, the last one being the one fuzzed. */
  datatype DependentMsgChain = DependentMsgChain(energy: int, messages: seq<LoopMessage>)

  /* ---- coverage comparison ---- */

  /** The blocks at position k have the same start and end. */
  predicate SameBlockAt(a: seq<CoverageBlock>, b: seq<CoverageBlock>, k: int)
    requires 0 <= k < |a| && k < |b|
  {
    a[k].blockStart == b[k].blockStart && a[k].blockEnd == b[k].blockEnd
  }

  /** Two coverage lists name the same blocks, position by position; the
      module of a block is not compared. */
  predicate SameBlocks(a: seq<CoverageBlock>, b: seq<CoverageBlock>)
  {
    |a| == |b| && forall i :: 0 <= i < |a| ==> SameBlockAt(a, b, i)
  }

  /** The first check of `processCoverageAndAppendMsg`: a different length,
      or a block that differs at some position. */
  method CoverageChanged(cov: seq<CoverageBlock>, current: seq<CoverageBlock>) returns (covChange: bool)
    ensures covChange == !SameBlocks(cov, current)
  {
    covChange := false;
    if |cov| != |current| {
      covChange := true;
    } else {
      for i := 0 to |current|
        invariant covChange <==> exists k :: 0 <= k < i && !SameBlockAt(cov, current, k)
      {
        if cov[i].blockStart != current[i].blockStart || cov[i].blockEnd != current[i].blockEnd {
          assert !SameBlockAt(cov, current, i);
          covChange := true;
        }
      }
    }
  }

  /** Every block moved to one module. */
  function Relabel(a: seq<CoverageBlock>, moduleName: string): (r: seq<CoverageBlock>)
    ensures |r| == |a|
  {
    seq(|a|, i requires 0 <= i < |a| => a[i].(moduleName := moduleName))
  }

  /** The comparison is equality of the block lists once modules are
      ignored, in both directions. */
  lemma SameBlocksIgnoresModule(a: seq<CoverageBlock>, b: seq<CoverageBlock>)
    ensures SameBlocks(a, b) <==> Relabel(a, "") == Relabel(b, "")
  {
    if Relabel(a, "") == Relabel(b, "") {
      forall i | 0 <= i < |a|
        ensures a[i].blockStart == b[i].blockStart && a[i].blockEnd == b[i].blockEnd
      {
        assert Relabel(a, "")[i] == Relabel(b, "")[i];
      }
    }
    if SameBlocks(a, b) {
      forall i | 0 <= i < |a|
        ensures Relabel(a, "")[i] == Relabel(b, "")[i]
      {
        assert SameBlockAt(a, b, i);
      }
    }
  }

  /** The entry appended to the queue: the current message with the new
      coverage. */
  function NewEntry(current: LoopMessage, cov: seq<CoverageBlock>): LoopMessage
  {
    LoopMessage(current.path, current.descriptor, cov, current.energy, current.message)
  }

  /* ---- sort.Slice(…, energy[i] > energy[j]) ---- */

  /** Non-increasing in `key`. */
  ghost predicate NonIncreasing<T>(s: seq<T>, key: T -> int)
  {
    forall i, j :: 0 <= i < j < |s| ==> key(s[i]) >= key(s[j])
  }

  function InsertByKey<T>(x: T, s: seq<T>, key: T -> int): (r: seq<T>)
    ensures |r| == |s| + 1
    ensures x in r
    ensures r[0] == x || r[0] == s[0]
  {
    if s == [] || key(x) >= key(s[0]) then [x] + s
    else [s[0]] + InsertByKey(x, s[1..], key)
  }

  /** The order `sort.Slice` produces with a greater-than comparison: an
      insertion sort, one of the orders it may produce (Go's sort is not
      stable, so among equal keys any order is possible). */
  function SortByKey<T>(s: seq<T>, key: T -> int): (r: seq<T>)
    ensures |r| == |s|
    ensures s != [] ==> s[0] in r
  {
    if s == [] then [] else InsertByKey(s[0], SortByKey(s[1..], key), key)
  }

  lemma {:induction false} InsertByKeyPermutes<T>(x: T, s: seq<T>, key: T -> int)
    ensures multiset(InsertByKey(x, s, key)) == multiset(s) + multiset{x}
  {
    if s != [] && key(x) < key(s[0]) {
      InsertByKeyPermutes(x, s[1..], key);
      assert s == [s[0]] + s[1..];
    }
  }

  lemma {:induction false} InsertByKeySorted<T>(x: T, s: seq<T>, key: T -> int)
    requires NonIncreasing(s, key)
    ensures NonIncreasing(InsertByKey(x, s, key), key)
  {
    if s != [] && key(x) < key(s[0]) {
      assert NonIncreasing(s[1..], key);
      InsertByKeySorted(x, s[1..], key);
      InsertByKeyPermutes(x, s[1..], key);
      var r := InsertByKey(x, s, key);
      forall j | 1 <= j < |r|
        ensures key(r[0]) >= key(r[j])
      {
        assert r[j] in multiset(s[1..]) + multiset{x} by {
          assert r[j] in InsertByKey(x, s[1..], key);
        }
        if r[j] in multiset(s[1..]) {
          var k :| 0 <= k < |s[1..]| && s[1..][k] == r[j];
          assert s[k + 1] == r[j];
        }
      }
    }
  }

  /** The sort is a permutation. */
  lemma {:induction false} SortByKeyPermutes<T>(s: seq<T>, key: T -> int)
    ensures multiset(SortByKey(s, key)) == multiset(s)
  {
    if s != [] {
      SortByKeyPermutes(s[1..], key);
      InsertByKeyPermutes(s[0], SortByKey(s[1..], key), key);
      assert s == [s[0]] + s[1..];
    }
  }

  /** The sort orders by non-increasing key. */
  lemma {:induction false} SortByKeySorted<T>(s: seq<T>, key: T -> int)
    ensures NonIncreasing(SortByKey(s, key), key)
  {
    if s != [] {
      SortByKeySorted(s[1..], key);
      InsertByKeySorted(s[0], SortByKey(s[1..], key), key);
    }
  }

  /* ---- energy tails ---- */

  function MessageEnergy(m: LoopMessage): int { m.energy }

  function ChainEnergy(c: DependentMsgChain): int { c.energy }

  /** The energy loop of `calculateMessagesEnergy`: each entry gains its
      three rescaled measurements. */
  function AddEnergy(msgs: seq<LoopMessage>, covLen: seq<int>, fCount: seq<int>, time: seq<int>): (r: seq<LoopMessage>)
    requires |covLen| == |fCount| == |time| == |msgs|
    ensures |r| == |msgs|
    ensures forall i :: 0 <= i < |msgs| ==>
      r[i].energy == msgs[i].energy + covLen[i] + fCount[i] + time[i] && r[i] == msgs[i].(energy := r[i].energy)
  {
    seq(|msgs|, i requires 0 <= i < |msgs| => msgs[i].(energy := msgs[i].energy + covLen[i] + fCount[i] + time[i]))
  }

  /** One chain after the energy loop of `calculateMessageChainEnergy`: the
      chain gains `gain`, and its last message takes the chain's energy. */
  function ChainWithGain(c: DependentMsgChain, gain: int): (r: DependentMsgChain)
    requires |c.messages| > 0
    ensures r.energy == c.energy + gain && |r.messages| == |c.messages|
    ensures r.messages[|r.messages| - 1] == c.messages[|c.messages| - 1].(energy := r.energy)
    ensures forall j :: 0 <= j < |c.messages| - 1 ==> r.messages[j] == c.messages[j]
  {
    var e := c.energy + gain;
    var last := |c.messages| - 1;
    DependentMsgChain(e, c.messages[last := c.messages[last].(energy := e)])
  }

  function AddChainEnergy(chains: seq<DependentMsgChain>, covLen: seq<int>, fCount: seq<int>, time: seq<int>)
    : (r: seq<DependentMsgChain>)
    requires |covLen| == |fCount| == |time| == |chains|
    requires forall i :: 0 <= i < |chains| ==> |chains[i].messages| > 0
    ensures |r| == |chains|
    ensures forall i :: 0 <= i < |chains| ==>
      r[i].energy == chains[i].energy + covLen[i] + fCount[i] + time[i] &&
      |r[i].messages| == |chains[i].messages| &&
      r[i].messages[|r[i].messages| - 1].energy == r[i].energy
  {
    seq(|chains|, i requires 0 <= i < |chains| => ChainWithGain(chains[i], covLen[i] + fCount[i] + time[i]))
  }

  /** Each chain gains exactly its measurements, its last message carries
      the chain's new energy, and the other messages are untouched. */
  lemma ChainGain(chains: seq<DependentMsgChain>, covLen: seq<int>, fCount: seq<int>, time: seq<int>, i: int)
    requires |covLen| == |fCount| == |time| == |chains|
    requires forall k :: 0 <= k < |chains| ==> |chains[k].messages| > 0
    requires 0 <= i < |chains|
    ensures var c := AddChainEnergy(chains, covLen, fCount, time)[i];
      var n := |chains[i].messages|;
      c.energy == chains[i].energy + covLen[i] + fCount[i] + time[i] &&
      |c.messages| == n && c.messages[n - 1].energy == c.energy &&
      c.messages[n - 1].path == chains[i].messages[n - 1].path &&
      c.messages[..n - 1] == chains[i].messages[..n - 1]
  {
  }

  /** With at least two entries and measurements that are not all equal,
      each rescaled measurement lies in [1, 10], so every entry gains
      between 3 and 30 energy. */
  lemma EnergyGainBounds(msgs: seq<LoopMessage>, covLen: seq<int>, fCount: seq<int>, time: seq<int>, i: int)
    requires |covLen| == |fCount| == |time| == |msgs| && 0 <= i < |msgs|
    requires SeqMin(covLen) != SeqMax(covLen) && SeqMin(fCount) != SeqMax(fCount) && SeqMin(time) != SeqMax(time)
    ensures var r := AddEnergy(msgs, ScaleIntegersOf(covLen, 1, 10), ScaleIntegersOf(fCount, 1, 10),
                               ScaleIntegersReverseOf(time, 1, 10));
      |r| == |msgs| && msgs[i].energy + 3 <= r[i].energy <= msgs[i].energy + 30
  {
    ScaleIntegersBounds(covLen, 1, 10, i);
    ScaleIntegersBounds(fCount, 1, 10, i);
    ScaleIntegersReverseBounds(time, 1, 10, i);
  }

  /* ---- the loop's state ---- */

  /** The part of `Loop` these operations touch: the message queue, the
      message chains, the current message and the new-path status. */
  class Loop {
    var messages: seq<LoopMessage>
    var messageChains: seq<DependentMsgChain>
    var currentMessage: LoopMessage
    var newPathCount: int
    var newPathTime: int

    constructor (current: LoopMessage)
      ensures messages == [] && messageChains == [] && currentMessage == current
      ensures newPathCount == 0 && newPathTime == 0
    {
      messages := [];
      messageChains := [];
      currentMessage := current;
      newPathCount := 0;
      newPathTime := 0;
    }

    /** `processCoverageAndAppendMsg(cov)` at time `now`. When the coverage
        differs from the current message's, the queue loop appends one
        entry and returns on its first iteration, whichever branch it
        takes; an empty queue is left empty. */
    method ProcessCoverageAndAppendMsg(cov: seq<CoverageBlock>, now: int)
      modifies this
      ensures currentMessage == old(currentMessage) && messageChains == old(messageChains)
      ensures if SameBlocks(cov, old(currentMessage).coverage) || old(messages) == [] then
          messages == old(messages) && newPathCount == old(newPathCount) && newPathTime == old(newPathTime)
        else
          messages == old(messages) + [NewEntry(old(currentMessage), cov)] &&
          newPathCount == old(newPathCount) + 1 && newPathTime == now
    {
      var covChange := CoverageChanged(cov, currentMessage.coverage);
      if !covChange {
        return;
      }
      for i := 0 to |messages|
        invariant i == 0
        invariant messages == old(messages) && newPathCount == old(newPathCount) && newPathTime == old(newPathTime)
        invariant currentMessage == old(currentMessage) && messageChains == old(messageChains)
      {
        if |cov| != |messages[i].coverage| {
          messages := messages + [NewEntry(currentMessage, cov)];
          newPathCount := newPathCount + 1;
          newPathTime := now;
          return;
        } else {
          covChange := false;
          var j := 0;
          while j < |messages[i].coverage| && !covChange
            invariant 0 <= j <= |messages[i].coverage|
          {
            if cov[j].blockStart != messages[i].coverage[j].blockStart || cov[j].blockEnd != messages[i].coverage[j].blockEnd {
              covChange := true;
            }
            j := j + 1;
          }
          messages := messages + [NewEntry(currentMessage, cov)];
          newPathCount := newPathCount + 1;
          newPathTime := now;
          return;
        }
      }
    }

    /** The energy loop of `calculateMessagesEnergy`. */
    method AddMessagesEnergy(covLenArr: seq<int>, fCountArr: seq<int>, timeArr: seq<int>)
      requires |timeArr| == |covLenArr| == |fCountArr| == |messages|
      modifies this
      ensures currentMessage == old(currentMessage) && messageChains == old(messageChains)
      ensures newPathCount == old(newPathCount) && newPathTime == old(newPathTime)
      ensures messages == AddEnergy(old(messages), covLenArr, fCountArr, timeArr)
    {
      for i := 0 to |messages|
        invariant |messages| == |old(messages)|
        invariant forall k :: 0 <= k < i ==> messages[k] == AddEnergy(old(messages), covLenArr, fCountArr, timeArr)[k]
        invariant forall k :: i <= k < |messages| ==> messages[k] == old(messages)[k]
        invariant currentMessage == old(currentMessage) && messageChains == old(messageChains)
        invariant newPathCount == old(newPathCount) && newPathTime == old(newPathTime)
      {
        var m := messages[i];
        m := m.(energy := m.energy + covLenArr[i]);
        m := m.(energy := m.energy + fCountArr[i]);
        m := m.(energy := m.energy + timeArr[i]);
        messages := messages[i := m];
      }
    }

    /** The energy loop of `calculateMessageChainEnergy`. */
    method AddMessageChainsEnergy(covLenArr: seq<int>, fCountArr: seq<int>, timeArr: seq<int>)
      requires |timeArr| == |covLenArr| == |fCountArr| == |messageChains|
      requires forall i :: 0 <= i < |messageChains| ==> |messageChains[i].messages| > 0
      modifies this
      ensures currentMessage == old(currentMessage) && messages == old(messages)
      ensures newPathCount == old(newPathCount) && newPathTime == old(newPathTime)
      ensures messageChains == AddChainEnergy(old(messageChains), covLenArr, fCountArr, timeArr)
    {
      for i := 0 to |messageChains|
        invariant |messageChains| == |old(messageChains)|
        invariant forall k :: 0 <= k < i ==>
          messageChains[k] == AddChainEnergy(old(messageChains), covLenArr, fCountArr, timeArr)[k]
        invariant forall k :: i <= k < |messageChains| ==> messageChains[k] == old(messageChains)[k]
        invariant currentMessage == old(currentMessage) && messages == old(messages)
        invariant newPathCount == old(newPathCount) && newPathTime == old(newPathTime)
      {
        var c := messageChains[i];
        c := c.(energy := c.energy + covLenArr[i]);
        c := c.(energy := c.energy + fCountArr[i]);
        c := c.(energy := c.energy + timeArr[i]);
        var last := |c.messages| - 1;
        c := c.(messages := c.messages[last := c.messages[last].(energy := c.energy)]);
        messageChains := messageChains[i := c];
      }
    }

    /** The tail of `calculateMessagesEnergy`: the three measurement arrays
        (one slot per queued message) are rescaled to [1, 10], the time
        reversed, added to the energies, and the queue sorted by
        non-increasing energy. `ScaleIntegers` reads `array[0]`, so the
        queue must not be empty. */
    method FinishMessagesEnergy(timeArr: array<int>, covLenArr: array<int>, fCountArr: array<int>)
      requires |messages| > 0
      requires timeArr.Length == covLenArr.Length == fCountArr.Length == |messages|
      requires timeArr != covLenArr && timeArr != fCountArr && covLenArr != fCountArr
      modifies this, timeArr, covLenArr, fCountArr
      ensures currentMessage == old(currentMessage) && messageChains == old(messageChains)
      ensures newPathCount == old(newPathCount) && newPathTime == old(newPathTime)
      ensures covLenArr[..] == ScaleIntegersOf(old(covLenArr[..]), 1, 10)
      ensures fCountArr[..] == ScaleIntegersOf(old(fCountArr[..]), 1, 10)
      ensures timeArr[..] == ScaleIntegersReverseOf(old(timeArr[..]), 1, 10)
      ensures messages == SortByKey(AddEnergy(old(messages), covLenArr[..], fCountArr[..], timeArr[..]), MessageEnergy)
    {
      ScaleIntegers(covLenArr, 1, 10);
      ScaleIntegers(fCountArr, 1, 10);
      ScaleIntegersReverse(timeArr, 1, 10);
      AddMessagesEnergy(covLenArr[..], fCountArr[..], timeArr[..]);
      messages := SortByKey(messages, MessageEnergy);
    }

    /** The tail of `calculateMessageChainEnergy`: as above for the chains,
        each chain's last message also taking the chain's new energy. */
    method FinishChainEnergy(timeArr: array<int>, covLenArr: array<int>, fCountArr: array<int>)
      requires |messageChains| > 0
      requires forall i :: 0 <= i < |messageChains| ==> |messageChains[i].messages| > 0
      requires timeArr.Length == covLenArr.Length == fCountArr.Length == |messageChains|
      requires timeArr != covLenArr && timeArr != fCountArr && covLenArr != fCountArr
      modifies this, timeArr, covLenArr, fCountArr
      ensures currentMessage == old(currentMessage) && messages == old(messages)
      ensures newPathCount == old(newPathCount) && newPathTime == old(newPathTime)
      ensures covLenArr[..] == ScaleIntegersOf(old(covLenArr[..]), 1, 10)
      ensures fCountArr[..] == ScaleIntegersOf(old(fCountArr[..]), 1, 10)
      ensures timeArr[..] == ScaleIntegersReverseOf(old(timeArr[..]), 1, 10)
      ensures messageChains ==
        SortByKey(AddChainEnergy(old(messageChains), covLenArr[..], fCountArr[..], timeArr[..]), ChainEnergy)
    {
      ScaleIntegers(covLenArr, 1, 10);
      ScaleIntegers(fCountArr, 1, 10);
      ScaleIntegersReverse(timeArr, 1, 10);
      AddMessageChainsEnergy(covLenArr[..], fCountArr[..], timeArr[..]);
      messageChains := SortByKey(messageChains, ChainEnergy);
    }
  }

  /* ---- searches ---- */

  /** The handler-selection loops before tracing a message: the first
      configured handler whose method is the message's path, or the zero
      `Handler` when there is none. */
  method SelectHandler(handlers: seq<Handler>, path: string) returns (hnd: Handler)
    ensures (forall k :: 0 <= k < |handlers| ==> handlers[k].rpc != path) ==> hnd == Handler("", "", "")
    ensures (exists k :: 0 <= k < |handlers| && handlers[k].rpc == path) ==>
      exists k :: 0 <= k < |handlers| && handlers[k].rpc == path && hnd == handlers[k] &&
        forall j :: 0 <= j < k ==> handlers[j].rpc != path
  {
    hnd := Handler("", "", "");
    for j := 0 to |handlers|
      invariant forall k :: 0 <= k < j ==> handlers[k].rpc != path
    {
      if handlers[j].rpc == path {
        hnd := handlers[j];
        return;
      }
    }
  }

  /** `getMessageByPathName(msgs, path)`: the position of the first message
      for `path`, or None (nil). */
  method GetMessageByPathName(msgs: seq<ProtoByteMsg>, path: string) returns (r: Option<nat>)
    ensures r.None? <==> forall k :: 0 <= k < |msgs| ==> msgs[k].path != path
    ensures r.Some? ==> r.value < |msgs| && msgs[r.value].path == path &&
                        forall k :: 0 <= k < r.value ==> msgs[k].path != path
  {
    for i := 0 to |msgs|
      invariant forall k :: 0 <= k < i ==> msgs[k].path != path
    {
      if msgs[i].path == path {
        return Some(i);
      }
    }
    return None;
  }

  /** The outcome of `getMessageByPathNamesInOrder`: a position, nil, or a
      panic on a message without descriptor (`GetName` of a nil
      descriptor dereferences it). */
  datatype PairSearch = PairFound(index: nat) | PairNotFound | PairPanicked

  /** Messages i and i + 1 carry the descriptors `name1` and `name2`. */
  predicate NamedPairAt(msgs: seq<ProtoByteMsg>, i: int, name1: string, name2: string)
  {
    0 <= i && i + 1 < |msgs| &&
    msgs[i].descriptor.Some? && msgs[i].descriptor.value.name == name1 &&
    msgs[i + 1].descriptor.Some? && msgs[i + 1].descriptor.value.name == name2
  }

  /** Examining position i dereferences a nil descriptor: the one of
      message i, or the one of message i + 1 after message i's name
      matched `name1`. */
  predicate NilDescriptorAt(msgs: seq<ProtoByteMsg>, i: int, name1: string)
  {
    0 <= i && i + 1 < |msgs| &&
    (msgs[i].descriptor.None? || (msgs[i].descriptor.value.name == name1 && msgs[i + 1].descriptor.None?))
  }

  /** `getMessageByPathNamesInOrder(msgs, name1, name2)`: the first i with
      (name1, name2) at positions i and i + 1. The second descriptor is
      read only when the first name matches. */
  method GetMessageByPathNamesInOrder(msgs: seq<ProtoByteMsg>, name1: string, name2: string) returns (r: PairSearch)
    ensures |msgs| < 2 ==> r == PairNotFound
    ensures r.PairFound? ==> (NamedPairAt(msgs, r.index, name1, name2) &&
                         forall k :: 0 <= k < r.index ==> !NamedPairAt(msgs, k, name1, name2) && !NilDescriptorAt(msgs, k, name1))
    ensures r.PairNotFound? ==> forall k :: 0 <= k < |msgs| ==>
                              !NamedPairAt(msgs, k, name1, name2) && !NilDescriptorAt(msgs, k, name1)
    ensures r.PairPanicked? ==> exists k :: (NilDescriptorAt(msgs, k, name1) &&
      forall j :: 0 <= j < k ==> !NamedPairAt(msgs, j, name1, name2) && !NilDescriptorAt(msgs, j, name1))
    ensures (forall k :: 0 <= k < |msgs| ==> msgs[k].descriptor.Some?) ==> !r.PairPanicked?
  {
    var i := 0;
    while i < |msgs| - 1
      invariant 0 <= i && (i <= |msgs| - 1 || i == 0)
      invariant forall k :: 0 <= k < i ==> !NamedPairAt(msgs, k, name1, name2) && !NilDescriptorAt(msgs, k, name1)
    {
      if msgs[i].descriptor.None? {
        assert NilDescriptorAt(msgs, i, name1);
        return PairPanicked;
      }
      if msgs[i].descriptor.value.name == name1 {
        if msgs[i + 1].descriptor.None? {
          assert NilDescriptorAt(msgs, i, name1);
          return PairPanicked;
        }
        if msgs[i + 1].descriptor.value.name == name2 {
          return PairFound(i);
        }
      }
      i := i + 1;
    }
    return PairNotFound;
  }
}
