/** The Go runtime symbol-table support of script.js (`Golang`): locating
    the pclntab header (magic 0xFFFFFFFB followed by two zero bytes, the
    Go 1.2 layout) among the readable ranges, walking its function table,
    and looking names up in the walked list. Both results are cached on the
    object for the lifetime of the process.

    Process memory is a finite map from address to byte; a read that touches
    an unmapped byte faults, as the engine's read throws an access
    violation. Adding an offset read from memory to a pointer wraps around
    the address space of the pointer width, as `NativePointer.add` does. */
module GoSymbols {
  import opened Common

  type Memory = map<int, Byte>

  /** A read of an unmapped address. */
  datatype Fault = AccessViolation(address: int)

  /** A readable range as the engine enumerates it. */
  datatype Range = Range(base: int, size: nat)

  /** One walked record: the function's entry address, its name (the bytes
      before the terminating zero), the address of its function record and
      the table base. */
  datatype Symbol = Symbol(address: nat, name: seq<Byte>, table: int, tableBase: int)

  /** The scan pattern 'FB FF FF FF 00 00'. */
  const Magic: seq<Byte> := [0xFB, 0xFF, 0xFF, 0xFF, 0x00, 0x00]

  /** The number of addresses `ps`-byte pointers can hold: 256^ps. */
  function AddressSpace(ps: nat): (n: nat)
    ensures n > 0
  {
    if ps == 0 then 1 else 256 * AddressSpace(ps - 1)
  }

  /** `p.add(n)`: the sum taken modulo the address space, so that an offset
      near 2^(8ps) lands below `p`. */
  function PtrAdd(ps: nat, p: int, n: int): (r: int)
    ensures 0 <= r < AddressSpace(ps)
    ensures 0 <= p + n < AddressSpace(ps) ==> r == p + n
  {
    var sum := p + n;
    if 0 <= sum < AddressSpace(ps) then sum else sum % AddressSpace(ps)
  }

  /** Little-endian unsigned read of `width` bytes at `a`. */
  function ReadLE(mem: Memory, a: int, width: nat): (r: Result<nat, Fault>)
    decreases width
  {
    if width == 0 then Ok(0)
    else if a !in mem then Err(AccessViolation(a))
    else match ReadLE(mem, a + 1, width - 1)
      case Err(f) => Err(f)
      case Ok(hi) => Ok(mem[a] + 256 * hi)
  }

  /** The mapped addresses at or above `a`. */
  function MappedFrom(mem: Memory, a: int): set<int>
  {
    set k | k in mem.Keys && k >= a
  }

  /** `readUtf8String()`: the bytes from `a` up to the first zero byte. The
      decoding of those bytes as UTF-8 is not modelled. */
  function ReadCString(mem: Memory, a: int): (r: Result<seq<Byte>, Fault>)
    ensures r.Ok? ==> 0 !in r.value
    decreases |MappedFrom(mem, a)|
  {
    if a !in mem then Err(AccessViolation(a))
    else if mem[a] == 0 then Ok([])
    else
      assert |MappedFrom(mem, a + 1)| < |MappedFrom(mem, a)| by {
        assert MappedFrom(mem, a) == MappedFrom(mem, a + 1) + {a};
      }
      match ReadCString(mem, a + 1)
      case Err(f) => Err(f)
      case Ok(rest) => Ok([mem[a]] + rest)
  }

  // ---------------------------------------------------------------------
  // Locating the table

  /** The pattern occurs at `a`: six mapped bytes equal to `Magic`. */
  predicate MatchesAt(mem: Memory, a: int)
  {
    forall i :: 0 <= i < |Magic| ==> a + i in mem && mem[a + i] == Magic[i]
  }

  /** `Memory.scanSync(base, size, pattern)` from offset `i` on: the match
      addresses lying wholly inside the range, in increasing order. */
  function ScanFrom(mem: Memory, r: Range, i: nat): (ms: seq<int>)
    ensures forall k :: 0 <= k < |ms| ==> r.base + i <= ms[k] <= r.base + r.size - |Magic| && MatchesAt(mem, ms[k])
    ensures forall k, l :: 0 <= k < l < |ms| ==> ms[k] < ms[l]
    decreases r.size - i
  {
    if i + |Magic| > r.size then []
    else if MatchesAt(mem, r.base + i) then [r.base + i] + ScanFrom(mem, r, i + 1)
    else ScanFrom(mem, r, i + 1)
  }

  function Scan(mem: Memory, r: Range): seq<int>
  {
    ScanFrom(mem, r, 0)
  }

  /** The candidates in the order `findGopclntab` visits them: ranges in
      enumeration order (a range of size 0 is skipped), and within a range
      its matches in address order. */
  function Candidates(mem: Memory, rs: seq<Range>): seq<int>
  {
    if rs == [] then []
    else (if rs[0].size > 0 then Scan(mem, rs[0]) else []) + Candidates(mem, rs[1..])
  }

  /** The structural check of a match `a`: the pointer stored at
      a + offset (wrapping), where offset is the pointer at a + 8 + 2ps,
      equals the pointer at a + 8 + ps. Reads happen in that order and may
      fault. */
  function Accepts(mem: Memory, ps: nat, a: int): Result<bool, Fault>
  {
    match ReadLE(mem, a + 8 + ps, ps)
    case Err(f) => Err(f)
    case Ok(entry) =>
      match ReadLE(mem, a + 8 + 2 * ps, ps)
      case Err(f) => Err(f)
      case Ok(offset) =>
        match ReadLE(mem, PtrAdd(ps, a, offset), ps)
        case Err(f) => Err(f)
        case Ok(p) => Ok(p == entry)
  }

  lemma ModShift(x: int, m: int)
    requires 0 <= x < m
    ensures (x + m) % m == x
  {
  }

  /** A decoy whose offset word is d short of the top of the address space
      is checked against the pointer d bytes below it: the third read wraps
      around instead of leaving the address space. */
  lemma DecoyOffsetWraps(mem: Memory, ps: nat, a: int, d: nat)
    requires 0 < d <= a < AddressSpace(ps)
    requires ReadLE(mem, a + 8 + ps, ps).Ok? && ReadLE(mem, a + 8 + 2 * ps, ps) == Ok(AddressSpace(ps) - d)
    requires ReadLE(mem, a - d, ps).Ok?
    ensures Accepts(mem, ps, a) == Ok(ReadLE(mem, a - d, ps).value == ReadLE(mem, a + 8 + ps, ps).value)
  {
    ModShift(a - d, AddressSpace(ps));
  }

  /** The first accepted address of `ms`, None when every one is rejected,
      or the first fault met on the way. */
  function FirstAccepted(mem: Memory, ps: nat, ms: seq<int>): (r: Result<Option<int>, Fault>)
    ensures r.Ok? && r.value.Some? ==> r.value.value in ms && Accepts(mem, ps, r.value.value) == Ok(true)
    ensures ms == [] ==> r == Ok(None)
  {
    if ms == [] then Ok(None)
    else match Accepts(mem, ps, ms[0])
      case Err(f) => Err(f)
      case Ok(true) => Ok(Some(ms[0]))
      case Ok(false) => FirstAccepted(mem, ps, ms[1..])
  }

  /** The search range by range, as the nested loops of `findGopclntab` do it. */
  function Locate(mem: Memory, ps: nat, rs: seq<Range>): (r: Result<Option<int>, Fault>)
    ensures r.Ok? && r.value.Some? ==> Accepts(mem, ps, r.value.value) == Ok(true)
  {
    if rs == [] then Ok(None)
    else
      var here := if rs[0].size > 0 then FirstAccepted(mem, ps, Scan(mem, rs[0])) else Ok(None);
      if here == Ok(None) then Locate(mem, ps, rs[1..]) else here
  }

  lemma {:induction false} FirstAcceptedAppend(mem: Memory, ps: nat, xs: seq<int>, ys: seq<int>)
    ensures FirstAccepted(mem, ps, xs + ys) ==
      (if FirstAccepted(mem, ps, xs) == Ok(None) then FirstAccepted(mem, ps, ys) else FirstAccepted(mem, ps, xs))
  {
    if xs != [] {
      assert (xs + ys)[0] == xs[0] && (xs + ys)[1..] == xs[1..] + ys;
      FirstAcceptedAppend(mem, ps, xs[1..], ys);
    } else {
      assert xs + ys == ys;
    }
  }

  /** Searching range by range is searching the concatenated candidates. */
  lemma {:induction false} LocateIsFirstCandidate(mem: Memory, ps: nat, rs: seq<Range>)
    ensures Locate(mem, ps, rs) == FirstAccepted(mem, ps, Candidates(mem, rs))
  {
    if rs != [] {
      LocateIsFirstCandidate(mem, ps, rs[1..]);
      FirstAcceptedAppend(mem, ps, if rs[0].size > 0 then Scan(mem, rs[0]) else [], Candidates(mem, rs[1..]));
    }
  }

  /** Without faults, the search answers None exactly when every candidate
      is rejected. */
  lemma {:induction false} FirstAcceptedNone(mem: Memory, ps: nat, ms: seq<int>)
    requires forall i :: 0 <= i < |ms| ==> Accepts(mem, ps, ms[i]).Ok?
    ensures FirstAccepted(mem, ps, ms) == Ok(None) <==>
      (forall i :: 0 <= i < |ms| ==> Accepts(mem, ps, ms[i]) == Ok(false))
  {
    if ms != [] {
      assert forall i :: 1 <= i < |ms| ==> ms[1..][i - 1] == ms[i];
      FirstAcceptedNone(mem, ps, ms[1..]);
    }
  }

  /** The search answers the candidate at `i` when it is accepted and every
      earlier one is rejected. */
  lemma {:induction false} FirstAcceptedAt(mem: Memory, ps: nat, ms: seq<int>, i: nat)
    requires i < |ms| && Accepts(mem, ps, ms[i]) == Ok(true)
    requires forall j :: 0 <= j < i ==> Accepts(mem, ps, ms[j]) == Ok(false)
    ensures FirstAccepted(mem, ps, ms) == Ok(Some(ms[i]))
  {
    if i > 0 {
      assert Accepts(mem, ps, ms[0]) == Ok(false);
      assert forall j :: 0 <= j < i - 1 ==> ms[1..][j] == ms[j + 1];
      FirstAcceptedAt(mem, ps, ms[1..], i - 1);
    }
  }

  lemma {:induction false} OnlyAccepted(mem: Memory, ps: nat, ms: seq<int>, t: int)
    requires t in ms && Accepts(mem, ps, t) == Ok(true)
    requires forall c :: c in ms && c != t ==> Accepts(mem, ps, c) == Ok(false)
    ensures FirstAccepted(mem, ps, ms) == Ok(Some(t))
  {
    if ms[0] != t {
      assert t in ms[1..] by { var i :| 0 <= i < |ms| && ms[i] == t; assert ms[1..][i - 1] == t; }
      assert forall c :: c in ms[1..] ==> c in ms;
      OnlyAccepted(mem, ps, ms[1..], t);
    }
  }

  /** One genuine table among decoys: when exactly one candidate, `t`, passes
      the check and every other one is rejected without a fault, the locator
      finds `t`, whatever the order of ranges and matches. */
  lemma OneTableAmongDecoys(mem: Memory, ps: nat, rs: seq<Range>, t: int)
    requires t in Candidates(mem, rs) && Accepts(mem, ps, t) == Ok(true)
    requires forall c :: c in Candidates(mem, rs) && c != t ==> Accepts(mem, ps, c) == Ok(false)
    ensures Locate(mem, ps, rs) == Ok(Some(t))
  {
    LocateIsFirstCandidate(mem, ps, rs);
    OnlyAccepted(mem, ps, Candidates(mem, rs), t);
  }

  // ---------------------------------------------------------------------
  // Walking the table

  /** The record at `cursor`: its second word is the offset of the function
      record; that record holds the entry address and, one pointer further,
      the 32-bit offset of the name. */
  function DecodeRecord(mem: Memory, ps: nat, base: int, cursor: int): (r: Result<Symbol, Fault>)
    ensures r.Ok? ==> ReadLE(mem, cursor + ps, ps).Ok? && r.value.table == PtrAdd(ps, base, ReadLE(mem, cursor + ps, ps).value)
    ensures r.Ok? ==> r.value.tableBase == base && 0 !in r.value.name
  {
    match ReadLE(mem, cursor + ps, ps)
    case Err(f) => Err(f)
    case Ok(offset) =>
      var record := PtrAdd(ps, base, offset);
      match ReadLE(mem, record, ps)
      case Err(f) => Err(f)
      case Ok(functionAddress) =>
        match ReadLE(mem, PtrAdd(ps, record, ps), 4)
        case Err(f) => Err(f)
        case Ok(nameOffset) =>
          match ReadCString(mem, PtrAdd(ps, base, nameOffset))
          case Err(f) => Err(f)
          case Ok(name) => Ok(Symbol(functionAddress, name, record, base))
  }

  /** The record cursors the walk visits: from `cursor` in steps of 2ps while
      strictly below `end`. */
  function Cursors(ps: nat, cursor: int, end: int): seq<int>
    requires ps > 0
    decreases end - cursor
  {
    if cursor >= end then [] else [cursor] + Cursors(ps, cursor + 2 * ps, end)
  }

  /** The k-th visited cursor is k records past the first, still below the end. */
  lemma {:induction false} CursorsAt(ps: nat, cursor: int, end: int)
    requires ps > 0
    ensures forall k :: 0 <= k < |Cursors(ps, cursor, end)| ==>
      Cursors(ps, cursor, end)[k] == cursor + 2 * ps * k && Cursors(ps, cursor, end)[k] < end
    decreases end - cursor
  {
    if cursor < end {
      var rest := Cursors(ps, cursor + 2 * ps, end);
      CursorsAt(ps, cursor + 2 * ps, end);
      forall k | 1 <= k < |rest| + 1
        ensures Cursors(ps, cursor, end)[k] == cursor + 2 * ps * k
      {
        assert Cursors(ps, cursor, end)[k] == rest[k - 1];
        assert cursor + 2 * ps + 2 * ps * (k - 1) == cursor + 2 * ps * k;
      }
    }
  }

  /** Decoding every record of `cs` in order, stopping at the first fault. */
  function DecodeAll(mem: Memory, ps: nat, base: int, cs: seq<int>): (r: Result<seq<Symbol>, Fault>)
    ensures r.Ok? ==> |r.value| == |cs|
    ensures r.Ok? ==> forall k :: 0 <= k < |r.value| ==> r.value[k].tableBase == base && 0 !in r.value[k].name
  {
    if cs == [] then Ok([])
    else match DecodeRecord(mem, ps, base, cs[0])
      case Err(f) => Err(f)
      case Ok(s) =>
        match DecodeAll(mem, ps, base, cs[1..])
        case Err(f) => Err(f)
        case Ok(rest) => Ok([s] + rest)
  }

  /** The table end `base + count * 2ps`, where count is the 32-bit value at
      base + 8; the header's own length is not added. */
  function TableEnd(ps: nat, base: int, count: nat): int
  {
    base + count * (2 * ps)
  }

  /** The first record cursor, just past the header and the count word. */
  function FirstCursor(ps: nat, base: int): int
  {
    base + 8 + ps
  }

  /** What `enumerateSymbolsSync` computes for the table at `base`. */
  function Walk(mem: Memory, ps: nat, base: int): (r: Result<seq<Symbol>, Fault>)
    requires ps > 0
    ensures r.Ok? ==> ReadLE(mem, base + 8, 4).Ok?
    ensures r.Ok? ==> forall k :: 0 <= k < |r.value| ==> r.value[k].tableBase == base && 0 !in r.value[k].name
  {
    match ReadLE(mem, base + 8, 4)
    case Err(f) => Err(f)
    case Ok(count) => DecodeAll(mem, ps, base, Cursors(ps, FirstCursor(ps, base), TableEnd(ps, base, count)))
  }

  /** For 4- and 8-byte pointers the walk visits max(count - 1, 0) records. */
  lemma {:induction false} CursorCount(ps: nat, base: int, count: nat)
    requires ps == 4 || ps == 8
    ensures |Cursors(ps, FirstCursor(ps, base), TableEnd(ps, base, count))| == if count == 0 then 0 else count - 1
  {
    var c0, end := FirstCursor(ps, base), TableEnd(ps, base, count);
    if count > 1 {
      if ps == 4 {
        assert c0 + 2 * ps * (count - 2) == base + 8 * count - 4;
        assert c0 + 2 * ps * (count - 1) == base + 8 * count + 4;
      } else {
        assert c0 + 2 * ps * (count - 2) == base + 16 * count - 16;
        assert c0 + 2 * ps * (count - 1) == base + 16 * count;
      }
      CursorsCover(ps, c0, end, count - 2);
      CursorsCount(ps, c0, end, count - 1);
    } else {
      CursorsCount(ps, c0, end, 0);
    }
  }

  /** Every in-bound step is visited. */
  lemma {:induction false} CursorsCover(ps: nat, cursor: int, end: int, k: nat)
    requires ps > 0
    requires cursor + 2 * ps * k < end
    ensures |Cursors(ps, cursor, end)| > k
    decreases k
  {
    if k > 0 {
      assert cursor + 2 * ps + 2 * ps * (k - 1) == cursor + 2 * ps * k;
      CursorsCover(ps, cursor + 2 * ps, end, k - 1);
    }
  }

  /** No step at or past the end is visited. */
  lemma {:induction false} CursorsCount(ps: nat, cursor: int, end: int, k: nat)
    requires ps > 0
    requires cursor + 2 * ps * k >= end
    ensures |Cursors(ps, cursor, end)| <= k
    decreases k
  {
    if k > 0 && cursor < end {
      assert cursor + 2 * ps + 2 * ps * (k - 1) == cursor + 2 * ps * k;
      CursorsCount(ps, cursor + 2 * ps, end, k - 1);
    }
  }

  /** A successful walk yields one symbol per visited cursor, each decoded
      from its own cursor, so nothing at or past the table end is read as a
      record, and there are max(count - 1, 0) of them. */
  lemma WalkShape(mem: Memory, ps: nat, base: int, count: nat, syms: seq<Symbol>)
    requires ps == 4 || ps == 8
    requires ReadLE(mem, base + 8, 4) == Ok(count)
    requires Walk(mem, ps, base) == Ok(syms)
    ensures |syms| == if count == 0 then 0 else count - 1
    ensures forall k :: 0 <= k < |syms| ==>
      FirstCursor(ps, base) + 2 * ps * k < TableEnd(ps, base, count) &&
      DecodeRecord(mem, ps, base, FirstCursor(ps, base) + 2 * ps * k) == Ok(syms[k])
  {
    var cs := Cursors(ps, FirstCursor(ps, base), TableEnd(ps, base, count));
    assert DecodeAll(mem, ps, base, cs) == Ok(syms);
    CursorCount(ps, base, count);
    CursorsAt(ps, FirstCursor(ps, base), TableEnd(ps, base, count));
    DecodeAllAt(mem, ps, base, cs, syms);
    forall k | 0 <= k < |syms|
      ensures FirstCursor(ps, base) + 2 * ps * k < TableEnd(ps, base, count)
      ensures DecodeRecord(mem, ps, base, FirstCursor(ps, base) + 2 * ps * k) == Ok(syms[k])
    {
      RecordAt(mem, ps, base, cs[k], FirstCursor(ps, base) + 2 * ps * k, syms[k]);
    }
  }

  /** Moves a decoded record from one spelling of its cursor to another,
      so that the decoder is not unfolded at the new spelling. */
  lemma RecordAt(mem: Memory, ps: nat, base: int, c: int, c': int, sym: Symbol)
    requires c == c' && DecodeRecord(mem, ps, base, c) == Ok(sym)
    ensures DecodeRecord(mem, ps, base, c') == Ok(sym)
  {
  }

  /** Where the walk loop stands in the cursor list: the next cursor, and
      the cursors after it; or the end of the list. */
  lemma CursorsStep(ps: nat, cs: seq<int>, k: nat, cursor: int, end: int)
    requires ps > 0 && k <= |cs| && cs[k..] == Cursors(ps, cursor, end)
    ensures cursor < end ==> k < |cs| && cs[k] == cursor && cs[k + 1..] == Cursors(ps, cursor + 2 * ps, end)
    ensures cursor >= end ==> k == |cs|
  {
    if cursor < end {
      assert cs[k..][0] == cursor && cs[k..][1..] == cs[k + 1..];
    } else {
      assert |cs[k..]| == 0;
    }
  }

  /** Decoding succeeds with `syms` when every record decodes to its symbol. */
  lemma {:induction false} DecodeAllOk(mem: Memory, ps: nat, base: int, cs: seq<int>, syms: seq<Symbol>)
    requires |syms| == |cs|
    requires forall k :: 0 <= k < |cs| ==> DecodeRecord(mem, ps, base, cs[k]) == Ok(syms[k])
    ensures DecodeAll(mem, ps, base, cs) == Ok(syms)
  {
    if cs != [] {
      assert forall k :: 0 <= k < |cs| - 1 ==> cs[1..][k] == cs[k + 1] && syms[1..][k] == syms[k + 1];
      DecodeAllOk(mem, ps, base, cs[1..], syms[1..]);
      assert [syms[0]] + syms[1..] == syms;
    }
  }

  /** The walk ends with the fault of the first record that fails to decode. */
  lemma {:induction false} DecodeAllFault(mem: Memory, ps: nat, base: int, cs: seq<int>, k: nat, f: Fault)
    requires k < |cs|
    requires forall j :: 0 <= j < k ==> DecodeRecord(mem, ps, base, cs[j]).Ok?
    requires DecodeRecord(mem, ps, base, cs[k]) == Err(f)
    ensures DecodeAll(mem, ps, base, cs) == Err(f)
  {
    if k > 0 {
      assert forall j :: 0 <= j < |cs| - 1 ==> cs[1..][j] == cs[j + 1];
      DecodeAllFault(mem, ps, base, cs[1..], k - 1, f);
    }
  }

  lemma {:induction false} DecodeAllAt(mem: Memory, ps: nat, base: int, cs: seq<int>, syms: seq<Symbol>)
    requires DecodeAll(mem, ps, base, cs) == Ok(syms)
    ensures |syms| == |cs|
    ensures forall k :: 0 <= k < |cs| ==> DecodeRecord(mem, ps, base, cs[k]) == Ok(syms[k])
  {
    if cs != [] {
      DecodeAllAt(mem, ps, base, cs[1..], syms[1..]);
      forall k | 1 <= k < |cs| ensures DecodeRecord(mem, ps, base, cs[k]) == Ok(syms[k]) {
        assert cs[1..][k - 1] == cs[k] && syms[1..][k - 1] == syms[k];
      }
    }
  }

  // ---------------------------------------------------------------------
  // Name lookups over a walked list

  /** `findSymbolByName`'s loop: the address of the first symbol whose name
      equals `name`, or None. */
  method FirstByName(syms: seq<Symbol>, name: seq<Byte>) returns (r: Option<nat>)
    ensures r.None? <==> forall i :: 0 <= i < |syms| ==> syms[i].name != name
    ensures r.Some? ==> exists i :: (0 <= i < |syms| && syms[i].name == name && r.value == syms[i].address &&
      forall j :: 0 <= j < i ==> syms[j].name != name)
  {
    var i := 0;
    while i < |syms|
      invariant 0 <= i <= |syms|
      invariant forall j :: 0 <= j < i ==> syms[j].name != name
    {
      if syms[i].name == name {
        return Some(syms[i].address);
      }
      i := i + 1;
    }
    r := None;
  }

  /** The symbols of `syms` whose names match, in table order and with
      repetitions kept: the reference for `findSymbolsByPattern`'s loop. */
  function MatchingSymbols(syms: seq<Symbol>, matches: seq<Byte> -> bool): (r: seq<Symbol>)
    ensures |r| <= |syms|
    ensures forall s :: s in r ==> s in syms && matches(s.name)
  {
    if |syms| == 0 then []
    else
      var last := syms[|syms| - 1];
      MatchingSymbols(syms[..|syms| - 1], matches) + (if matches(last.name) then [last] else [])
  }

  /** A symbol occurs in the filtered list exactly as often as its name
      matches times its number of occurrences in `syms`. */
  lemma {:induction false} MatchingSymbolsCount(syms: seq<Symbol>, matches: seq<Byte> -> bool, s: Symbol)
    ensures multiset(MatchingSymbols(syms, matches))[s] ==
      if matches(s.name) then multiset(syms)[s] else 0
  {
    if |syms| > 0 {
      var init := syms[..|syms| - 1];
      MatchingSymbolsCount(init, matches, s);
      assert syms == init + [syms[|syms| - 1]];
    }
  }

  /** Every symbol of `syms` whose name matches is in the filtered list. */
  lemma {:induction false} MatchingSymbolsComplete(syms: seq<Symbol>, matches: seq<Byte> -> bool)
    ensures forall s :: s in syms && matches(s.name) ==> s in MatchingSymbols(syms, matches)
  {
    forall s | s in syms && matches(s.name)
      ensures s in MatchingSymbols(syms, matches)
    {
      MatchingSymbolsCount(syms, matches, s);
    }
  }

  /** `idx` lists increasing positions of `whole` holding the entries of
      `sub` in order. */
  predicate PositionsOf(idx: seq<nat>, sub: seq<Symbol>, whole: seq<Symbol>)
  {
    |idx| == |sub| &&
    (forall k :: 0 <= k < |idx| ==> idx[k] < |whole| && whole[idx[k]] == sub[k]) &&
    (forall k, l :: 0 <= k < l < |idx| ==> idx[k] < idx[l])
  }

  /** Positions in a prefix are positions in the whole sequence, and the
      last position can be appended to them. */
  lemma PositionsExtend(idx: seq<nat>, sub: seq<Symbol>, whole: seq<Symbol>)
    requires |whole| > 0 && PositionsOf(idx, sub, whole[..|whole| - 1])
    ensures PositionsOf(idx, sub, whole)
    ensures PositionsOf(idx + [|whole| - 1], sub + [whole[|whole| - 1]], whole)
  {
  }

  /** The positions of `syms` that the filtered list is taken from. */
  lemma {:induction false} MatchingPositions(syms: seq<Symbol>, matches: seq<Byte> -> bool)
    returns (idx: seq<nat>)
    ensures PositionsOf(idx, MatchingSymbols(syms, matches), syms)
  {
    if |syms| == 0 {
      idx := [];
    } else {
      var idx0 := MatchingPositions(syms[..|syms| - 1], matches);
      PositionsExtend(idx0, MatchingSymbols(syms[..|syms| - 1], matches), syms);
      idx := if matches(syms[|syms| - 1].name) then idx0 + [|syms| - 1] else idx0;
    }
  }

  /** The filtered list is a subsequence of `syms`: its entries sit at
      increasing positions of `syms`. */
  lemma MatchingSymbolsOrdered(syms: seq<Symbol>, matches: seq<Byte> -> bool)
    ensures exists idx :: PositionsOf(idx, MatchingSymbols(syms, matches), syms)
  {
    var idx := MatchingPositions(syms, matches);
  }

  /** `findSymbolsByPattern`'s loop: every symbol whose name matches, in
      table order. The regular expression is the predicate `matches`. */
  method FilterByPattern(syms: seq<Symbol>, matches: seq<Byte> -> bool) returns (r: seq<Symbol>)
    ensures r == MatchingSymbols(syms, matches)
    ensures forall s :: s in r ==> s in syms && matches(s.name)
    ensures forall s :: s in syms && matches(s.name) ==> s in r
    ensures |r| <= |syms|
    ensures exists idx: seq<nat> :: (|idx| == |r| &&
      (forall k :: 0 <= k < |idx| ==> idx[k] < |syms| && syms[idx[k]] == r[k]) &&
      (forall k, l :: 0 <= k < l < |idx| ==> idx[k] < idx[l]))
  {
    r := [];
    var i := 0;
    while i < |syms|
      invariant 0 <= i <= |syms|
      invariant r == MatchingSymbols(syms[..i], matches)
    {
      assert syms[..i + 1][..i] == syms[..i];
      if matches(syms[i].name) {
        r := r + [syms[i]];
      }
      i := i + 1;
    }
    assert syms[..i] == syms;
    MatchingSymbolsComplete(syms, matches);
    MatchingSymbolsOrdered(syms, matches);
    var idx :| PositionsOf(idx, r, syms);
  }

  /** The `Golang` object: the process's memory, pointer size and readable
      ranges, and the two write-once caches. */
  class GoRuntime {
    const mem: Memory
    const ps: nat
    const ranges: seq<Range>
    /** `this.gopclntab`: the accepted table address, once found. */
    var gopclntab: Option<int>
    /** `this.symbolmap`: the walked records, once walked. */
    var symbolmap: Option<seq<Symbol>>

    ghost predicate Valid()
      reads this
    {
      ps == 4 || ps == 8
    }

    constructor (mem: Memory, ps: nat, ranges: seq<Range>)
      requires ps == 4 || ps == 8
      ensures Valid()
      ensures this.mem == mem && this.ps == ps && this.ranges == ranges
      ensures gopclntab == None && symbolmap == None
    {
      this.mem, this.ps, this.ranges := mem, ps, ranges;
      gopclntab, symbolmap := None, None;
    }

    /** `findGopclntab()`: a cached address is answered without scanning;
        otherwise the first candidate that passes the check is cached and
        answered. Nothing is cached when no candidate passes (null) or when a
        read faults (the exception propagates). */
    method FindGopclntab() returns (r: Result<Option<int>, Fault>)
      modifies this`gopclntab
      ensures old(gopclntab).Some? ==> r == Ok(old(gopclntab)) && gopclntab == old(gopclntab)
      ensures old(gopclntab).None? ==> r == Locate(mem, ps, ranges)
      ensures old(gopclntab).None? ==> gopclntab == (if r.Ok? then r.value else None)
    {
      if gopclntab.Some? {
        return Ok(gopclntab);
      }
      var ri := 0;
      while ri < |ranges|
        invariant 0 <= ri <= |ranges|
        invariant gopclntab == None
        invariant Locate(mem, ps, ranges) == Locate(mem, ps, ranges[ri..])
      {
        var range := ranges[ri];
        assert ranges[ri..][1..] == ranges[ri + 1..];
        if range.size > 0 {
          var matches := Scan(mem, range);
          var mi := 0;
          while mi < |matches|
            invariant 0 <= mi <= |matches|
            invariant FirstAccepted(mem, ps, matches) == FirstAccepted(mem, ps, matches[mi..])
          {
            var address := matches[mi];
            assert matches[mi..][0] == address && matches[mi..][1..] == matches[mi + 1..];
            var entry := ReadLE(mem, address + 8 + ps, ps);
            if entry.Err? {
              return Err(entry.error);
            }
            var offset := ReadLE(mem, address + 8 + 2 * ps, ps);
            if offset.Err? {
              return Err(offset.error);
            }
            var p := ReadLE(mem, PtrAdd(ps, address, offset.value), ps);
            if p.Err? {
              return Err(p.error);
            }
            if p.value == entry.value {
              gopclntab := Some(address);
              return Ok(gopclntab);
            }
            mi := mi + 1;
          }
        }
        ri := ri + 1;
      }
      r := Ok(None);
    }

    /** What `enumerateSymbolsSync()` answers in the current state: the
        cached list, else the walk of the cached table, else the walk of
        the table the scan locates (no records when there is none). */
    function Enumeration(): Result<seq<Symbol>, Fault>
      requires Valid()
      reads this
    {
      if symbolmap.Some? then Ok(symbolmap.value)
      else if gopclntab.Some? then Walk(mem, ps, gopclntab.value)
      else match Locate(mem, ps, ranges)
        case Err(f) => Err(f)
        case Ok(None) => Ok([])
        case Ok(Some(base)) => Walk(mem, ps, base)
    }

    /** What `this.gopclntab` holds after `enumerateSymbolsSync()`: a cached
        list or a cached table leaves it alone; otherwise it caches the
        table the scan locates, and stays empty when the scan finds none or
        faults. */
    function TableAfterEnumeration(): Option<int>
      reads this
    {
      if symbolmap.Some? || gopclntab.Some? then gopclntab
      else match Locate(mem, ps, ranges)
        case Err(_) => None
        case Ok(t) => t
    }

    /** `enumerateSymbolsSync()`: a cached list is answered as it is;
        otherwise the table is located and walked with a cursor loop, and the
        list (empty when no table was found) is cached. A fault propagates
        and leaves the list uncached. */
    method EnumerateSymbolsSync() returns (r: Result<seq<Symbol>, Fault>)
      requires Valid()
      modifies this`gopclntab, this`symbolmap
      ensures old(symbolmap).Some? ==>
        r == Ok(old(symbolmap).value) && symbolmap == old(symbolmap) && gopclntab == old(gopclntab)
      ensures old(symbolmap).None? ==> symbolmap == (if r.Ok? then Some(r.value) else None)
      ensures r == old(Enumeration())
      ensures gopclntab == old(TableAfterEnumeration())
      ensures old(symbolmap).None? && old(gopclntab).Some? ==> r == Walk(mem, ps, old(gopclntab).value)
      ensures old(symbolmap).None? && old(gopclntab).None? ==>
        match Locate(mem, ps, ranges)
        case Err(f) => r == Err(f)
        case Ok(None) => r == Ok([])
        case Ok(Some(base)) => r == Walk(mem, ps, base)
    {
      if symbolmap.Some? {
        return Ok(symbolmap.value);
      }
      var found := FindGopclntab();
      if found.Err? {
        return Err(found.error);
      }
      var output: seq<Symbol> := [];
      if found.value.Some? {
        var walked := WalkTable(found.value.value);
        if walked.Err? {
          return Err(walked.error);
        }
        output := walked.value;
      }
      symbolmap := Some(output);
      r := Ok(output);
    }

    /** The reads of one loop turn: the record's offset, the function's
        entry address, its name offset and its name. */
    method ReadRecord(tableBase: int, cursor: int) returns (r: Result<Symbol, Fault>)
      ensures r == DecodeRecord(mem, ps, tableBase, cursor)
    {
      var offset := ReadLE(mem, cursor + ps, ps);
      if offset.Err? {
        return Err(offset.error);
      }
      var record := PtrAdd(ps, tableBase, offset.value);
      var functionAddress := ReadLE(mem, record, ps);
      if functionAddress.Err? {
        return Err(functionAddress.error);
      }
      var nameOffset := ReadLE(mem, PtrAdd(ps, record, ps), 4);
      if nameOffset.Err? {
        return Err(nameOffset.error);
      }
      var name := ReadCString(mem, PtrAdd(ps, tableBase, nameOffset.value));
      if name.Err? {
        return Err(name.error);
      }
      r := Ok(Symbol(functionAddress.value, name.value, record, tableBase));
    }

    /** The cursor loop of `enumerateSymbolsSync()` over the table at
        `tableBase`: the records between the header and the table end, in
        table order, or the first fault. */
    method WalkTable(tableBase: int) returns (r: Result<seq<Symbol>, Fault>)
      requires Valid()
      ensures r == Walk(mem, ps, tableBase)
    {
      var output: seq<Symbol> := [];
      var recordSize := 2 * ps;
      var cursor := tableBase + 8;
      var count := ReadLE(mem, cursor, 4);
      if count.Err? {
        return Err(count.error);
      }
      var tableEnd := tableBase + count.value * recordSize;
      cursor := cursor + ps;
      assert tableEnd == TableEnd(ps, tableBase, count.value) && cursor == FirstCursor(ps, tableBase);
      ghost var cs := Cursors(ps, cursor, tableEnd);
      ghost var k := 0;
      while cursor < tableEnd
        invariant k <= |cs| && cs[k..] == Cursors(ps, cursor, tableEnd)
        invariant |output| == k
        invariant forall j :: 0 <= j < k ==> DecodeRecord(mem, ps, tableBase, cs[j]) == Ok(output[j])
        decreases tableEnd - cursor
      {
        CursorsStep(ps, cs, k, cursor, tableEnd);
        var record := ReadRecord(tableBase, cursor);
        if record.Err? {
          DecodeAllFault(mem, ps, tableBase, cs, k, record.error);
          return Err(record.error);
        }
        var sym := record.value;
        output := output + [sym];
        cursor := cursor + recordSize;
        k := k + 1;
      }
      CursorsStep(ps, cs, k, cursor, tableEnd);
      DecodeAllOk(mem, ps, tableBase, cs, output);
      r := Ok(output);
    }

    /** `findSymbolByName(name)`: the first exact match's address, or None. */
    method FindSymbolByName(name: seq<Byte>) returns (r: Result<Option<nat>, Fault>)
      requires Valid()
      modifies this`gopclntab, this`symbolmap
      ensures r.Err? <==> old(Enumeration()).Err?
      ensures r.Err? ==> r.error == old(Enumeration()).error && symbolmap == old(symbolmap)
      ensures r.Ok? ==> symbolmap == Some(old(Enumeration()).value)
      ensures gopclntab == old(TableAfterEnumeration())
      ensures old(symbolmap).Some? ==> symbolmap == old(symbolmap) && gopclntab == old(gopclntab)
      ensures r.Ok? ==> symbolmap.Some? && (r.value.None? <==> forall i :: 0 <= i < |symbolmap.value| ==> symbolmap.value[i].name != name)
      ensures r.Ok? && r.value.Some? ==> exists i :: (0 <= i < |symbolmap.value| && symbolmap.value[i].name == name &&
        r.value.value == symbolmap.value[i].address && forall j :: 0 <= j < i ==> symbolmap.value[j].name != name)
    {
      var syms := EnumerateSymbolsSync();
      if syms.Err? {
        return Err(syms.error);
      }
      var a := FirstByName(syms.value, name);
      r := Ok(a);
    }

    /** `findSymbolsByPattern(pattern)`: every matching record in table order. */
    method FindSymbolsByPattern(matches: seq<Byte> -> bool) returns (r: Result<seq<Symbol>, Fault>)
      requires Valid()
      modifies this`gopclntab, this`symbolmap
      ensures r.Err? <==> old(Enumeration()).Err?
      ensures r.Err? ==> r.error == old(Enumeration()).error && symbolmap == old(symbolmap)
      ensures r.Ok? ==> symbolmap == Some(old(Enumeration()).value)
      ensures gopclntab == old(TableAfterEnumeration())
      ensures old(symbolmap).Some? ==> symbolmap == old(symbolmap) && gopclntab == old(gopclntab)
      ensures r.Ok? ==> (symbolmap.Some? && (forall s :: s in r.value ==> s in symbolmap.value && matches(s.name)) &&
        forall s :: s in symbolmap.value && matches(s.name) ==> s in r.value)
      ensures r.Ok? ==> symbolmap.Some? && r.value == MatchingSymbols(symbolmap.value, matches)
      ensures r.Ok? ==> exists idx: seq<nat> :: (|idx| == |r.value| &&
        (forall k :: 0 <= k < |idx| ==> idx[k] < |symbolmap.value| && symbolmap.value[idx[k]] == r.value[k]) &&
        (forall k, l :: 0 <= k < l < |idx| ==> idx[k] < idx[l]))
    {
      var syms := EnumerateSymbolsSync();
      if syms.Err? {
        return Err(syms.error);
      }
      var found := FilterByPattern(syms.value, matches);
      r := Ok(found);
    }
  }
}
