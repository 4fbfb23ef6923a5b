/** The Go side of the coverage feed (trace/trace.go, `GetCoverage`): the
    decoded reply of the script's `getCoverage` export turned into
    coverage blocks, with addresses read by Go's
    `strconv.ParseUint(s, 0, 64)`.

    The RPC call and the JSON decoding are not modelled; their outcome is
    the parameter `reply`. A runtime panic of the Go code is the outcome
    `Panicked`. */
module TraceCoverage {
  import opened Common

  const MaxUint64: nat := 0xFFFF_FFFF_FFFF_FFFF

  type Uint64 = n: int | 0 <= n <= MaxUint64

  /** `CoverageBlock`: a basic block of the traced module. */
  datatype CoverageBlock = CoverageBlock(moduleName: string, blockStart: Uint64, blockEnd: Uint64)

  /** `RPCCoverage`: one entry the script buffered, a module name and the
      list of [start, end] address pairs, as strings. */
  datatype RpcCoverage = RpcCoverage(moduleName: string, coverage: seq<seq<string>>)

  /** The reply of `sendRpcCall("getCoverage")` after `json.Unmarshal`. */
  datatype CoverageReply =
    | CallFailed(callError: string)
    | NotJson(jsonError: string)
    | Decoded(entries: seq<RpcCoverage>)

  /** What `GetCoverage` returns: blocks and nil, (nil, nil), nil and an
      error, or a runtime panic. */
  datatype CoverageOutcome =
    | Blocks(blocks: seq<CoverageBlock>)
    | NoCoverage
    | Failed(reason: string)
    | Panicked

  /* ---- strconv.ParseUint(s, 0, 64) ---- */

  /** The value of a digit character in bases up to 36, as `ParseUint` reads
      it: '0'..'9', then letters of either case from 10. */
  function DigitValue(c: char): (d: Option<nat>)
    ensures d.Some? ==> d.value < 36
  {
    if '0' <= c <= '9' then Some(c as int - '0' as int)
    else if 'a' <= LowerChar(c) <= 'z' then Some(LowerChar(c) as int - 'a' as int + 10)
    else None
  }

  /** The base chosen for base 0 and the digits that follow the prefix:
      "0b", "0o", "0x" (either case, when at least one more character
      follows), else a leading "0" for octal, else decimal. */
  function BaseOf(s: string): (r: (nat, string))
    requires |s| > 0
    ensures r.0 in {2, 8, 10, 16} && |r.1| <= |s|
  {
    if s[0] == '0' then
      if |s| >= 3 && LowerChar(s[1]) == 'b' then (2, s[2..])
      else if |s| >= 3 && LowerChar(s[1]) == 'o' then (8, s[2..])
      else if |s| >= 3 && LowerChar(s[1]) == 'x' then (16, s[2..])
      else (8, s[1..])
    else (10, s)
  }

  /** The digit loop, left to right: `n = n*base + d`, underscores skipped;
      None at a character that is not a digit of `base`. The 64-bit
      overflow test is applied to the final value (see `ValueGrows`). */
  function Accumulate(s: string, base: nat): (r: Option<nat>)
  {
    if s == [] then Some(0)
    else
      var c := s[|s| - 1];
      match Accumulate(s[..|s| - 1], base)
      case None => None
      case Some(n) =>
        if c == '_' then Some(n)
        else match DigitValue(c)
          case None => None
          case Some(d) => if d < base then Some(n * base + d) else None
  }

  /** Where the scan of `underscoreOK` stands: start, after a digit or base
      prefix, after an underscore, after anything else. */
  datatype Saw = Start | Digit | Underscore | Other

  function UnderscoreScan(s: string, i: nat, saw: Saw, hex: bool): Saw
    decreases |s| - i
  {
    if i >= |s| then saw
    else if '0' <= s[i] <= '9' || (hex && 'a' <= LowerChar(s[i]) <= 'f') then UnderscoreScan(s, i + 1, Digit, hex)
    else if s[i] == '_' then
      if saw != Digit then Underscore else UnderscoreScan(s, i + 1, Underscore, hex)
    else if saw == Underscore then Underscore
    else UnderscoreScan(s, i + 1, Other, hex)
  }

  /** `underscoreOK`: every underscore separates digits (a base prefix
      counting as a digit). A scan that stops early is reported as ending
      on an underscore, which fails. */
  predicate UnderscoreOK(s0: string)
  {
    var s := if |s0| >= 1 && (s0[0] == '-' || s0[0] == '+') then s0[1..] else s0;
    if |s| >= 2 && s[0] == '0' && LowerChar(s[1]) in {'b', 'o', 'x'} then
      UnderscoreScan(s, 2, Digit, LowerChar(s[1]) == 'x') != Underscore
    else
      UnderscoreScan(s, 0, Start, false) != Underscore
  }

  /** `strconv.ParseUint(s, 0, 64)`: the value, or None for every error
      (syntax or range). */
  function ParseUint(s: string): (r: Option<Uint64>)
    ensures s == [] ==> r.None?
  {
    if s == [] then None
    else
      var (base, digits) := BaseOf(s);
      match Accumulate(digits, base)
      case None => None
      case Some(n) =>
        if n > MaxUint64 then None
        else if '_' in digits && !UnderscoreOK(s) then None
        else Some(n)
  }

  /** The running value never decreases, so the value overflows 64 bits at
      some step of Go's loop exactly when the final value does: testing
      the final value gives the same accept/reject answer. */
  lemma {:induction false} ValueGrows(s: string, base: nat, k: nat)
    requires base >= 1 && k <= |s| && Accumulate(s, base).Some?
    ensures Accumulate(s[..k], base).Some? && Accumulate(s[..k], base).value <= Accumulate(s, base).value
  {
    if k < |s| {
      var t := s[..|s| - 1];
      assert s[..k] == t[..k];
      ValueGrows(t, base, k);
      var n := Accumulate(t, base).value;
      assert n <= n * base by { MulGrows(n, base); }
    } else {
      assert s[..k] == s;
    }
  }

  lemma MulGrows(n: nat, base: nat)
    requires base >= 1
    ensures n <= n * base
  {
    assert n * base == n + n * (base - 1);
  }

  /** The numeral of `n` in base 10 or 16, lower-case, without leading
      zeros: how Frida prints a pointer (after "0x") or a number. */
  function Numeral(n: nat, base: nat): (s: string)
    requires base == 10 || base == 16
    ensures |s| > 0 && '_' !in s
    ensures n > 0 ==> s[0] != '0'
    decreases n
  {
    if n < base then [HexDigits[n]]
    else Numeral(n / base, base) + [HexDigits[n % base]]
  }

  lemma DigitRoundTrip(n: nat)
    requires n < 16
    ensures DigitValue(HexDigits[n]) == Some(n)
  {
  }

  lemma AccumulateDigit(p: string, c: char, base: nat, q: nat, d: nat)
    requires Accumulate(p, base) == Some(q) && c != '_'
    requires DigitValue(c) == Some(d) && d < base
    ensures Accumulate(p + [c], base) == Some(q * base + d)
  {
    assert (p + [c])[..|p|] == p;
  }

  lemma NumeralLast(n: nat, base: nat)
    requires (base == 10 || base == 16) && n >= base
    ensures Numeral(n, base) == Numeral(n / base, base) + [HexDigits[n % base]]
    ensures n == n / base * base + n % base && n % base < base
  {
    if base == 10 {
      assert n == n / 10 * 10 + n % 10;
    } else {
      assert n == n / 16 * 16 + n % 16;
    }
  }

  lemma {:induction false} NumeralValue(n: nat, base: nat)
    requires base == 10 || base == 16
    ensures Accumulate(Numeral(n, base), base) == Some(n)
    decreases n
  {
    if n < base {
      assert Numeral(n, base) == [] + [HexDigits[n]];
      DigitRoundTrip(n);
      AccumulateDigit([], HexDigits[n], base, 0, n);
    } else {
      var q, d := n / base, n % base;
      NumeralLast(n, base);
      NumeralValue(q, base);
      DigitRoundTrip(d);
      AccumulateDigit(Numeral(q, base), HexDigits[d], base, q, d);
    }
  }

  /** A stringified pointer, "0x" and its hexadecimal numeral, reads back as
      its value when it fits 64 bits and is rejected otherwise. */
  lemma PointerRoundTrip(n: nat)
    ensures ParseUint("0x" + Numeral(n, 16)) == if n <= MaxUint64 then Some(n) else None
  {
    var s := "0x" + Numeral(n, 16);
    assert s[2..] == Numeral(n, 16);
    NumeralValue(n, 16);
  }

  /** A decimal numeral reads back as its value when it fits 64 bits. */
  lemma DecimalRoundTrip(n: nat)
    requires n > 0
    ensures ParseUint(Numeral(n, 10)) == if n <= MaxUint64 then Some(n) else None
  {
    NumeralValue(n, 10);
  }

  /* ---- the conversion loop ---- */

  /** The loop body for one [start, end] pair: `cov[0]` and `cov[1]` are
      indexed only when reached, so a pair too short panics unless its
      first address already fails to parse. */
  function PairBlock(moduleName: string, pair: seq<string>): Option<Option<CoverageBlock>>
  {
    if |pair| == 0 then None
    else match ParseUint(pair[0])
      case None => Some(None)
      case Some(start) =>
        if |pair| == 1 then None
        else match ParseUint(pair[1])
          case None => Some(None)
          case Some(end) => Some(Some(CoverageBlock(moduleName, start, end)))
  }

  /** The blocks of the pairs, in order, skipping the pairs whose
      addresses do not parse; None when the loop panics. */
  function PairBlocks(moduleName: string, pairs: seq<seq<string>>): Option<seq<CoverageBlock>>
  {
    if pairs == [] then Some([])
    else
      match PairBlocks(moduleName, pairs[..|pairs| - 1])
      case None => None
      case Some(blocks) =>
        match PairBlock(moduleName, pairs[|pairs| - 1])
        case None => None
        case Some(None) => Some(blocks)
        case Some(Some(b)) => Some(blocks + [b])
  }

  /** `GetCoverage()` on the decoded reply. */
  function CoverageOf(reply: CoverageReply): CoverageOutcome
  {
    match reply
    case CallFailed(e) => Failed("Failed to fetch coverage information: " + e)
    case NotJson(e) => Failed("Failed to unmarshal coverage information: " + e)
    case Decoded(entries) =>
      if entries == [] then NoCoverage
      else match PairBlocks(entries[0].moduleName, entries[0].coverage)
        case None => Panicked
        case Some(blocks) => Blocks(blocks)
  }

  /** `GetCoverage()`, the conversion loop over the first entry's pairs. */
  method GetCoverage(reply: CoverageReply) returns (r: CoverageOutcome)
    ensures r == CoverageOf(reply)
  {
    match reply {
      case CallFailed(e) =>
        return Failed("Failed to fetch coverage information: " + e);
      case NotJson(e) =>
        return Failed("Failed to unmarshal coverage information: " + e);
      case Decoded(unmarshalledCov) =>
        if |unmarshalledCov| == 0 {
          return NoCoverage;
        }
        var pairs := unmarshalledCov[0].coverage;
        var covData: seq<CoverageBlock> := [];
        for i := 0 to |pairs|
          invariant PairBlocks(unmarshalledCov[0].moduleName, pairs[..i]) == Some(covData)
        {
          assert pairs[..i + 1][..i] == pairs[..i];
          var cov := pairs[i];
          if |cov| == 0 {
            PanicPersists(unmarshalledCov[0].moduleName, pairs, i + 1);
            return Panicked;
          }
          var parsedStart := ParseUint(cov[0]);
          if parsedStart.None? {
            continue;
          }
          if |cov| == 1 {
            PanicPersists(unmarshalledCov[0].moduleName, pairs, i + 1);
            return Panicked;
          }
          var parsedEnd := ParseUint(cov[1]);
          if parsedEnd.None? {
            continue;
          }
          covData := covData + [CoverageBlock(unmarshalledCov[0].moduleName, parsedStart.value, parsedEnd.value)];
        }
        assert pairs[..|pairs|] == pairs;
        return Blocks(covData);
    }
  }

  /** Only the first entry is converted: later entries change nothing. */
  lemma OnlyFirstEntry(first: RpcCoverage, rest: seq<RpcCoverage>)
    ensures CoverageOf(Decoded([first] + rest)) == CoverageOf(Decoded([first]))
  {
  }

  /** The conversion distributes over concatenation of the pair list, so
      surviving pairs keep their order; with `PairBlock` this describes
      the result pair by pair. */
  lemma {:induction false} PairBlocksAppend(moduleName: string, p: seq<seq<string>>, q: seq<seq<string>>)
    ensures PairBlocks(moduleName, p + q) ==
      match (PairBlocks(moduleName, p), PairBlocks(moduleName, q))
      case (Some(a), Some(b)) => Some(a + b)
      case _ => None
    decreases |q|
  {
    if q == [] {
      assert p + q == p;
      if PairBlocks(moduleName, p).Some? {
        assert PairBlocks(moduleName, p).value + [] == PairBlocks(moduleName, p).value;
      }
    } else {
      var q' := q[..|q| - 1];
      assert (p + q)[..|p + q| - 1] == p + q';
      assert (p + q)[|p + q| - 1] == q[|q| - 1];
      PairBlocksAppend(moduleName, p, q');
      assert PairBlocks(moduleName, p + q) ==
        match (PairBlocks(moduleName, p + q'), PairBlock(moduleName, q[|q| - 1]))
        case (Some(a), Some(None)) => Some(a)
        case (Some(a), Some(Some(b))) => Some(a + [b])
        case _ => None;
      assert PairBlocks(moduleName, q) ==
        match (PairBlocks(moduleName, q'), PairBlock(moduleName, q[|q| - 1]))
        case (Some(a), Some(None)) => Some(a)
        case (Some(a), Some(Some(b))) => Some(a + [b])
        case _ => None;
      match (PairBlocks(moduleName, p), PairBlocks(moduleName, q'), PairBlock(moduleName, q[|q| - 1]))
      case (Some(a), Some(b), Some(Some(c))) =>
        assert a + b + [c] == a + (b + [c]);
      case _ =>
    }
  }

  /** Once the loop panics on a pair, the later pairs do not matter. */
  lemma PanicPersists(moduleName: string, pairs: seq<seq<string>>, k: nat)
    requires k <= |pairs| && PairBlocks(moduleName, pairs[..k]).None?
    ensures PairBlocks(moduleName, pairs).None?
  {
    PairBlocksAppend(moduleName, pairs[..k], pairs[k..]);
    assert pairs[..k] + pairs[k..] == pairs;
  }

  /** The blocks carry the entry's module, are no more than the pairs, and
      each comes from a pair whose two addresses parse. */
  lemma {:induction false} PairBlocksShape(moduleName: string, pairs: seq<seq<string>>)
    requires PairBlocks(moduleName, pairs).Some?
    ensures var blocks := PairBlocks(moduleName, pairs).value;
      |blocks| <= |pairs| &&
      forall k :: 0 <= k < |blocks| ==> (blocks[k].moduleName == moduleName &&
        exists j :: 0 <= j < |pairs| && |pairs[j]| >= 2 &&
          ParseUint(pairs[j][0]) == Some(blocks[k].blockStart) &&
          ParseUint(pairs[j][1]) == Some(blocks[k].blockEnd))
  {
    if pairs != [] {
      var init := pairs[..|pairs| - 1];
      PairBlocksShape(moduleName, init);
      var blocks := PairBlocks(moduleName, pairs).value;
      var prev := PairBlocks(moduleName, init).value;
      forall k | 0 <= k < |blocks|
        ensures blocks[k].moduleName == moduleName &&
          exists j :: 0 <= j < |pairs| && |pairs[j]| >= 2 &&
            ParseUint(pairs[j][0]) == Some(blocks[k].blockStart) &&
            ParseUint(pairs[j][1]) == Some(blocks[k].blockEnd)
      {
        if k < |prev| {
          var j :| 0 <= j < |init| && |init[j]| >= 2 &&
            ParseUint(init[j][0]) == Some(prev[k].blockStart) &&
            ParseUint(init[j][1]) == Some(prev[k].blockEnd);
          assert pairs[j] == init[j];
        } else {
          assert |pairs[|pairs| - 1]| >= 2;
        }
      }
    }
  }

  /** A pair whose two addresses parse becomes a block; a pair with an
      address that does not parse is skipped, or panics when the second
      address is missing after a good first one. */
  lemma PairBlockCases(moduleName: string, pair: seq<string>)
    ensures |pair| >= 2 && ParseUint(pair[0]).Some? && ParseUint(pair[1]).Some? ==>
      PairBlock(moduleName, pair) == Some(Some(CoverageBlock(moduleName, ParseUint(pair[0]).value, ParseUint(pair[1]).value)))
    ensures |pair| >= 1 && ParseUint(pair[0]).None? ==> PairBlock(moduleName, pair) == Some(None)
    ensures |pair| >= 2 && ParseUint(pair[1]).None? ==> PairBlock(moduleName, pair) == Some(None)
    ensures PairBlock(moduleName, pair).None? <==> |pair| == 0 || (|pair| == 1 && ParseUint(pair[0]).Some?)
  {
  }
}
