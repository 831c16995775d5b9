/** Finality-aware classification of requests into cache layers. */
module Finality {
  import opened Common

  datatype Layer = Immutable | Mutable | Uncacheable

  // ---- Hexadecimal block numbers ----

  function HexDigit(c: char): Option<nat> {
    if '0' <= c <= '9' then Some(c as int - '0' as int)
    else if 'a' <= c <= 'f' then Some(c as int - 'a' as int + 10)
    else if 'A' <= c <= 'F' then Some(c as int - 'A' as int + 10)
    else None
  }

  /** The number written in base 16, None on any other character. */
  function HexValue(s: string): Option<nat> {
    if s == [] then Some(0)
    else
      match (HexValue(s[..|s| - 1]), HexDigit(s[|s| - 1]))
      case (Some(v), Some(d)) => Some(16 * v + d)
      case _ => None
  }

  /** Base-16 parsing into 64 bits: the empty string and values of 2^64 or more are errors. */
  function ParseUint(s: string): Option<uint64> {
    if s == [] then None
    else match HexValue(s)
      case None => None
      case Some(v) => if v < TWO64 then Some(v) else None
  }

  function ParseHexBlock(s: string): Option<uint64> {
    if "0x" <= s || "0X" <= s then ParseUint(s[2..]) else None
  }

  /** The health probe accepts only the lower-case prefix. */
  function ParseBlockNumber(s: string): Option<uint64> {
    if |s| < 2 || s[..2] != "0x" then None else ParseUint(s[2..])
  }

  function HexChar(d: nat): char
    requires d < 16
  {
    "0123456789abcdef"[d]
  }

  /** The canonical quantity encoding: no leading zeros, "0" for zero. */
  function HexDigits(n: nat): (s: string)
    ensures s != []
  {
    if n < 16 then [HexChar(n)] else HexDigits(n / 16) + [HexChar(n % 16)]
  }

  lemma HexCharDigit(d: nat)
    requires d < 16
    ensures HexDigit(HexChar(d)) == Some(d)
  {
  }

  lemma {:induction false} HexDigitsValue(n: nat)
    ensures HexValue(HexDigits(n)) == Some(n)
  {
    var s := HexDigits(n);
    HexCharDigit(n % 16);
    if n < 16 {
      assert s[..|s| - 1] == [];
    } else {
      HexDigitsValue(n / 16);
      assert s[..|s| - 1] == HexDigits(n / 16);
    }
  }

  // ---- What the parsers accept ----

  /** `c` writes the digit `d`: either case is accepted. */
  ghost predicate Writes(c: char, d: nat) {
    d < 16 && (c == "0123456789abcdef"[d] || c == "0123456789ABCDEF"[d])
  }

  lemma HexDigitExact(c: char, d: nat)
    ensures HexDigit(c) == Some(d) <==> Writes(c, d)
  {
    if HexDigit(c) == Some(d) {
      assert d < 16;
      if '0' <= c <= '9' {
        assert c as int == '0' as int + d;
      } else if 'a' <= c <= 'f' {
        assert c as int == 'a' as int + (d - 10);
      } else {
        assert c as int == 'A' as int + (d - 10);
      }
    }
  }

  function Pow16(n: nat): (r: nat)
    ensures r > 0
  {
    if n == 0 then 1 else 16 * Pow16(n - 1)
  }

  /** The positional value of a string of digits, most significant first. */
  ghost function Positional(ds: seq<nat>): nat {
    if ds == [] then 0 else ds[0] * Pow16(|ds| - 1) + Positional(ds[1..])
  }

  lemma {:induction false} PositionalSnoc(ds: seq<nat>, d: nat)
    ensures Positional(ds + [d]) == 16 * Positional(ds) + d
  {
    if ds == [] {
      assert [d][1..] == [];
      assert Pow16(0) == 1;
      assert [] + [d] == [d];
    } else {
      var all := ds + [d];
      assert all[1..] == ds[1..] + [d];
      PositionalSnoc(ds[1..], d);
      assert Pow16(|ds|) == 16 * Pow16(|ds| - 1);
      Sixteenfold(ds[0], Pow16(|ds| - 1));
    }
  }

  lemma Sixteenfold(a: nat, b: nat)
    ensures a * (16 * b) == 16 * (a * b)
  {
  }

  /** `s` spells the digits `ds`. */
  ghost predicate Spells(s: string, ds: seq<nat>) {
    |s| == |ds| && forall i :: 0 <= i < |s| ==> Writes(s[i], ds[i])
  }

  lemma SpellsInit(s: string, ds: seq<nat>)
    requires Spells(s, ds) && s != []
    ensures Spells(s[..|s| - 1], ds[..|ds| - 1])
  {
  }

  lemma PositionalInit(ds: seq<nat>)
    requires ds != []
    ensures Positional(ds) == 16 * Positional(ds[..|ds| - 1]) + ds[|ds| - 1]
  {
    assert ds == ds[..|ds| - 1] + [ds[|ds| - 1]];
    PositionalSnoc(ds[..|ds| - 1], ds[|ds| - 1]);
  }

  lemma HexValueLast(s: string, v: nat, d: nat)
    requires s != [] && HexValue(s[..|s| - 1]) == Some(v) && HexDigit(s[|s| - 1]) == Some(d)
    ensures HexValue(s) == Some(16 * v + d)
  {
  }

  lemma {:induction false} SpelledValue(s: string, ds: seq<nat>)
    requires Spells(s, ds)
    ensures HexValue(s) == Some(Positional(ds))
  {
    if s != [] {
      var n := |s| - 1;
      SpellsInit(s, ds);
      SpelledValue(s[..n], ds[..n]);
      HexDigitExact(s[n], ds[n]);
      PositionalInit(ds);
      HexValueLast(s, Positional(ds[..n]), ds[n]);
    }
  }

  lemma {:induction false} ValueIsSpelled(s: string) returns (ds: seq<nat>)
    requires HexValue(s).Some?
    ensures Spells(s, ds)
  {
    ds := [];
    if s != [] {
      var n := |s| - 1;
      var init := ValueIsSpelled(s[..n]);
      HexDigitExact(s[n], HexDigit(s[n]).value);
      ds := init + [HexDigit(s[n]).value];
      assert forall i :: 0 <= i < n ==> s[i] == s[..n][i] && ds[i] == init[i];
    }
  }

  /** The number `v` written in hexadecimal, in either case, possibly with leading zeros. */
  ghost predicate Denotes(s: string, v: nat) {
    s != [] && exists ds :: Spells(s, ds) && Positional(ds) == v
  }

  lemma DenotesIffValue(s: string, v: nat)
    ensures Denotes(s, v) <==> s != [] && HexValue(s) == Some(v)
  {
    if s != [] && HexValue(s) == Some(v) {
      var ds := ValueIsSpelled(s);
      SpelledValue(s, ds);
    }
    if Denotes(s, v) {
      var ds :| Spells(s, ds) && Positional(ds) == v;
      SpelledValue(s, ds);
    }
  }

  /**
   A block number in a request is accepted exactly as a prefix in either case and a
   hexadecimal number of 64 bits; the health probe takes only the lower-case prefix.
   */
  lemma ParsersExact(t: string, v: uint64)
    ensures ParseHexBlock(t) == Some(v) <==> |t| >= 2 && (t[..2] == "0x" || t[..2] == "0X") && Denotes(t[2..], v)
    ensures ParseBlockNumber(t) == Some(v) <==> |t| >= 2 && t[..2] == "0x" && Denotes(t[2..], v)
  {
    if |t| >= 2 {
      DenotesIffValue(t[2..], v);
    }
  }

  /** Every 64-bit height survives encoding and either parser; larger numbers are refused. */
  lemma BlockNumberRoundTrip(n: nat)
    ensures ParseBlockNumber("0x" + HexDigits(n)) == if n < TWO64 then Some(n) else None
    ensures ParseHexBlock("0x" + HexDigits(n)) == if n < TWO64 then Some(n) else None
  {
    var s := "0x" + HexDigits(n);
    assert s[2..] == HexDigits(n) && s[..2] == "0x";
    HexDigitsValue(n);
  }

  // ---- Finality ----

  /** Whether `depth` blocks lie on top of `block`, as computed in 64-bit arithmetic. */
  predicate IsFinalized(head: uint64, depth: uint64, block: uint64) {
    head >= block && Minus(head, block) >= depth
  }

  /** The guard makes the wrapping comparison agree with the one over unbounded integers. */
  lemma FinalizedIsDeep(head: uint64, depth: uint64, block: uint64)
    ensures IsFinalized(head, depth, block) <==> block + depth <= head
  {
  }

  class FinalityChecker {
    const depth: uint64
    var head: uint64

    constructor (depth: uint64)
      ensures this.depth == depth && head == 0
    {
      this.depth := depth;
      head := 0;
    }

    method SetHead(blockNum: uint64)
      modifies this`head
      ensures head == blockNum
    {
      head := blockNum;
    }
  }

  /**
   Request parameters as decoded: `args` is None unless they are a JSON array, and an
   element is None unless it is a string. `canonical` is the re-encoded JSON text that
   goes into the cache key.
   */
  datatype Params = Params(canonical: string, args: Option<seq<Option<string>>>)

  function ExtractStringParam(p: Params, idx: nat): Option<string> {
    if p.args.None? || |p.args.value| <= idx then None else p.args.value[idx]
  }

  function BlockTagLayer(tag: string): Option<Layer> {
    if tag in {"latest", "pending", "safe"} then Some(Mutable)
    else if tag in {"earliest", "finalized"} then Some(Immutable)
    else None
  }

  function BlockParamLayer(raw: string, head: uint64, depth: uint64): Layer {
    match BlockTagLayer(raw)
    case Some(l) => l
    case None =>
      match ParseHexBlock(raw)
      case Some(n) => if IsFinalized(head, depth, n) then Immutable else Mutable
      case None => Mutable
  }

  const HASH_ADDRESSED: set<string> :=
    {"eth_getTransactionByHash", "eth_getTransactionReceipt", "eth_getBlockByHash",
     "eth_getUncleByBlockHashAndIndex"}

  const STATE_QUERIES: set<string> := {"eth_getBalance", "eth_call", "eth_estimateGas"}

  const LIVE_DATA: set<string> := {"eth_blockNumber", "eth_gasPrice", "eth_feeHistory"}

  /** Where a method names its block, if it does. */
  function BlockParam(rpc: string, p: Params): Option<string> {
    if rpc == "eth_getBlockByNumber" then ExtractStringParam(p, 0)
    else if rpc in STATE_QUERIES then ExtractStringParam(p, 1)
    else None
  }

  function Classify(rpc: string, p: Params, head: uint64, depth: uint64): Layer {
    if rpc in HASH_ADDRESSED then Immutable
    else if rpc == "eth_getBlockByNumber" || rpc in STATE_QUERIES then
      match BlockParam(rpc, p)
      case None => Mutable
      case Some(tag) => BlockParamLayer(tag, head, depth)
    else if rpc in LIVE_DATA then Mutable
    else Uncacheable
  }

  /** Why a response may be kept for ever; `raw` is the block parameter as sent. */
  datatype Reason =
    | HashAddressed
    | PermanentTag(raw: string)
    | FinalBlock(raw: string, block: uint64)

  /** The request names block `raw`, at the position its method gives it. */
  ghost predicate NamesBlock(rpc: string, p: Params, raw: string) {
    && p.args.Some?
    && (|| (rpc == "eth_getBlockByNumber" && |p.args.value| > 0 && p.args.value[0] == Some(raw))
        || (rpc in {"eth_getBalance", "eth_call", "eth_estimateGas"}
            && |p.args.value| > 1 && p.args.value[1] == Some(raw)))
  }

  ghost predicate Justifies(r: Reason, rpc: string, p: Params, head: uint64, depth: uint64) {
    match r
    case HashAddressed =>
      rpc in {"eth_getTransactionByHash", "eth_getTransactionReceipt", "eth_getBlockByHash",
              "eth_getUncleByBlockHashAndIndex"}
    case PermanentTag(raw) => NamesBlock(rpc, p, raw) && raw in {"earliest", "finalized"}
    case FinalBlock(raw, b) =>
      && NamesBlock(rpc, p, raw) && |raw| >= 2 && (raw[..2] == "0x" || raw[..2] == "0X")
      && Denotes(raw[2..], b) && b + depth <= head
  }

  lemma NamesBlockIffParam(rpc: string, p: Params, raw: string)
    ensures NamesBlock(rpc, p, raw) <==> BlockParam(rpc, p) == Some(raw)
  {
  }

  lemma ImmutableNeedsReason(rpc: string, p: Params, head: uint64, depth: uint64) returns (r: Reason)
    requires Classify(rpc, p, head, depth) == Immutable
    ensures Justifies(r, rpc, p, head, depth)
  {
    if rpc in HASH_ADDRESSED {
      r := HashAddressed;
    } else {
      var raw := BlockParam(rpc, p).value;
      NamesBlockIffParam(rpc, p, raw);
      if raw in {"earliest", "finalized"} {
        r := PermanentTag(raw);
      } else {
        var b := ParseHexBlock(raw).value;
        ParsersExact(raw, b);
        r := FinalBlock(raw, b);
      }
    }
  }

  lemma ReasonSuffices(rpc: string, p: Params, head: uint64, depth: uint64, r: Reason)
    requires Justifies(r, rpc, p, head, depth)
    ensures Classify(rpc, p, head, depth) == Immutable
  {
    if !r.HashAddressed? {
      NamesBlockIffParam(rpc, p, r.raw);
    }
    if r.FinalBlock? {
      ParsersExact(r.raw, r.block);
      TagsAreNotHex(r.raw);
    }
  }

  /** A request is immutable exactly when one of the three reasons applies. */
  lemma ImmutableIffJustified(rpc: string, p: Params, head: uint64, depth: uint64)
    ensures Classify(rpc, p, head, depth) == Immutable <==> exists r :: Justifies(r, rpc, p, head, depth)
  {
    if Classify(rpc, p, head, depth) == Immutable {
      var r := ImmutableNeedsReason(rpc, p, head, depth);
    }
    if r :| Justifies(r, rpc, p, head, depth) {
      ReasonSuffices(rpc, p, head, depth, r);
    }
  }

  lemma TagsAreNotHex(tag: string)
    requires ParseHexBlock(tag).Some?
    ensures BlockTagLayer(tag) == None
  {
    assert tag[0] == '0';
  }

  /** Exactly these eleven methods are ever cached, whatever their parameters; every other is proxied. */
  lemma CacheableIff(rpc: string, p: Params, head: uint64, depth: uint64)
    ensures Classify(rpc, p, head, depth) != Uncacheable <==>
      rpc in {"eth_getTransactionByHash", "eth_getTransactionReceipt", "eth_getBlockByHash",
              "eth_getUncleByBlockHashAndIndex", "eth_getBlockByNumber", "eth_getBalance", "eth_call",
              "eth_estimateGas", "eth_blockNumber", "eth_gasPrice", "eth_feeHistory"}
  {
  }

  /** In particular only methods of the `eth_` namespace. */
  lemma CacheableIsEth(rpc: string, p: Params, head: uint64, depth: uint64)
    requires Classify(rpc, p, head, depth) != Uncacheable
    ensures "eth_" <= rpc
  {
  }

  /** No cacheable method's name holds the colon that ends it in a cache key. */
  lemma CacheableHasNoColon(rpc: string, p: Params, head: uint64, depth: uint64)
    requires Classify(rpc, p, head, depth) != Uncacheable
    ensures ':' !in rpc
  {
    CacheableIff(rpc, p, head, depth);
    if rpc in HASH_ADDRESSED {
      HashNamesHaveNoColon(rpc);
    }
  }

  lemma HashNamesHaveNoColon(rpc: string)
    requires rpc in HASH_ADDRESSED
    ensures ':' !in rpc
  {
  }
}
