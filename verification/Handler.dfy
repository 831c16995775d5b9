/** The request handler as sequential code over the store, the pool and the finality checker. */
module Handler {
  import opened Common
  import opened LruSpec
  import opened Finality
  import opened HandlerRun
  import C = CacheStore
  import P = Pool

  datatype Served = Answered(reply: Reply) | Proxied(attempt: Option<nat>)

  /** A body that parses as a JSON-RPC response; `result` is "" when it is absent. */
  datatype Parsed = Parsed(error: Option<string>, result: string)

  /** How a 2xx body is understood, given the JSON parser. */
  function Decode(body: string, parse: string -> Option<Parsed>): Fetched {
    match parse(body)
    case None => NonJson(body)
    case Some(p) =>
      if p.error.Some? then RpcError(p.error.value)
      else if p.result == "" then NoResult(body)
      else Result(p.result)
  }

  /** What a fetch amounts to once its body is decoded. */
  function Outcome(r: P.FetchResult, parse: string -> Option<Parsed>): Fetched {
    match r
    case Body(b) => Decode(b, parse)
    case RateLimited(after) => FetchError(true, after)
    case Unavailable => FetchError(false, "")
  }

  /** The handler is left with a failure exactly when no body was fetched, and with nothing impossible. */
  lemma OutcomeOfFetch(r: P.FetchResult, parse: string -> Option<Parsed>)
    requires parse("") == None
    ensures Possible(Outcome(r, parse))
    ensures Outcome(r, parse).FetchError? <==> !r.Body?
  {
  }

  /**
   From the wire: an envelope with neither result nor error is sent exactly when an
   upstream answered 2xx with an empty body.
   */
  lemma BareEnvelopeIffEmptyBody(r: P.FetchResult, parse: string -> Option<Parsed>, id: string)
    requires parse("") == None
    ensures Render(Outcome(r, parse), id) == ResultReply(id, "") <==> r == P.Body("")
  {
  }

  // ---- From what the upstreams sent ----

  /** The last attempt was answered with a 2xx status. */
  predicate Answered2xx(replies: seq<P.HttpReply>, tried: seq<nat>)
    requires |tried| <= |replies|
  {
    tried != [] && 200 <= replies[|tried| - 1].status < 300
  }

  /** Neither answered nor told to come back later. */
  predicate AllFailed(replies: seq<P.HttpReply>, tried: seq<nat>)
    requires |tried| <= |replies|
  {
    tried == [] || (replies[|tried| - 1].status != 429 && !(200 <= replies[|tried| - 1].status < 300))
  }

  /**
   What a caller with request id `id` is sent for the last attempt: its error or its result in
   an envelope of the caller's own, its body as it is if it holds neither, or a gateway error.
   */
  ghost predicate ReplyFits(replies: seq<P.HttpReply>, tried: seq<nat>, parse: string -> Option<Parsed>,
                            id: string, reply: Reply)
    requires |tried| <= |replies|
  {
    if AllFailed(replies, tried) then reply == BadGateway
    else
      var last := replies[|tried| - 1];
      if last.status == 429 then reply == RateLimitedReply(last.retryAfter)
      else match parse(last.body)
        case Some(Parsed(Some(e), _)) => reply == ErrorReply(id, e)
        case Some(Parsed(None, v)) => reply == if v != "" then ResultReply(id, v) else RawReply(last.body)
        case None => reply == if last.body != "" then RawReply(last.body) else ResultReply(id, "")
  }

  lemma RenderedFetchFits(ok: seq<bool>, c: uint64, replies: seq<P.HttpReply>, r: P.FetchResult, tried: seq<nat>,
                          parse: string -> Option<Parsed>, id: string)
    requires |replies| >= |ok| && P.FetchedBy(ok, c, replies, r, tried) && parse("") == None
    ensures ReplyFits(replies, tried, parse, id, Render(Outcome(r, parse), id))
  {
    P.FetchStatuses(ok, c, replies, r, tried);
  }

  /** `e` is the result of the call in the last body, which parses without an error. */
  ghost predicate IsFetchedResult(e: Entry, req: Request, layer: Layer, ttl: int,
                                  replies: seq<P.HttpReply>, tried: seq<nat>, parse: string -> Option<Parsed>, reading: int)
    requires |tried| <= |replies|
  {
    && e.key == req.rpc + ":" + req.params.canonical && e.value != ""
    && Answered2xx(replies, tried) && parse(replies[|tried| - 1].body) == Some(Parsed(None, e.value))
    && e.expiry == if layer == Mutable && ttl > 0 then Some(reading + ttl) else None
  }

  /** `e` marks that no node could be reached for the call. */
  ghost predicate IsFailureMark(e: Entry, req: Request, replies: seq<P.HttpReply>, tried: seq<nat>, reading: int)
    requires |tried| <= |replies|
  {
    && e.key == "neg::" + (req.rpc + ":" + req.params.canonical)
    && AllFailed(replies, tried) && e.expiry == Some(reading + 1_000_000_000)
  }

  /** Nothing but a result, or the mark of a failure, enters the store; and a result does. */
  lemma StoredFetchFits(cfg: Config, store: seq<Entry>, req: Request, layer: Layer, ok: seq<bool>, c: uint64,
                        replies: seq<P.HttpReply>, r: P.FetchResult, tried: seq<nat>,
                        parse: string -> Option<Parsed>, reading: int)
    requires |replies| >= |ok| && P.FetchedBy(ok, c, replies, r, tried) && parse("") == None
    ensures var f := Outcome(r, parse);
      var after := StoreAfter(cfg, store, Proc(req, layer, Sight(0, [], false), HasFetched(f)), f, reading);
      && (forall e :: e in after && e !in store ==>
            || IsFetchedResult(e, req, layer, cfg.mutableTTL, replies, tried, parse, reading)
            || IsFailureMark(e, req, replies, tried, reading))
      && (forall v :: v != "" && Answered2xx(replies, tried)
                      && parse(replies[|tried| - 1].body) == Some(Parsed(None, v)) ==>
            exists e :: e in after && e.value == v
                        && IsFetchedResult(e, req, layer, cfg.mutableTTL, replies, tried, parse, reading))
  {
    P.FetchStatuses(ok, c, replies, r, tried);
    var f := Outcome(r, parse);
    var p := Proc(req, layer, Sight(0, [], false), HasFetched(f));
    if f.Result? {
      var e := Stored(Key(p), f.result, Ttl(cfg, layer), reading);
      SetMembers(store, cfg.cap, Key(p), f.result, Ttl(cfg, layer), reading);
      assert e in StoreAfter(cfg, store, p, f, reading);
      assert IsFetchedResult(e, req, layer, cfg.mutableTTL, replies, tried, parse, reading);
    } else if f.FetchError? && !f.rateLimited {
      SetMembers(store, cfg.cap, NegKey(Key(p)), NEG_SENTINEL, SECOND, reading);
    }
  }

  class Server {
    const cache: C.Cache
    const pool: P.NodePool
    const finality: FinalityChecker
    const mutableTTL: int

    constructor (cache: C.Cache, pool: P.NodePool, finality: FinalityChecker, mutableTTL: int)
      ensures this.cache == cache && this.pool == pool && this.finality == finality
      ensures this.mutableTTL == mutableTTL
    {
      this.cache, this.pool, this.finality, this.mutableTTL := cache, pool, finality, mutableTTL;
    }

    ghost function Cfg(): Config {
      Config(cache.maxEntries, mutableTTL, finality.depth, 0)
    }

    /** The nodes that may serve a method. */
    ghost function Eligible(rpc: string): seq<bool>
      reads pool.nodes
    {
      P.EligibleFor(pool.nodes, P.MethodCapability(rpc))
    }

    /**
     Serves one request with no other in flight. `now` is the clock at the lookups,
     `reading` the clock at the store write, `replies` what the upstreams answer and
     `parse` the JSON parser, which refuses an empty body. `fetch` is what the upstreams
     gave for a request that the store could not answer, and `tried` the nodes contacted.
     */
    method ServeHTTP(req: Request, now: int, reading: int, replies: seq<P.HttpReply>, parse: string -> Option<Parsed>)
      returns (served: Served, fetch: Option<P.FetchResult>, tried: seq<nat>)
      requires cache.Valid() && |replies| >= |pool.nodes| && parse("") == None
      modifies cache, cache.lru, pool`counter
      ensures cache.Valid()
      ensures var layer := Classify(req.rpc, req.params, finality.head, finality.depth);
        var (store, found) := LookUp(old(cache.View()), req, now);
        if layer == Uncacheable then
          && cache.View() == old(cache.View()) && fetch.None?
          && served.Proxied?
          && P.ProxiedBy(Eligible(req.rpc), old(pool.counter), replies, served.attempt, tried)
          && pool.counter == P.CounterAfter(old(pool.counter), |pool.nodes|, tried, served.attempt.None?)
        else if found.Some? then
          && cache.View() == store && served == Answered(found.value)
          && fetch.None? && tried == [] && pool.counter == old(pool.counter)
        else
          && fetch.Some? && P.FetchedBy(Eligible(req.rpc), old(pool.counter), replies, fetch.value, tried)
          && pool.counter == P.CounterAfter(old(pool.counter), |pool.nodes|, tried, fetch.value.Unavailable?)
          && Possible(Outcome(fetch.value, parse))
          && served.Answered?
          && (cache.View(), served.reply) ==
               ServeAlone(Cfg(), old(cache.View()), req, layer, now, Outcome(fetch.value, parse), reading)
      ensures fetch.Some? ==>
        && |tried| <= |replies| && served.Answered? && ReplyFits(replies, tried, parse, req.id, served.reply)
        && forall e :: e in cache.View() && e !in old(cache.View()) ==>
             || IsFetchedResult(e, req, Classify(req.rpc, req.params, finality.head, finality.depth), mutableTTL,
                                replies, tried, parse, reading)
             || IsFailureMark(e, req, replies, tried, reading)
    {
      ghost var elements := set e | e in cache.lru;
      var layer := Classify(req.rpc, req.params, finality.head, finality.depth);
      if layer == Uncacheable {
        var attempt, nodes := P.ProxyDirect(pool, req.rpc, replies);
        return Proxied(attempt), None, nodes;
      }
      var found := LookUpReply(req, now);
      if found.Some? {
        return Answered(found.value), None, [];
      }
      GetMembers(old(cache.View()), NegKey(CacheKey(req)), now);
      GetMembers(Get(old(cache.View()), NegKey(CacheKey(req)), now).0, CacheKey(req), now);
      var r, nodes := FetchAndStore(req, layer, reading, replies, parse, elements);
      OutcomeOfFetch(r, parse);
      RenderedFetchFits(Eligible(req.rpc), old(pool.counter), replies, r, nodes, parse, req.id);
      return Answered(Render(Outcome(r, parse), req.id)), Some(r), nodes;
    }

    /** Answers from the store if it can. */
    method LookUpReply(req: Request, now: int) returns (found: Option<Reply>)
      requires cache.Valid()
      modifies cache
      ensures cache.Valid()
      ensures (cache.View(), found) == LookUp(old(cache.View()), req, now)
      ensures forall e :: e in cache.lru ==> e in old(cache.lru)
    {
      var key := CacheKey(req);
      var neg := cache.Get(NegKey(key), now);
      if neg.Some? {
        return Some(NegHit);
      }
      var hit := cache.Get(key, now);
      if hit.Some? {
        return Some(CacheHit(req.id, hit.value));
      }
      return None;
    }

    /** The body of the flight: fetch, decode, and store what may be stored. */
    method FetchAndStore(req: Request, layer: Layer, reading: int, replies: seq<P.HttpReply>,
                         parse: string -> Option<Parsed>, ghost elements: set<C.Element>)
      returns (r: P.FetchResult, tried: seq<nat>)
      requires cache.Valid() && |replies| >= |pool.nodes| && parse("") == None
      requires forall e :: e in cache.lru ==> e in elements
      modifies cache, elements, pool`counter
      ensures cache.Valid()
      ensures P.FetchedBy(Eligible(req.rpc), old(pool.counter), replies, r, tried)
      ensures pool.counter == P.CounterAfter(old(pool.counter), |pool.nodes|, tried, r.Unavailable?)
      ensures var f := Outcome(r, parse);
        cache.View() ==
          StoreAfter(Cfg(), old(cache.View()), Proc(req, layer, Sight(0, [], false), HasFetched(f)), f, reading)
      ensures forall e :: e in cache.View() && e !in old(cache.View()) ==>
        || IsFetchedResult(e, req, layer, mutableTTL, replies, tried, parse, reading)
        || IsFailureMark(e, req, replies, tried, reading)
    {
      ghost var before := cache.View();
      ghost var c := pool.counter;
      r, tried := P.FetchFromUpstream(pool, req.rpc, replies);
      StoredFetchFits(Cfg(), before, req, layer, Eligible(req.rpc), c, replies, r, tried, parse, reading);
      StoreOutcome(req, layer, Outcome(r, parse), reading, elements);
    }

    /** Stores a result for as long as its layer allows and a failure for a second, except a 429. */
    method StoreOutcome(req: Request, layer: Layer, f: Fetched, reading: int, ghost elements: set<C.Element>)
      requires cache.Valid() && forall e :: e in cache.lru ==> e in elements
      modifies cache, elements
      ensures cache.Valid()
      ensures cache.View() ==
        StoreAfter(Cfg(), old(cache.View()), Proc(req, layer, Sight(0, [], false), HasFetched(f)), f, reading)
    {
      if f.FetchError? {
        if !f.rateLimited {
          cache.Set(NegKey(CacheKey(req)), NEG_SENTINEL, SECOND, reading);
        }
      } else if f.Result? {
        cache.Set(CacheKey(req), f.result, if layer == Mutable then mutableTTL else 0, reading);
      }
    }
  }
}
