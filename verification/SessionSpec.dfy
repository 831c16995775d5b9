/**
 The virtual WebSocket session as values: the three maps, the critical sections that
 change them, and the replay of subscriptions on a fresh upstream connection.
 */
module SessionSpec {
  import opened Common

  // ---- Frames ----

  /**
   What `forwardToClient` decodes: the raw text of the id ("" if absent), the result when
   it is a JSON string ("" otherwise), and the subscription named by an `eth_subscription`
   notification.
   */
  datatype Envelope = Envelope(id: string, result: string, notified: Option<string>)

  /**
   What the replay loop decodes: the id when it is a JSON string, the result ("" if absent
   or null), and whether a non-null error is present.
   */
  datatype Reply = Reply(id: Option<string>, result: string, failed: bool)

  /** An upstream frame; a decoding is None when it fails. `rest` is everything else. */
  datatype Frame = Frame(envelope: Option<Envelope>, reply: Option<Reply>, rest: string)

  predicate IsNotification(f: Frame) {
    f.envelope.Some? && f.envelope.value.notified.Some?
  }

  /** The subscription a notification names. */
  function Notified(f: Frame): string
    requires IsNotification(f)
  {
    f.envelope.value.notified.value
  }

  function Renamed(f: Frame, id: string): Frame
    requires IsNotification(f)
  {
    f.(envelope := Some(f.envelope.value.(notified := Some(id))))
  }

  /** A client message; `args` is None unless the parameters are an array of strings. */
  datatype ClientMsg =
    | Subscribe(id: string, params: string)
    | Unsubscribe(args: Option<seq<string>>, rest: string)
    | Other(text: string)

  // ---- Session state ----

  datatype Sub = Sub(params: string, upstreamID: string)

  /** `subs` and `upToClient` as in the session; `pending` maps raw request ids to params. */
  datatype Session = Session(
    subs: map<string, Sub>,
    upToClient: map<string, string>,
    pending: map<string, string>)

  const EMPTY: Session := Session(map[], map[], map[])

  const MAX_PENDING_SUBSCRIBES: nat := 1024

  /** `up` is exactly the inverse of the `upstreamID` field of `subs`. */
  ghost predicate InverseMaps(subs: map<string, Sub>, up: map<string, string>) {
    && (forall u :: u in up ==> up[u] in subs && subs[up[u]].upstreamID == u)
    && (forall c :: c in subs ==> subs[c].upstreamID in up && up[subs[c].upstreamID] == c)
  }

  ghost predicate Inverse(s: Session) {
    InverseMaps(s.subs, s.upToClient)
  }

  // ---- Critical sections ----

  /** The name under which the client hears a notification for `u`. */
  function Translate(s: Session, u: string): string {
    if u in s.upToClient then s.upToClient[u] else u
  }

  /** Registers an outgoing subscribe request, unless too many are outstanding. */
  function BeginSubscribe(s: Session, id: string, params: string): (Session, bool) {
    if |s.pending| >= MAX_PENDING_SUBSCRIBES then (s, false)
    else (s.(pending := s.pending[id := params]), true)
  }

  /** The pending request a response answers. */
  function Answers(s: Session, f: Frame): Option<string> {
    if f.envelope.Some? && f.envelope.value.notified.None?
       && f.envelope.value.id != "" && f.envelope.value.id in s.pending
    then Some(f.envelope.value.id) else None
  }

  function TakePending(s: Session, id: string): Session {
    s.(pending := s.pending - {id})
  }

  function Record(s: Session, u: string, params: string): Session {
    s.(subs := s.subs[u := Sub(params, u)], upToClient := s.upToClient[u := u])
  }

  /** Forgets a subscription and answers the id the upstream knows it by. */
  function EndSubscription(s: Session, c: string): (Session, string) {
    if c in s.subs then
      (s.(upToClient := s.upToClient - {s.subs[c].upstreamID}, subs := s.subs - {c}), s.subs[c].upstreamID)
    else (s, c)
  }

  /** Installs the id a new upstream gave to subscription `c`. */
  function Rebind(s: Session, c: string, u: string): Session
    requires c in s.subs
  {
    s.(upToClient := (s.upToClient - {s.subs[c].upstreamID})[u := c],
       subs := s.subs[c := s.subs[c].(upstreamID := u)])
  }

  /** What the client is sent for a frame. */
  function Shown(s: Session, f: Frame): Frame {
    if IsNotification(f) then Renamed(f, Translate(s, Notified(f))) else f
  }

  /** A frame handled without interruption: both critical sections of a response in a row. */
  function Forward(s: Session, f: Frame): (Session, Frame) {
    match Answers(s, f)
    case None => (s, Shown(s, f))
    case Some(id) =>
      var t := TakePending(s, id);
      (if f.envelope.value.result == "" then t else Record(t, f.envelope.value.result, s.pending[id]), f)
  }

  /** What goes upstream for an unsubscribe. */
  function RewriteUnsubscribe(s: Session, args: Option<seq<string>>): (Session, Option<seq<string>>) {
    if args.None? || args.value == [] then (s, args)
    else
      var (t, u) := EndSubscription(s, args.value[0]);
      (t, Some(args.value[0 := u]))
  }

  // ---- What the sections do, field by field ----

  /**
   `g` is what the client is sent for `f`: only the subscription a notification names may
   differ, and it is the client id mapped to, if there is one.
   */
  ghost predicate SentAs(up: map<string, string>, f: Frame, g: Frame) {
    && g.rest == f.rest && g.reply == f.reply
    && (f.envelope.None? ==> g.envelope.None?)
    && (f.envelope.Some? ==>
          && g.envelope.Some?
          && g.envelope.value.id == f.envelope.value.id && g.envelope.value.result == f.envelope.value.result
          && g.envelope.value.notified ==
               match f.envelope.value.notified
               case Some(u) => Some(if u in up then up[u] else u)
               case None => None)
  }

  /** A frame that is no notification, or whose subscription is not renamed, is passed on as it is. */
  lemma SentUnchanged(up: map<string, string>, f: Frame, g: Frame)
    requires SentAs(up, f, g)
    requires forall u :: f.envelope.Some? && f.envelope.value.notified == Some(u) && u in up ==> up[u] == u
    ensures g == f
  {
  }

  /** The frame confirms the pending request `id` as subscription `u`; `u` is "" if it does not succeed. */
  ghost predicate RespondsTo(s: Session, f: Frame, id: string, u: string) {
    f.envelope == Some(Envelope(id, u, None)) && id != "" && id in s.pending
  }

  lemma ForwardSends(s: Session, f: Frame)
    ensures SentAs(s.upToClient, f, Forward(s, f).1)
  {
  }

  /** Handling an upstream frame: what is sent, and what becomes of the three maps. */
  lemma ForwardExact(s: Session, f: Frame)
    ensures SentAs(s.upToClient, f, Forward(s, f).1)
    ensures forall id, u :: RespondsTo(s, f, id, u) ==>
      Forward(s, f).0 == Session(if u == "" then s.subs else s.subs[u := Sub(s.pending[id], u)],
                                 if u == "" then s.upToClient else s.upToClient[u := u],
                                 s.pending - {id})
    ensures (forall id, u :: !RespondsTo(s, f, id, u)) ==> Forward(s, f).0 == s
  {
    ForwardSends(s, f);
    if Answers(s, f).Some? {
      assert RespondsTo(s, f, f.envelope.value.id, f.envelope.value.result);
    }
  }

  // ---- When the sections keep the maps inverse ----

  /** Exact condition for a new subscription: its id clashes with no live one. */
  lemma RecordKeepsInverse(s: Session, u: string, params: string)
    requires Inverse(s)
    ensures Inverse(Record(s, u, params)) <==>
      forall c :: c in s.subs ==> (c == u <==> s.subs[c].upstreamID == u)
  {
    var t := Record(s, u, params);
    if Inverse(t) {
      forall c | c in s.subs ensures c == u <==> s.subs[c].upstreamID == u {
        if c == u {
          var v := s.subs[u].upstreamID;
          assert v in t.upToClient;
        } else {
          assert t.subs[c] == s.subs[c];
        }
      }
    }
  }

  /** Exact condition for a replay reply: the new id is no other live subscription's. */
  lemma RebindKeepsInverse(s: Session, c: string, u: string)
    requires Inverse(s) && c in s.subs
    ensures Inverse(Rebind(s, c, u)) <==>
      forall d :: d in s.subs && d != c ==> s.subs[d].upstreamID != u
  {
    var t := Rebind(s, c, u);
    if Inverse(t) {
      forall d | d in s.subs && d != c ensures s.subs[d].upstreamID != u {
        assert t.subs[d] == s.subs[d];
      }
    }
  }

  lemma EndKeepsInverse(s: Session, c: string)
    requires Inverse(s)
    ensures Inverse(EndSubscription(s, c).0)
  {
  }

  // ---- Replay ----

  const REPLAY_PREFIX: string := "replay:"

  function ReplayId(c: string): string {
    REPLAY_PREFIX + c
  }

  /** The awaited subscription whose replay request a frame answers. */
  function Target(f: Frame, awaiting: set<string>): Option<string> {
    if f.reply.Some? && f.reply.value.id.Some? && REPLAY_PREFIX <= f.reply.value.id.value
       && f.reply.value.id.value[|REPLAY_PREFIX|..] in awaiting
    then Some(f.reply.value.id.value[|REPLAY_PREFIX|..]) else None
  }

  lemma TargetExact(f: Frame, awaiting: set<string>, c: string)
    ensures Target(f, awaiting) == Some(c) <==>
      c in awaiting && f.reply.Some? && f.reply.value.id == Some(ReplayId(c))
  {
    assert ReplayId(c)[|REPLAY_PREFIX|..] == c;
    if Target(f, awaiting) == Some(c) {
      var id := f.reply.value.id.value;
      assert id == REPLAY_PREFIX + id[|REPLAY_PREFIX|..];
    }
  }

  /** A reply that installs a new id. */
  predicate Accepts(f: Frame) {
    f.reply.Some? && !f.reply.value.failed && f.reply.value.result != ""
  }

  datatype Replay = Replay(session: Session, awaiting: set<string>, stash: seq<Frame>, broken: bool)

  function Stash(stash: seq<Frame>, cap: nat, f: Frame): seq<Frame> {
    if |stash| >= cap then stash else stash + [f]
  }

  /** The replay loop meets one frame. */
  function ReplayStep(r: Replay, cap: nat, f: Frame): Replay
    requires r.awaiting <= r.session.subs.Keys
  {
    match Target(f, r.awaiting)
    case None => r.(stash := Stash(r.stash, cap, f))
    case Some(c) =>
      if Accepts(f)
      then r.(session := Rebind(r.session, c, f.reply.value.result), awaiting := r.awaiting - {c})
      else r.(broken := true)
  }

  predicate Finished(r: Replay) {
    r.broken || r.awaiting == {}
  }

  /** The loop reads until every reply is in, a reply fails, or the frames end in a read error. */
  function ReplayLoop(r: Replay, cap: nat, frames: seq<Frame>): (q: Replay)
    requires r.awaiting <= r.session.subs.Keys
    ensures q.awaiting <= r.awaiting
    ensures q.session.subs.Keys == r.session.subs.Keys && q.session.pending == r.session.pending
    decreases |frames|
  {
    if Finished(r) || frames == [] then r
    else ReplayLoop(ReplayStep(r, cap, frames[0]), cap, frames[1..])
  }

  /** The loop from the `i`-th frame on meets that frame and goes on with the next. */
  lemma ReplayLoopNext(r: Replay, cap: nat, frames: seq<Frame>, i: nat)
    requires r.awaiting <= r.session.subs.Keys && !Finished(r) && i < |frames|
    ensures ReplayLoop(r, cap, frames[i..]) == ReplayLoop(ReplayStep(r, cap, frames[i]), cap, frames[i + 1..])
  {
    assert frames[i..][1..] == frames[i + 1..];
  }

  lemma ReplayLoopEnds(r: Replay, cap: nat, frames: seq<Frame>)
    requires r.awaiting <= r.session.subs.Keys && (Finished(r) || frames == [])
    ensures ReplayLoop(r, cap, frames) == r
  {
  }

  function StartReplay(s: Session): Replay {
    Replay(s, s.subs.Keys, [], false)
  }

  predicate Succeeded(r: Replay) {
    !r.broken && r.awaiting == {}
  }

  /** The frames read while a reply is outstanding that answer no outstanding request. */
  function Unrelated(awaiting: set<string>, frames: seq<Frame>): seq<Frame>
    decreases |frames|
  {
    if awaiting == {} || frames == [] then []
    else match Target(frames[0], awaiting)
      case None => [frames[0]] + Unrelated(awaiting, frames[1..])
      case Some(c) =>
        if Accepts(frames[0]) then Unrelated(awaiting - {c}, frames[1..]) else []
  }

  function Take(s: seq<Frame>, n: nat): seq<Frame> {
    if |s| <= n then s else s[..n]
  }

  lemma {:induction false} StashIsPrefix(r: Replay, cap: nat, frames: seq<Frame>)
    requires r.awaiting <= r.session.subs.Keys && !r.broken && |r.stash| <= cap
    ensures ReplayLoop(r, cap, frames).stash == Take(r.stash + Unrelated(r.awaiting, frames), cap)
    decreases |frames|
  {
    if Finished(r) || frames == [] {
      assert r.stash + Unrelated(r.awaiting, frames) == r.stash;
    } else {
      var f := frames[0];
      var q := ReplayStep(r, cap, f);
      match Target(f, r.awaiting)
      case None =>
        StashIsPrefix(q, cap, frames[1..]);
        var rest := Unrelated(r.awaiting, frames[1..]);
        assert r.stash + Unrelated(r.awaiting, frames) == (r.stash + [f]) + rest;
        if |r.stash| == cap {
          assert Take(r.stash + rest, cap) == r.stash == Take(r.stash + ([f] + rest), cap);
        }
      case Some(c) =>
        if Accepts(f) {
          StashIsPrefix(q, cap, frames[1..]);
        } else {
          assert r.stash + Unrelated(r.awaiting, frames) == r.stash;
        }
    }
  }

  /** Frames stashed by a replay: the first `cap` unrelated frames, in arrival order. */
  lemma StashedFrames(s: Session, cap: nat, frames: seq<Frame>)
    ensures ReplayLoop(StartReplay(s), cap, frames).stash == Take(Unrelated(s.subs.Keys, frames), cap)
  {
    StashIsPrefix(StartReplay(s), cap, frames);
    assert [] + Unrelated(s.subs.Keys, frames) == Unrelated(s.subs.Keys, frames);
  }

  /** Every reply the loop accepts brings an id no other live subscription holds. */
  ghost predicate FreshReplies(r: Replay, cap: nat, frames: seq<Frame>)
    requires r.awaiting <= r.session.subs.Keys
    decreases |frames|
  {
    Finished(r) || frames == [] ||
    (&& (var t := Target(frames[0], r.awaiting);
         t.Some? && Accepts(frames[0]) ==>
           forall d :: d in r.session.subs && d != t.value ==>
             r.session.subs[d].upstreamID != frames[0].reply.value.result)
     && FreshReplies(ReplayStep(r, cap, frames[0]), cap, frames[1..]))
  }

  /** `u` is the id that an accepted reply among `frames` gave to `c`. */
  ghost predicate IssuedTo(frames: seq<Frame>, c: string, u: string) {
    exists i :: 0 <= i < |frames| && Accepts(frames[i])
                && frames[i].reply.value.id == Some(ReplayId(c)) && frames[i].reply.value.result == u
  }

  lemma IssuedToLonger(f: Frame, rest: seq<Frame>, c: string, u: string)
    requires IssuedTo(rest, c, u)
    ensures IssuedTo([f] + rest, c, u)
  {
    var i :| 0 <= i < |rest| && Accepts(rest[i])
             && rest[i].reply.value.id == Some(ReplayId(c)) && rest[i].reply.value.result == u;
    assert ([f] + rest)[i + 1] == rest[i];
  }

  /** Subscription `c` on the way from `r` to `q`: same params, and a new id exactly if one was issued to it. */
  ghost predicate Progressed(r: Replay, q: Replay, frames: seq<Frame>, c: string)
    requires c in r.session.subs && c in q.session.subs
  {
    && q.session.subs[c].params == r.session.subs[c].params
    && (if c in r.awaiting && c !in q.awaiting
        then IssuedTo(frames, c, q.session.subs[c].upstreamID)
        else q.session.subs[c].upstreamID == r.session.subs[c].upstreamID)
  }

  /** One frame, then the rest. */
  lemma ProgressedStep(r: Replay, cap: nat, f: Frame, rest: seq<Frame>, q: Replay, c: string)
    requires r.awaiting <= r.session.subs.Keys && c in r.session.subs && c in q.session.subs
    requires var s := ReplayStep(r, cap, f);
      q.awaiting <= s.awaiting && Progressed(s, q, rest, c)
    ensures Progressed(r, q, [f] + rest, c)
  {
    var s := ReplayStep(r, cap, f);
    var t := Target(f, r.awaiting);
    if c in s.awaiting && c !in q.awaiting {
      IssuedToLonger(f, rest, c, q.session.subs[c].upstreamID);
    } else if t == Some(c) && Accepts(f) {
      TargetExact(f, r.awaiting, c);
      assert ([f] + rest)[0] == f;
    }
  }

  /**
   What a replay does, however far it gets: client ids and params stay, the maps stay
   inverse, and every subscription no longer awaited holds an id this upstream issued for it.
   */
  lemma {:induction false} ReplayProgress(r: Replay, cap: nat, frames: seq<Frame>)
    requires r.awaiting <= r.session.subs.Keys && Inverse(r.session) && FreshReplies(r, cap, frames)
    ensures var q := ReplayLoop(r, cap, frames);
      && Inverse(q.session)
      && forall c :: c in r.session.subs ==> Progressed(r, q, frames, c)
    decreases |frames|
  {
    if !Finished(r) && frames != [] {
      var f, rest := frames[0], frames[1..];
      var t := Target(f, r.awaiting);
      if t.Some? && Accepts(f) {
        RebindKeepsInverse(r.session, t.value, f.reply.value.result);
      }
      ReplayProgress(ReplayStep(r, cap, f), cap, rest);
      assert frames == [f] + rest;
      forall c | c in r.session.subs ensures Progressed(r, ReplayLoop(r, cap, frames), frames, c) {
        ProgressedStep(r, cap, f, rest, ReplayLoop(r, cap, frames), c);
      }
    }
  }

  /**
   The failover guarantee: after a successful replay every subscription has its client id
   and params, an id issued by the new upstream, no stale mapping, and its notifications
   are shown under the client id.
   */
  lemma ReplayRestoresSubscriptions(s: Session, cap: nat, frames: seq<Frame>, c: string)
    requires Inverse(s) && FreshReplies(StartReplay(s), cap, frames)
    requires Succeeded(ReplayLoop(StartReplay(s), cap, frames)) && c in s.subs
    ensures var t := ReplayLoop(StartReplay(s), cap, frames).session;
      && t.subs.Keys == s.subs.Keys && t.subs[c].params == s.subs[c].params
      && IssuedTo(frames, c, t.subs[c].upstreamID)
      && Translate(t, t.subs[c].upstreamID) == c
      && forall u :: u in t.upToClient && t.upToClient[u] == c ==> u == t.subs[c].upstreamID
  {
    ReplayProgress(StartReplay(s), cap, frames);
  }

  /**
   Freshness is needed: when a new upstream hands two subscriptions each other's old ids,
   the first rebinding is undone by the second, and the first subscription's notifications
   reach the client under the second one's id.
   */
  lemma SwappedIdsMisdeliver()
    ensures
      var s := Session(map["a" := Sub("p", "a"), "b" := Sub("q", "b")], map["a" := "a", "b" := "b"], map[]);
      var t := Rebind(Rebind(s, "a", "b"), "b", "a");
      && Inverse(s)
      && t.subs["a"].upstreamID == "b"
      && "b" !in t.upToClient
      && Translate(t, t.subs["a"].upstreamID) == "b" && "b" in t.subs
  {
  }

  // ---- Flush ----

  /** The stashed frames forwarded one after the other. */
  function Flush(s: Session, frames: seq<Frame>): (r: (Session, seq<Frame>))
    ensures |r.1| == |frames|
    decreases |frames|
  {
    if frames == [] then (s, [])
    else
      var (t, fs) := Flush(s, frames[..|frames| - 1]);
      var (u, f) := Forward(t, frames[|frames| - 1]);
      (u, fs + [f])
  }

  /** Both sessions show every notification under the same name. */
  ghost predicate SameNames(s: Session, t: Session) {
    forall u :: Translate(s, u) == Translate(t, u)
  }

  /** A subscription the frame confirms has an id that is shown as itself already. */
  predicate ConfirmsNamesake(s: Session, f: Frame) {
    Answers(s, f).Some? && f.envelope.value.result != "" ==>
      Translate(s, f.envelope.value.result) == f.envelope.value.result
  }

  /** The exact condition for one frame. */
  lemma ForwardKeepsNames(s: Session, f: Frame)
    ensures SameNames(s, Forward(s, f).0) <==> ConfirmsNamesake(s, f)
    ensures ConfirmsNamesake(s, f) ==> forall u :: u in s.upToClient ==>
      u in Forward(s, f).0.upToClient && Forward(s, f).0.upToClient[u] == s.upToClient[u]
  {
    var t := Forward(s, f).0;
    if Answers(s, f).Some? && f.envelope.value.result != "" {
      assert Translate(t, f.envelope.value.result) == f.envelope.value.result;
    }
  }

  /** The session after the first `i` frames of the flush. */
  function FlushedTo(s: Session, frames: seq<Frame>, i: nat): Session
    requires i <= |frames|
  {
    Flush(s, frames[..i]).0
  }

  lemma FlushedNext(s: Session, frames: seq<Frame>, i: nat)
    requires i < |frames|
    ensures FlushedTo(s, frames, i + 1) == Forward(FlushedTo(s, frames, i), frames[i]).0
    ensures Flush(s, frames[..i + 1]).1 == Flush(s, frames[..i]).1 + [Forward(FlushedTo(s, frames, i), frames[i]).1]
  {
    assert frames[..i + 1][..i] == frames[..i];
  }

  /** Every subscription confirmed by the flush has an id that is shown as itself by then. */
  ghost predicate FlushConfirmsNamesakes(s: Session, frames: seq<Frame>, m: nat)
    requires m <= |frames|
  {
    forall i :: 0 <= i < m ==> ConfirmsNamesake(FlushedTo(s, frames, i), frames[i])
  }

  lemma {:induction false} FlushKeepsNames(s: Session, frames: seq<Frame>, i: nat)
    requires i <= |frames| && FlushConfirmsNamesakes(s, frames, i)
    ensures SameNames(s, FlushedTo(s, frames, i))
    ensures forall u :: u in s.upToClient ==>
      u in FlushedTo(s, frames, i).upToClient && FlushedTo(s, frames, i).upToClient[u] == s.upToClient[u]
  {
    if i > 0 {
      FlushKeepsNames(s, frames, i - 1);
      FlushedNext(s, frames, i - 1);
      ForwardKeepsNames(FlushedTo(s, frames, i - 1), frames[i - 1]);
    }
  }

  /**
   The exact condition under which the mapping a replay completed names every notification
   throughout the flush.
   */
  lemma FlushKeepsNamesIff(s: Session, frames: seq<Frame>)
    ensures (forall i :: 0 <= i <= |frames| ==> SameNames(s, FlushedTo(s, frames, i)))
      <==> FlushConfirmsNamesakes(s, frames, |frames|)
  {
    if FlushConfirmsNamesakes(s, frames, |frames|) {
      forall i | 0 <= i <= |frames| ensures SameNames(s, FlushedTo(s, frames, i)) {
        FlushKeepsNames(s, frames, i);
      }
    }
    if forall i :: 0 <= i <= |frames| ==> SameNames(s, FlushedTo(s, frames, i)) {
      forall i | 0 <= i < |frames| ensures ConfirmsNamesake(FlushedTo(s, frames, i), frames[i]) {
        assert SameNames(s, FlushedTo(s, frames, i)) && SameNames(s, FlushedTo(s, frames, i + 1));
        FlushedNext(s, frames, i);
        ForwardKeepsNames(FlushedTo(s, frames, i), frames[i]);
      }
    }
  }

  /** A frame is shown with the mapping the flush started from, whatever follows it. */
  lemma {:induction false} FlushShows(s: Session, frames: seq<Frame>, m: nat, i: nat)
    requires i < m <= |frames| && FlushConfirmsNamesakes(s, frames, i)
    ensures Flush(s, frames[..m]).1[i] == Shown(s, frames[i])
    decreases m
  {
    FlushedNext(s, frames, m - 1);
    if i < m - 1 {
      FlushShows(s, frames, m - 1, i);
    } else {
      FlushKeepsNames(s, frames, i);
      assert Forward(FlushedTo(s, frames, i), frames[i]).1 == Shown(FlushedTo(s, frames, i), frames[i]);
    }
  }

  /** Each flushed frame is shown with the mapping the flush started from, and mappings stay. */
  lemma FlushUsesFinalMapping(s: Session, frames: seq<Frame>)
    requires FlushConfirmsNamesakes(s, frames, |frames|)
    ensures forall u :: u in s.upToClient ==>
      u in Flush(s, frames).0.upToClient && Flush(s, frames).0.upToClient[u] == s.upToClient[u]
    ensures forall i :: 0 <= i < |frames| ==>
      Flush(s, frames).1[i] == Shown(s, frames[i]) && SentAs(s.upToClient, frames[i], Flush(s, frames).1[i])
  {
    assert frames[..|frames|] == frames;
    FlushKeepsNames(s, frames, |frames|);
    forall i | 0 <= i < |frames|
      ensures Flush(s, frames).1[i] == Shown(s, frames[i]) && SentAs(s.upToClient, frames[i], Flush(s, frames).1[i])
    {
      FlushShows(s, frames, |frames|, i);
    }
  }

  /**
   Reconnection as the client sees it: a notification stashed before its own replay reply
   arrived is still shown under the client id of its subscription.
   */
  lemma StashedNotificationRemapped(s: Session, cap: nat, frames: seq<Frame>, i: nat, c: string)
    requires Inverse(s) && FreshReplies(StartReplay(s), cap, frames)
    requires Succeeded(ReplayLoop(StartReplay(s), cap, frames)) && c in s.subs
    requires var q := ReplayLoop(StartReplay(s), cap, frames);
      && i < |q.stash| && FlushConfirmsNamesakes(q.session, q.stash, i)
      && IsNotification(q.stash[i])
      && Notified(q.stash[i]) == q.session.subs[c].upstreamID
    ensures var q := ReplayLoop(StartReplay(s), cap, frames);
      var f, g := q.stash[i], Flush(q.session, q.stash).1[i];
      && g.rest == f.rest && g.reply == f.reply
      && g.envelope == Some(Envelope(f.envelope.value.id, f.envelope.value.result, Some(c)))
  {
    var q := ReplayLoop(StartReplay(s), cap, frames);
    ReplayProgress(StartReplay(s), cap, frames);
    FlushShows(q.session, q.stash, |q.stash|, i);
    assert q.stash[..|q.stash|] == q.stash;
  }
}
