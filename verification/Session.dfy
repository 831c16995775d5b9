/**
 The session object: subscriptions are heap objects whose upstream id is rebound in place
 during a replay. Each method is proved to act on the session's maps as `SessionSpec` says.
 */
module WsSession {
  import opened Common
  import opened SessionSpec
  import opened ReplayExact

  /** One active eth_subscribe registration. */
  class Subscription {
    const subscribeParams: string
    const clientID: string
    var upstreamID: string

    constructor (subscribeParams: string, clientID: string, upstreamID: string)
      ensures this.subscribeParams == subscribeParams && this.clientID == clientID
      ensures this.upstreamID == upstreamID
    {
      this.subscribeParams, this.clientID, this.upstreamID := subscribeParams, clientID, upstreamID;
    }
  }

  /** The subscriptions as values. */
  ghost function ViewSubs(subs: map<string, Subscription>): (m: map<string, Sub>)
    reads subs.Values
    ensures m.Keys == subs.Keys
  {
    map c | c in subs :: Sub(subs[c].subscribeParams, subs[c].upstreamID)
  }

  class Session {
    var subs: map<string, Subscription>
    var upToClient: map<string, string>
    var pending: map<string, string>
    const replayPendingCap: nat

    ghost predicate Valid()
      reads this
    {
      forall c :: c in subs ==> subs[c].clientID == c
    }

    ghost function View(): SessionSpec.Session
      reads this, subs.Values
    {
      SessionSpec.Session(ViewSubs(subs), upToClient, pending)
    }

    constructor (replayPendingCap: nat)
      ensures Valid() && View() == EMPTY && this.replayPendingCap == replayPendingCap
    {
      this.replayPendingCap := replayPendingCap;
      subs, upToClient, pending := map[], map[], map[];
    }

    /**
     Handles a client message: what is written upstream, or None when a subscribe request
     is rejected and the client gets an error instead.
     */
    method ForwardToUpstream(msg: ClientMsg) returns (up: Option<ClientMsg>)
      requires Valid()
      modifies this
      ensures Valid()
      ensures match msg
        case Subscribe(id, params) =>
          && View() == BeginSubscribe(old(View()), id, params).0
          && up == (if BeginSubscribe(old(View()), id, params).1 then Some(msg) else None)
        case Unsubscribe(args, rest) =>
          && View() == SessionSpec.RewriteUnsubscribe(old(View()), args).0
          && up == Some(Unsubscribe(SessionSpec.RewriteUnsubscribe(old(View()), args).1, rest))
        case Other(_) => View() == old(View()) && up == Some(msg)
      ensures msg.Subscribe? ==>
        && subs == old(subs) && upToClient == old(upToClient)
        && pending == (if old(|pending|) < 1024 then old(pending)[msg.id := msg.params] else old(pending))
        && up == (if old(|pending|) < 1024 then Some(msg) else None)
    {
      match msg
      case Subscribe(id, params) =>
        if |pending| >= MAX_PENDING_SUBSCRIBES {
          return None;
        }
        pending := pending[id := params];
        return Some(msg);
      case Unsubscribe(args, rest) =>
        var sent := RewriteUnsubscribe(args);
        return Some(Unsubscribe(sent, rest));
      case Other(_) =>
        return Some(msg);
    }

    method RewriteUnsubscribe(args: Option<seq<string>>) returns (sent: Option<seq<string>>)
      requires Valid()
      modifies this`subs, this`upToClient
      ensures Valid()
      ensures (View(), sent) == SessionSpec.RewriteUnsubscribe(old(View()), args)
      ensures args.Some? && args.value != [] && args.value[0] in old(subs) ==>
        var u := old(subs[args.value[0]].upstreamID);
        && subs == old(subs) - {args.value[0]} && upToClient == old(upToClient) - {u}
        && sent == Some([u] + args.value[1..])
      ensures !(args.Some? && args.value != [] && args.value[0] in old(subs)) ==>
        subs == old(subs) && upToClient == old(upToClient) && sent == args
    {
      if args.None? || args.value == [] {
        return args;
      }
      var clientID := args.value[0];
      assert args.value[0 := clientID] == args.value == [clientID] + args.value[1..];
      if clientID !in subs {
        return args;
      }
      var sub := subs[clientID];
      upToClient := upToClient - {sub.upstreamID};
      subs := subs - {clientID};
      assert ViewSubs(subs) == old(ViewSubs(subs)) - {clientID};
      if sub.upstreamID == clientID {
        return args;
      }
      assert args.value[0 := sub.upstreamID] == [sub.upstreamID] + args.value[1..];
      return Some(args.value[0 := sub.upstreamID]);
    }

    /** The response to a pending subscribe request: a string result becomes a subscription. */
    method NoteResponse(id: string, result: string)
      requires Valid() && id in pending
      modifies this
      ensures Valid() && pending == old(pending) - {id}
      ensures View() ==
        var t := TakePending(old(View()), id);
        if result == "" then t else Record(t, result, old(pending[id]))
    {
      var params := pending[id];
      pending := pending - {id};
      if result != "" {
        var sub := new Subscription(params, result, result);
        ghost var before := View();
        subs := subs[result := sub];
        upToClient := upToClient[result := result];
        assert View().subs == before.subs[result := Sub(params, result)];
      }
    }

    /** Handles an upstream frame and answers what the client is sent. */
    method ForwardToClient(f: Frame) returns (shown: Frame)
      requires Valid()
      modifies this
      ensures Valid()
      ensures (View(), shown) == Forward(old(View()), f)
      ensures SentAs(old(upToClient), f, shown)
    {
      ForwardSends(View(), f);
      if f.envelope.None? {
        return f;
      }
      var e := f.envelope.value;
      if e.notified.Some? {
        var upID := e.notified.value;
        if upID in upToClient && upToClient[upID] != upID {
          return Renamed(f, upToClient[upID]);
        }
        return f;
      }
      if e.id != "" && e.id in pending {
        NoteResponse(e.id, e.result);
      }
      return f;
    }

    /** Points a subscription at the id the new upstream gave it. */
    method RebindSub(sub: Subscription, u: string)
      requires Valid() && sub.clientID in subs && subs[sub.clientID] == sub
      modifies this`upToClient, sub
      ensures Valid()
      ensures View() == Rebind(old(View()), sub.clientID, u)
    {
      upToClient := upToClient - {sub.upstreamID};
      sub.upstreamID := u;
      upToClient := upToClient[u := sub.clientID];
      assert View().subs == Rebind(old(View()), sub.clientID, u).subs;
    }

    /** `awaited` holds the subscription behind each outstanding replay request. */
    ghost predicate Tracks(awaited: map<string, Subscription>, awaiting: set<string>)
      reads this
    {
      && awaiting <= subs.Keys
      && (forall c :: c in awaiting ==> ReplayId(c) in awaited && awaited[ReplayId(c)] == subs[c])
      && (forall id :: id in awaited ==> awaited[id].clientID in awaiting && id == ReplayId(awaited[id].clientID))
    }

    /**
     Sends one replay request per subscription, in arbitrary order; the write after the
     first `writable` ones fails.
     */
    method SendReplays(writable: nat) returns (awaited: map<string, Subscription>, sent: seq<(string, string)>, ok: bool)
      requires Valid()
      ensures ok ==> Tracks(awaited, subs.Keys)
      ensures ok <==> |subs| <= writable
      ensures ok ==> |sent| == |subs|
      ensures ok ==> forall c :: c in subs ==> ("replay:" + c, subs[c].subscribeParams) in sent
    {
      awaited, sent := map[], [];
      var todo := subs.Keys;
      while todo != {}
        invariant todo <= subs.Keys
        invariant Tracks(awaited, subs.Keys - todo)
        invariant |sent| == |subs| - |todo| && |sent| <= writable
        invariant forall c :: c in subs.Keys - todo ==> (ReplayId(c), subs[c].subscribeParams) in sent
        decreases todo
      {
        var c :| c in todo;
        var sub := subs[c];
        if |sent| == writable {
          return awaited, sent, false;
        }
        TracksAdd(awaited, subs.Keys - todo, c);
        assert subs.Keys - (todo - {c}) == (subs.Keys - todo) + {c};
        sent := sent + [(ReplayId(c), sub.subscribeParams)];
        awaited := awaited[ReplayId(c) := sub];
        todo := todo - {c};
      }
      assert subs.Keys - {} == subs.Keys;
      return awaited, sent, true;
    }

    /**
     Replays every subscription on a fresh connection that delivers `frames` and then fails
     to read. Answers the stashed frames and whether the replay succeeded.
     */
    method ReplaySubscriptions(frames: seq<Frame>, writable: nat) returns (stash: seq<Frame>, ok: bool)
      requires Valid()
      modifies this`upToClient, subs.Values
      ensures Valid() && subs == old(subs)
      ensures |subs| > writable ==> View() == old(View()) && !ok
      ensures |subs| <= writable ==>
        var r := ReplayLoop(StartReplay(old(View())), replayPendingCap, frames);
        View() == r.session && stash == r.stash && ok == Succeeded(r)
      ensures |subs| <= writable ==> (ok <==> AllRenewable(frames, subs.Keys))
      ensures ok ==> forall c :: c in subs ==> Renewed(frames, c, subs[c].upstreamID)
    {
      ReplaySucceedsIff(View(), replayPendingCap, frames);
      var awaited, sent, written := SendReplays(writable);
      if !written {
        return [], false;
      }
      TracksValues(awaited, subs.Keys);
      stash, ok := CollectReplies(awaited, subs.Keys, frames);
    }

    /** Reads until every replay request is answered, one fails, or reading fails. */
    method CollectReplies(requests: map<string, Subscription>, ghost all: set<string>, frames: seq<Frame>)
      returns (stash: seq<Frame>, ok: bool)
      requires Valid() && Tracks(requests, all)
      modifies this`upToClient, requests.Values
      ensures Valid() && subs == old(subs)
      ensures var r := ReplayLoop(Replay(old(View()), all, [], false), replayPendingCap, frames);
        View() == r.session && stash == r.stash && ok == Succeeded(r)
    {
      stash := [];
      var awaited := requests;
      ghost var r := Replay(View(), all, [], false);
      ghost var goal := ReplayLoop(r, replayPendingCap, frames);
      var i := 0;
      assert frames[0..] == frames;
      while |awaited| > 0
        invariant Valid() && subs == old(subs) && Tracks(awaited, r.awaiting)
        invariant awaited.Values <= requests.Values
        invariant 0 <= i <= |frames|
        invariant r == Replay(View(), r.awaiting, stash, false)
        invariant ReplayLoop(r, replayPendingCap, frames[i..]) == goal
        decreases |frames| - i
      {
        TracksNonempty(awaited, r.awaiting);
        if i == |frames| {
          ReplayLoopEnds(r, replayPendingCap, frames[i..]);
          return stash, false;
        }
        ReplayLoopNext(r, replayPendingCap, frames, i);
        ghost var awaiting;
        var broken;
        awaited, awaiting, stash, broken := ReplayRead(frames[i], awaited, r.awaiting, stash);
        r := Replay(View(), awaiting, stash, broken);
        i := i + 1;
        if broken {
          ReplayLoopEnds(r, replayPendingCap, frames[i..]);
          return stash, false;
        }
      }
      TracksEmpty(awaited, r.awaiting);
      ReplayLoopEnds(r, replayPendingCap, frames[i..]);
      return stash, true;
    }

    /** One turn of the replay loop. */
    method ReplayRead(f: Frame, awaited: map<string, Subscription>, ghost awaiting: set<string>, stash: seq<Frame>)
      returns (awaited': map<string, Subscription>, ghost awaiting': set<string>, stash': seq<Frame>, broken: bool)
      requires Valid() && Tracks(awaited, awaiting)
      modifies this`upToClient, awaited.Values
      ensures Valid() && subs == old(subs) && Tracks(awaited', awaiting')
      ensures awaited'.Values <= awaited.Values
      ensures Replay(View(), awaiting', stash', broken) ==
        ReplayStep(Replay(old(View()), awaiting, stash, false), replayPendingCap, f)
    {
      awaited', awaiting', stash', broken := awaited, awaiting, stash, false;
      TracksTarget(awaited, awaiting, f);
      if f.reply.None? || f.reply.value.id.None? || f.reply.value.id.value !in awaited {
        stash' := AddToStash(stash, f);
        return;
      }
      var id := f.reply.value.id.value;
      var sub := awaited[id];
      if f.reply.value.failed || f.reply.value.result == "" {
        broken := true;
        return;
      }
      RebindSub(sub, f.reply.value.result);
      awaited' := awaited - {id};
      awaiting' := awaiting - {sub.clientID};
      ReplayIdInjective(sub.clientID);
    }

    method AddToStash(stash: seq<Frame>, f: Frame) returns (r: seq<Frame>)
      ensures r == Stash(stash, replayPendingCap, f)
    {
      if |stash| >= replayPendingCap {
        return stash;
      }
      return stash + [f];
    }

    lemma TracksAdd(awaited: map<string, Subscription>, awaiting: set<string>, c: string)
      requires Valid() && Tracks(awaited, awaiting) && c in subs
      ensures Tracks(awaited[ReplayId(c) := subs[c]], awaiting + {c})
    {
      ReplayIdInjective(c);
    }

    lemma TracksValues(awaited: map<string, Subscription>, awaiting: set<string>)
      requires Tracks(awaited, awaiting)
      ensures awaited.Values <= subs.Values
    {
    }

    lemma TracksNonempty(awaited: map<string, Subscription>, awaiting: set<string>)
      requires Tracks(awaited, awaiting) && |awaited| > 0
      ensures awaiting != {}
    {
      assert awaited.Keys != {};
      var id :| id in awaited;
    }

    lemma TracksEmpty(awaited: map<string, Subscription>, awaiting: set<string>)
      requires Tracks(awaited, awaiting) && |awaited| == 0
      ensures awaiting == {}
    {
      forall c ensures c !in awaiting {
        assert ReplayId(c) !in awaited;
      }
    }

    lemma TracksTarget(awaited: map<string, Subscription>, awaiting: set<string>, f: Frame)
      requires Tracks(awaited, awaiting)
      ensures Target(f, awaiting) ==
        if f.reply.Some? && f.reply.value.id.Some? && f.reply.value.id.value in awaited
        then Some(awaited[f.reply.value.id.value].clientID) else None
    {
      if Target(f, awaiting).Some? {
        TargetExact(f, awaiting, Target(f, awaiting).value);
      }
      if f.reply.Some? && f.reply.value.id.Some? && f.reply.value.id.value in awaited {
        TargetExact(f, awaiting, awaited[f.reply.value.id.value].clientID);
      }
    }

    /** Sends the stashed frames to the client in order. */
    method FlushFrames(stash: seq<Frame>) returns (shown: seq<Frame>)
      requires Valid()
      modifies this
      ensures Valid()
      ensures (View(), shown) == Flush(old(View()), stash)
    {
      shown := [];
      for i := 0 to |stash|
        invariant Valid()
        invariant (View(), shown) == Flush(old(View()), stash[..i])
      {
        var f := ForwardToClient(stash[i]);
        shown := shown + [f];
        assert stash[..i + 1][..i] == stash[..i];
      }
      assert stash[..|stash|] == stash;
    }

    /**
     A reconnection as `run` performs it: replay, then flush the stash to the client before
     any other frame of the connection is read.
     */
    method Reconnect(frames: seq<Frame>, writable: nat) returns (ok: bool, shown: seq<Frame>)
      requires Valid()
      modifies this, subs.Values
      ensures Valid()
      ensures old(|subs|) > writable ==> View() == old(View()) && !ok && shown == []
      ensures old(|subs|) <= writable ==>
        var r := ReplayLoop(StartReplay(old(View())), replayPendingCap, frames);
        && ok == Succeeded(r)
        && (View(), shown) == if ok then Flush(r.session, r.stash) else (r.session, [])
    {
      shown := [];
      var stash;
      stash, ok := ReplaySubscriptions(frames, writable);
      if ok {
        shown := FlushFrames(stash);
      }
    }
  }

  lemma ReplayIdInjective(c: string)
    ensures forall d :: ReplayId(d) == ReplayId(c) ==> d == c
  {
    forall d | ReplayId(d) == ReplayId(c) ensures d == c {
      assert ReplayId(d)[|REPLAY_PREFIX|..] == d;
      assert ReplayId(c)[|REPLAY_PREFIX|..] == c;
    }
  }
}
