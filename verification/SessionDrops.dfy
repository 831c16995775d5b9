/**
 Subscribe requests that a drop leaves unanswered. The session keeps them pending, so that
 a response on a later connection may be taken for theirs.
 */
module SessionDrops {
  import opened Common
  import opened SessionSpec
  import opened SessionRun

  /** The action sends the subscribe request with raw id `id` upstream. */
  predicate Sends(st: State, a: Action, id: string) {
    && a.ClientSends? && a.msg.Subscribe? && a.msg.id == id
    && Enabled(st, a) && |st.session.pending| < MAX_PENDING_SUBSCRIBES
  }

  /** The connection on which the last such request among the first `t` actions went out, 0 if none did. */
  function SentOn(cap: nat, acts: seq<Action>, t: nat, id: string): nat
    requires t <= |acts|
  {
    if t == 0 then 0
    else if Sends(Run(cap, acts, t - 1), acts[t - 1], id) then Run(cap, acts, t - 1).conn
    else SentOn(cap, acts, t - 1, id)
  }

  /** The pending request that an action takes to be confirmed as a subscription. */
  function Confirmed(st: State, a: Action): Option<string> {
    var h := Handles(st, a);
    if h.Some? && Answers(st.session, h.value).Some? && h.value.envelope.value.result != ""
    then Answers(st.session, h.value) else None
  }

  /** The action at position `i` confirms a request that was sent on another connection. */
  ghost predicate StrayAt(cap: nat, acts: seq<Action>, i: nat)
    requires i < |acts|
  {
    var st := Run(cap, acts, i);
    var id := Confirmed(st, acts[i]);
    id.Some? && SentOn(cap, acts, i, id.value) != st.conn
  }

  /** Some response could answer a pending request; one without an id is never answered. */
  ghost predicate Answerable(pending: map<string, string>) {
    exists id :: id in pending && id != ""
  }

  /** The action at position `i` connects while a request is waiting for an answer. */
  ghost predicate CarriesOverAt(cap: nat, acts: seq<Action>, i: nat)
    requires i < |acts|
  {
    var st := Run(cap, acts, i);
    acts[i].Connect? && Enabled(st, acts[i]) && Answerable(st.session.pending)
  }

  // ---- Nothing carried over: no stray confirmation ----

  /** Every request that may be answered was sent on this connection. */
  ghost predicate PendingHere(cap: nat, acts: seq<Action>, t: nat)
    requires t <= |acts|
  {
    var st := Run(cap, acts, t);
    forall id :: id in st.session.pending && id != "" ==> SentOn(cap, acts, t, id) == st.conn
  }

  lemma MeetPending(st: State, f: Frame)
    ensures Meet(st, f).conn == st.conn && Meet(st, f).session.pending.Keys <= st.session.pending.Keys
  {
  }

  lemma ClientPending(st: State, m: ClientMsg)
    requires st.phase.Pumping?
    ensures ClientMeet(st, m).conn == st.conn
    ensures forall id :: id in ClientMeet(st, m).session.pending ==> id in st.session.pending || Sends(st, ClientSends(m), id)
  {
  }

  /** What a step does to the pending requests and to the connection. */
  lemma StepPending(st: State, cap: nat, a: Action)
    ensures var t := Step(st, cap, a);
      && t.conn == (if a.Connect? && Enabled(st, a) then st.conn + 1 else st.conn)
      && forall id :: id in t.session.pending ==> id in st.session.pending || Sends(st, a, id)
  {
    if Enabled(st, a) {
      match a
      case UpstreamFrame(f) => MeetPending(st, f);
      case FlushNext => MeetPending(st, st.phase.queue[0]);
      case ClientSends(m) => ClientPending(st, m);
      case _ =>
    }
  }

  lemma PendingHereNext(cap: nat, acts: seq<Action>, t: nat)
    requires t < |acts| && PendingHere(cap, acts, t) && !CarriesOverAt(cap, acts, t)
    ensures PendingHere(cap, acts, t + 1)
  {
    var st, next := Run(cap, acts, t), Run(cap, acts, t + 1);
    StepPending(st, cap, acts[t]);
    forall id | id in next.session.pending && id != "" ensures SentOn(cap, acts, t + 1, id) == next.conn {
      if !Sends(st, acts[t], id) {
        assert SentOn(cap, acts, t + 1, id) == SentOn(cap, acts, t, id);
      }
    }
  }

  lemma NotStray(cap: nat, acts: seq<Action>, i: nat)
    requires i < |acts| && PendingHere(cap, acts, i)
    ensures !StrayAt(cap, acts, i)
  {
  }

  lemma {:induction false} StaysPendingHere(cap: nat, acts: seq<Action>, from: nat, t: nat)
    requires from <= t <= |acts| && PendingHere(cap, acts, from)
    requires forall i :: from <= i < t ==> !CarriesOverAt(cap, acts, i)
    ensures PendingHere(cap, acts, t)
    decreases t - from
  {
    if from < t {
      PendingHereNext(cap, acts, from);
      StaysPendingHere(cap, acts, from + 1, t);
    }
  }

  /** A run that never reconnects with a request unanswered confirms each on its own connection. */
  lemma ConfirmedOnOwnConnection(cap: nat, acts: seq<Action>, i: nat)
    requires i < |acts| && forall j :: 0 <= j < i ==> !CarriesOverAt(cap, acts, j)
    ensures !StrayAt(cap, acts, i)
  {
    StaysPendingHere(cap, acts, 0, i);
    NotStray(cap, acts, i);
  }

  // ---- Something carried over: a stray confirmation is possible ----

  function End(cap: nat, acts: seq<Action>): State {
    Run(cap, acts, |acts|)
  }

  lemma {:induction false} RunExtended(cap: nat, acts: seq<Action>, more: seq<Action>, t: nat)
    requires t <= |acts|
    ensures Run(cap, acts + more, t) == Run(cap, acts, t)
  {
    if t > 0 {
      RunExtended(cap, acts, more, t - 1);
    }
  }

  lemma EndNext(cap: nat, acts: seq<Action>, a: Action)
    ensures End(cap, acts + [a]) == Step(End(cap, acts), cap, a)
  {
    RunExtended(cap, acts, [a], |acts|);
  }

  lemma {:induction false} SentBefore(cap: nat, acts: seq<Action>, t: nat, id: string)
    requires t <= |acts|
    ensures SentOn(cap, acts, t, id) <= Run(cap, acts, t).conn
  {
    if t > 0 {
      SentBefore(cap, acts, t - 1, id);
      StepPending(Run(cap, acts, t - 1), cap, acts[t - 1]);
    }
  }

  /** The connection of a request does not change while nothing is sent. */
  lemma {:induction false} SentOnStays(cap: nat, acts: seq<Action>, t: nat, u: nat, id: string)
    requires t <= u <= |acts| && forall i :: t <= i < u ==> !acts[i].ClientSends?
    ensures SentOn(cap, acts, u, id) == SentOn(cap, acts, t, id)
    decreases u
  {
    if t < u {
      SentOnStays(cap, acts, t, u - 1, id);
    }
  }

  lemma {:induction false} ReaderPlaced(cap: nat, acts: seq<Action>, t: nat)
    requires t <= |acts|
    ensures var st := Run(cap, acts, t);
      st.reader.Recording? ==> st.phase.Flushing? || st.phase.Pumping?
  {
    if t > 0 {
      ReaderPlaced(cap, acts, t - 1);
    }
  }

  /** Neither drops nor client messages. */
  ghost predicate Undropped(more: seq<Action>) {
    forall i :: 0 <= i < |more| ==> !more[i].Drop? && !more[i].ClientSends?
  }

  /** The reply that gives subscription `c` the id `u`. */
  function ReplayReply(c: string, u: string): Frame {
    Frame(None, Some(Reply(Some(ReplayId(c)), u, false)), "")
  }

  lemma ReplayReplyStep(st: State, cap: nat, c: string)
    requires st.phase.Replaying? && c in st.phase.awaiting
    ensures Step(st, cap, ReplayFrame(ReplayReply(c, "x"))) == Rebound(st, c, "x")
  {
    TargetExact(ReplayReply(c, "x"), st.phase.awaiting, c);
  }

  /** A replay can always be completed. */
  lemma {:induction false} FinishReplay(cap: nat, acts: seq<Action>, k: nat) returns (more: seq<Action>)
    requires var st := End(cap, acts);
      st.phase.Replaying? && st.phase.stash == [] && |st.phase.awaiting| == k
    ensures Undropped(more)
    ensures var st, end := End(cap, acts), End(cap, acts + more);
      && end.phase == Replaying({}, []) && end.session.pending == st.session.pending
      && end.conn == st.conn && end.reader == st.reader
    decreases k
  {
    var st := End(cap, acts);
    if k == 0 {
      more := [];
      assert acts + more == acts;
    } else {
      var c :| c in st.phase.awaiting;
      var a := ReplayFrame(ReplayReply(c, "x"));
      ReplayReplyStep(st, cap, c);
      EndNext(cap, acts, a);
      var rest := FinishReplay(cap, acts + [a], k - 1);
      more := [a] + rest;
      assert acts + more == (acts + [a]) + rest;
    }
  }

  /** A response to request `id` whose result is the string `u`. */
  function Response(id: string, u: string): Frame {
    Frame(Some(Envelope(id, u, None)), None, "")
  }

  /** Reconnecting, replaying everything and pumping again. */
  lemma Resume(cap: nat, acts: seq<Action>) returns (more: seq<Action>)
    requires End(cap, acts).phase.Disconnected?
    ensures Undropped(more)
    ensures var st, end := End(cap, acts), End(cap, acts + more);
      && end.phase.Pumping? && end.reader.Ready? && end.session.pending == st.session.pending
      && end.conn == st.conn + 1
  {
    ReaderPlaced(cap, acts, |acts|);
    EndNext(cap, acts, Connect);
    var one := acts + [Connect];
    var frames := FinishReplay(cap, one, |End(cap, one).phase.awaiting|);
    var two := one + frames;
    EndNext(cap, two, ReplayDone);
    EndNext(cap, two + [ReplayDone], FlushDone);
    more := [Connect] + frames + [ReplayDone] + [FlushDone];
    assert acts + more == two + [ReplayDone] + [FlushDone];
  }

  lemma CarriedRequestStrays(cap: nat, acts: seq<Action>, id: string) returns (more: seq<Action>)
    requires End(cap, acts).phase.Disconnected? && id in End(cap, acts).session.pending && id != ""
    ensures Undropped(more) && more != [] && StrayAt(cap, acts + more, |acts + more| - 1)
  {
    var st := End(cap, acts);
    var resumed := Resume(cap, acts);
    var all := acts + resumed;
    var a := UpstreamFrame(Response(id, "x"));
    more := resumed + [a];
    assert acts + more == all + [a];
    RunExtended(cap, all, [a], |all|);
    RunExtended(cap, acts, more, |acts|);
    SentBefore(cap, acts + more, |acts|, id);
    SentOnStays(cap, acts + more, |acts|, |all|, id);
    assert Confirmed(End(cap, all), a) == Some(id);
  }

  /** Disconnected or replaying, nothing that may be answered is pending. */
  ghost predicate CleanAt(cap: nat, acts: seq<Action>, t: nat)
    requires t <= |acts|
  {
    var st := Run(cap, acts, t);
    && PendingHere(cap, acts, t)
    && (st.phase.Disconnected? || st.phase.Replaying? ==> !Answerable(st.session.pending))
  }

  lemma StepClean(st: State, cap: nat, a: Action)
    requires !a.Drop? && (st.phase.Disconnected? || st.phase.Replaying? ==> !Answerable(st.session.pending))
    ensures var t := Step(st, cap, a);
      t.phase.Disconnected? || t.phase.Replaying? ==> !Answerable(t.session.pending)
  {
  }

  lemma {:induction false} StaysClean(cap: nat, acts: seq<Action>, from: nat, t: nat)
    requires from <= t <= |acts| && CleanAt(cap, acts, from)
    requires forall i :: from <= i < t ==> !acts[i].Drop?
    ensures CleanAt(cap, acts, t)
    decreases t - from
  {
    if from < t {
      PendingHereNext(cap, acts, from);
      StepClean(Run(cap, acts, from), cap, acts[from]);
      StaysClean(cap, acts, from + 1, t);
    }
  }

  /** Up to the next drop, every confirmation answers a request sent on the same connection. */
  ghost predicate NoStrays(cap: nat, acts: seq<Action>) {
    forall more: seq<Action>, i :: (forall a :: a in more ==> !a.Drop?) && |acts| <= i < |acts + more| ==>
      !StrayAt(cap, acts + more, i)
  }

  lemma CleanHasNoStrays(cap: nat, acts: seq<Action>)
    requires End(cap, acts).phase.Disconnected? && !Answerable(End(cap, acts).session.pending)
    ensures NoStrays(cap, acts)
  {
    forall more: seq<Action>, i | (forall a :: a in more ==> !a.Drop?) && |acts| <= i < |acts + more|
      ensures !StrayAt(cap, acts + more, i)
    {
      RunExtended(cap, acts, more, |acts|);
      assert CleanAt(cap, acts + more, |acts|);
      StaysClean(cap, acts + more, |acts|, i);
      NotStray(cap, acts + more, i);
    }
  }

  /**
   The exact condition for a reconnection: until the next drop, confirmations answer only
   requests sent on the same connection if and only if no request that carries an id was
   left unanswered.
   */
  lemma NoStraysIff(cap: nat, acts: seq<Action>)
    requires End(cap, acts).phase.Disconnected?
    ensures NoStrays(cap, acts) <==> !Answerable(End(cap, acts).session.pending)
  {
    if Answerable(End(cap, acts).session.pending) {
      var id :| id in End(cap, acts).session.pending && id != "";
      var more := CarriedRequestStrays(cap, acts, id);
      assert StrayAt(cap, acts + more, |acts + more| - 1);
    } else {
      CleanHasNoStrays(cap, acts);
    }
  }

  /** Connecting with nothing to replay. */
  lemma OpenUp(st: State, cap: nat)
    requires st.phase.Disconnected? && st.reader.Ready? && st.session.subs == map[]
    ensures Step(Step(Step(st, cap, Connect), cap, ReplayDone), cap, FlushDone) ==
      st.(phase := Pumping, conn := st.conn + 1)
  {
    assert st.session.subs.Keys == {};
  }

  lemma RunThrice(cap: nat, acts: seq<Action>, t: nat)
    requires t + 3 <= |acts|
    ensures Run(cap, acts, t + 3) ==
      Step(Step(Step(Run(cap, acts, t), cap, acts[t]), cap, acts[t + 1]), cap, acts[t + 2])
  {
    assert Run(cap, acts, t + 1) == Step(Run(cap, acts, t), cap, acts[t]);
    assert Run(cap, acts, t + 2) == Step(Run(cap, acts, t + 1), cap, acts[t + 1]);
  }

  /** A client that subscribes with `id` on a fresh connection, which then drops. */
  lemma SubscribeThenDrop(st: State, cap: nat, id: string, params: string)
    requires st.phase.Pumping? && st.reader.Ready? && st.session == EMPTY
    ensures var t := Step(Step(st, cap, ClientSends(Subscribe(id, params))), cap, Drop);
      && t.phase.Disconnected? && t.reader.Ready? && t.conn == st.conn
      && t.session == EMPTY.(pending := map[id := params])
    ensures Sends(st, ClientSends(Subscribe(id, params)), id)
  {
  }

  /** A response to `id` that is taken for the answer to a pending request. */
  lemma ResponseSubscribes(st: State, cap: nat, id: string, params: string, u: string)
    requires st.phase.Pumping? && st.reader.Ready? && st.session == EMPTY.(pending := map[id := params])
    requires id != "" && u != ""
    ensures Confirmed(st, UpstreamFrame(Response(id, u))) == Some(id)
    ensures Step(Step(st, cap, UpstreamFrame(Response(id, u))), cap, FinishRecording).session.subs == map[u := Sub(params, u)]
  {
  }

  /** A client subscribes with id 5, the upstream drops, and the next one sends a response with id 5. */
  const STRAY_RUN: seq<Action> :=
    [Connect, ReplayDone, FlushDone, ClientSends(Subscribe("5", "p")), Drop,
     Connect, ReplayDone, FlushDone, UpstreamFrame(Response("5", "0x10")), FinishRecording]

  lemma StrayRunDrops(cap: nat)
    ensures var st := Run(cap, STRAY_RUN, 5);
      && st.phase.Disconnected? && st.reader.Ready? && st.conn == 1
      && st.session == EMPTY.(pending := map["5" := "p"])
    ensures SentOn(cap, STRAY_RUN, 4, "5") == 1
  {
    RunThrice(cap, STRAY_RUN, 0);
    OpenUp(INITIAL, cap);
    SubscribeThenDrop(Run(cap, STRAY_RUN, 3), cap, "5", "p");
    assert Run(cap, STRAY_RUN, 5) == Step(Run(cap, STRAY_RUN, 4), cap, Drop);
  }

  /**
   For instance: on the second connection a response to some other request with id 5 becomes
   a live subscription, which will be replayed.
   */
  lemma UnrelatedResponseSubscribes(cap: nat)
    ensures StrayAt(cap, STRAY_RUN, 8)
    ensures Run(cap, STRAY_RUN, 10).session.subs == map["0x10" := Sub("p", "0x10")]
  {
    StrayRunDrops(cap);
    RunThrice(cap, STRAY_RUN, 5);
    OpenUp(Run(cap, STRAY_RUN, 5), cap);
    ResponseSubscribes(Run(cap, STRAY_RUN, 8), cap, "5", "p", "0x10");
    SentOnStays(cap, STRAY_RUN, 4, 8, "5");
    assert Run(cap, STRAY_RUN, 10) == Step(Run(cap, STRAY_RUN, 9), cap, FinishRecording);
  }
}
