/**
 Whole runs of a session: connections, replays, flushes, frames from both sides and
 drops, with every critical section one step. The state carries a ledger of the ids
 upstreams have issued, which states what the session is meant to do with them.
 */
module SessionRun {
  import opened Common
  import opened SessionSpec

  /** To which subscription (by client id), and on which connection, an id was issued. */
  datatype Issue = Issue(owner: string, conn: nat)

  /** The upstream reader between its two critical sections for a subscribe response. */
  datatype Reader = Ready | Recording(id: string, params: string, frame: Frame)

  datatype Phase =
    | Disconnected
    | Replaying(awaiting: set<string>, stash: seq<Frame>)
    | Flushing(queue: seq<Frame>)
    | Pumping

  /**
   `issued`, `clients`, `requested` and `origin` only record history: the ids issued so
   far, those among them that became client ids, the subscribe requests accepted from the
   client, and the response that confirmed each client id.
   */
  datatype Snapshot = Snapshot(
    session: Session,
    phase: Phase,
    reader: Reader,
    conn: nat,
    issued: map<string, Issue>,
    clients: set<string>,
    requested: set<(string, string)>,
    origin: map<string, Frame>)

  const INITIAL: Snapshot := Snapshot(EMPTY, Disconnected, Ready, 0, map[], {}, {}, map[])

  /** Only live subscriptions are awaited. */
  type State = st: Snapshot | st.phase.Replaying? ==> st.phase.awaiting <= st.session.subs.Keys
    witness INITIAL

  datatype Action =
    | Connect
    | ReplayFrame(frame: Frame)
    | ReplayAbort
    | ReplayDone
    | FlushNext
    | FlushDone
    | UpstreamFrame(frame: Frame)
    | FinishRecording
    | ClientSends(msg: ClientMsg)
    | Drop

  predicate Enabled(st: State, a: Action) {
    match a
    case Connect => st.phase.Disconnected?
    case ReplayFrame(f) => st.phase.Replaying? && st.phase.awaiting != {}
    case ReplayAbort => st.phase.Replaying?
    case ReplayDone => st.phase.Replaying? && st.phase.awaiting == {}
    case FlushNext => st.phase.Flushing? && st.phase.queue != [] && st.reader.Ready?
    case FlushDone => st.phase.Flushing? && st.phase.queue == [] && st.reader.Ready?
    case UpstreamFrame(f) => st.phase.Pumping? && st.reader.Ready?
    case FinishRecording => st.reader.Recording?
    case ClientSends(m) => st.phase.Pumping?
    case Drop => st.phase.Pumping? && st.reader.Ready?
  }

  /** The first critical section for a frame from the upstream. */
  function Meet(st: State, f: Frame): State {
    match Answers(st.session, f)
    case None => st
    case Some(id) =>
      var u := f.envelope.value.result;
      var t := st.(session := TakePending(st.session, id));
      if u == "" then t
      else t.(reader := Recording(u, st.session.pending[id], f),
              issued := st.issued[u := Issue(u, st.conn)],
              clients := st.clients + {u})
  }

  /** Subscription `c` receives id `u` from the new upstream. */
  function Rebound(st: State, c: string, u: string): State
    requires st.phase.Replaying? && c in st.phase.awaiting
  {
    st.(session := Rebind(st.session, c, u),
        phase := st.phase.(awaiting := st.phase.awaiting - {c}),
        issued := st.issued[u := Issue(c, st.conn)])
  }

  function ReplayMeet(st: State, cap: nat, f: Frame): State
    requires st.phase.Replaying?
  {
    match Target(f, st.phase.awaiting)
    case None => st.(phase := st.phase.(stash := Stash(st.phase.stash, cap, f)))
    case Some(c) =>
      if Accepts(f) then Rebound(st, c, f.reply.value.result) else st.(phase := Disconnected)
  }

  /** The run's replay steps are those of the replay loop. */
  lemma ReplayMeetIsReplayStep(st: State, cap: nat, f: Frame)
    requires st.phase.Replaying?
    ensures var r := ReplayStep(Replay(st.session, st.phase.awaiting, st.phase.stash, false), cap, f);
      var t := ReplayMeet(st, cap, f);
      && t.session == r.session
      && (if r.broken then t.phase.Disconnected? else t.phase == Replaying(r.awaiting, r.stash))
  {
  }

  function ClientMeet(st: State, m: ClientMsg): State
    requires st.phase.Pumping?
  {
    match m
    case Subscribe(id, params) =>
      var (s, accepted) := BeginSubscribe(st.session, id, params);
      st.(session := s, requested := if accepted then st.requested + {(id, params)} else st.requested)
    case Unsubscribe(args, _) => st.(session := RewriteUnsubscribe(st.session, args).0)
    case Other(_) => st
  }

  /** One step; a disabled action leaves the state alone. `cap` bounds the replay stash. */
  function Step(st: State, cap: nat, a: Action): State {
    if !Enabled(st, a) then st
    else match a
      case Connect => st.(phase := Replaying(st.session.subs.Keys, []), conn := st.conn + 1)
      case ReplayFrame(f) => ReplayMeet(st, cap, f)
      case ReplayAbort => st.(phase := Disconnected)
      case ReplayDone => st.(phase := Flushing(st.phase.stash))
      case FlushNext => Meet(st, st.phase.queue[0]).(phase := Flushing(st.phase.queue[1..]))
      case FlushDone => st.(phase := Pumping)
      case UpstreamFrame(f) => Meet(st, f)
      case FinishRecording =>
        st.(session := Record(st.session, st.reader.id, st.reader.params),
            origin := st.origin[st.reader.id := st.reader.frame],
            reader := Ready)
      case ClientSends(m) => ClientMeet(st, m)
      case Drop => st.(phase := Disconnected)
  }

  /** The id an action makes an upstream issue, and for which subscription. */
  function Issues(st: State, a: Action): Option<string> {
    if !Enabled(st, a) then None
    else
      match a
      case ReplayFrame(f) =>
        if Target(f, st.phase.awaiting).Some? && Accepts(f) then Some(f.reply.value.result) else None
      case UpstreamFrame(f) =>
        if Answers(st.session, f).Some? && f.envelope.value.result != "" then Some(f.envelope.value.result) else None
      case FlushNext =>
        var f := st.phase.queue[0];
        if Answers(st.session, f).Some? && f.envelope.value.result != "" then Some(f.envelope.value.result) else None
      case _ => None
  }

  /** The state after the first `t` actions. */
  function Run(cap: nat, acts: seq<Action>, t: nat): State
    requires t <= |acts|
  {
    if t == 0 then INITIAL else Step(Run(cap, acts, t - 1), cap, acts[t - 1])
  }

  // ---- When the maps stay inverse ----

  /** The subscription, by client id, that an action gives an upstream id, and that id. */
  function Installs(st: State, a: Action): Option<(string, string)> {
    if !Enabled(st, a) then None
    else match a
      case ReplayFrame(f) =>
        var c := Target(f, st.phase.awaiting);
        if c.Some? && Accepts(f) then Some((c.value, f.reply.value.result)) else None
      case FinishRecording => Some((st.reader.id, st.reader.id))
      case _ => None
  }

  /** No live subscription but `c` holds `u`. */
  ghost predicate HeldByNoOther(subs: map<string, Sub>, c: string, u: string) {
    forall d :: d in subs && d != c ==> subs[d].upstreamID != u
  }

  /** A subscription recorded under a live client id replaces one that still holds this id. */
  ghost predicate Recordable(subs: map<string, Sub>, u: string) {
    HeldByNoOther(subs, u, u) && (u in subs ==> subs[u].upstreamID == u)
  }

  /** What an action installs clashes with no live subscription. */
  ghost predicate ClashFree(st: State, a: Action) {
    var i := Installs(st, a);
    i.Some? ==>
      if a.FinishRecording? then Recordable(st.session.subs, i.value.1)
      else HeldByNoOther(st.session.subs, i.value.0, i.value.1)
  }

  lemma ReplayFrameInverse(st: State, cap: nat, f: Frame)
    requires Inverse(st.session) && Enabled(st, ReplayFrame(f))
    ensures Inverse(ReplayMeet(st, cap, f).session) <==> ClashFree(st, ReplayFrame(f))
  {
    var c := Target(f, st.phase.awaiting);
    if c.Some? && Accepts(f) {
      RebindKeepsInverse(st.session, c.value, f.reply.value.result);
    }
  }

  lemma ClientInverse(st: State, m: ClientMsg)
    requires Inverse(st.session) && st.phase.Pumping?
    ensures Inverse(ClientMeet(st, m).session)
  {
    if m.Unsubscribe? && m.args.Some? && m.args.value != [] {
      EndKeepsInverse(st.session, m.args.value[0]);
    }
  }

  /** The exact condition for one step. */
  lemma StepInverse(st: State, cap: nat, a: Action)
    requires Inverse(st.session)
    ensures Inverse(Step(st, cap, a).session) <==> ClashFree(st, a)
  {
    if Enabled(st, a) {
      match a
      case ReplayFrame(f) => ReplayFrameInverse(st, cap, f);
      case FinishRecording => RecordKeepsInverse(st.session, st.reader.id, st.reader.params);
      case ClientSends(m) => ClientInverse(st, m);
      case _ =>
    }
  }

  /** The maps are inverse after `i` actions. */
  ghost predicate InverseAt(cap: nat, acts: seq<Action>, i: nat)
    requires i <= |acts|
  {
    Inverse(Run(cap, acts, i).session)
  }

  /** The action at position `i` installs without a clash. */
  ghost predicate ClashFreeAt(cap: nat, acts: seq<Action>, i: nat)
    requires i < |acts|
  {
    ClashFree(Run(cap, acts, i), acts[i])
  }

  lemma InverseNext(cap: nat, acts: seq<Action>, i: nat)
    requires i < |acts| && InverseAt(cap, acts, i)
    ensures InverseAt(cap, acts, i + 1) <==> ClashFreeAt(cap, acts, i)
  {
    StepInverse(Run(cap, acts, i), cap, acts[i]);
  }

  lemma {:induction false} ClashFreeGivesInverse(cap: nat, acts: seq<Action>, t: nat, i: nat)
    requires i <= t <= |acts| && forall j :: 0 <= j < t ==> ClashFreeAt(cap, acts, j)
    ensures InverseAt(cap, acts, i)
    decreases i
  {
    if i > 0 {
      ClashFreeGivesInverse(cap, acts, t, i - 1);
      InverseNext(cap, acts, i - 1);
    }
  }

  lemma InverseNeedsClashFree(cap: nat, acts: seq<Action>, t: nat)
    requires t <= |acts| && forall i :: 0 <= i <= t ==> InverseAt(cap, acts, i)
    ensures forall i :: 0 <= i < t ==> ClashFreeAt(cap, acts, i)
  {
    forall i | 0 <= i < t ensures ClashFreeAt(cap, acts, i) {
      assert InverseAt(cap, acts, i + 1);
      InverseNext(cap, acts, i);
    }
  }

  /**
   The exact condition for a run: the maps are inverse throughout if and only if every id
   is installed while no other live subscription holds it.
   */
  lemma InverseIffClashFree(cap: nat, acts: seq<Action>, t: nat)
    requires t <= |acts|
    ensures (forall i :: 0 <= i <= t ==> InverseAt(cap, acts, i)) <==> (forall i :: 0 <= i < t ==> ClashFreeAt(cap, acts, i))
  {
    if forall i :: 0 <= i <= t ==> InverseAt(cap, acts, i) {
      InverseNeedsClashFree(cap, acts, t);
    }
    if forall i :: 0 <= i < t ==> ClashFreeAt(cap, acts, i) {
      forall i | 0 <= i <= t ensures InverseAt(cap, acts, i) {
        ClashFreeGivesInverse(cap, acts, t, i);
      }
    }
  }

  /** The id an action makes an upstream issue clashes with no live subscription's. */
  ghost predicate IssuesDistinct(st: State, a: Action) {
    var u := Issues(st, a);
    u.Some? ==>
      if a.ReplayFrame? then HeldByNoOther(st.session.subs, Target(a.frame, st.phase.awaiting).value, u.value)
      else Recordable(st.session.subs, u.value)
  }

  /** A half-recorded id stays free: meanwhile subscriptions can only end. */
  ghost predicate ReaderDistinct(st: State) {
    st.reader.Recording? ==>
      (st.phase.Flushing? || st.phase.Pumping?) && Recordable(st.session.subs, st.reader.id)
  }

  lemma StepReaderDistinct(st: State, cap: nat, a: Action)
    requires ReaderDistinct(st) && IssuesDistinct(st, a)
    ensures ReaderDistinct(Step(st, cap, a))
    ensures ClashFree(st, a)
  {
  }

  /** The action at position `i` issues no id that another live subscription holds. */
  ghost predicate DistinctAt(cap: nat, acts: seq<Action>, i: nat)
    requires i < |acts|
  {
    IssuesDistinct(Run(cap, acts, i), acts[i])
  }

  lemma {:induction false} ReachableReaderDistinct(cap: nat, acts: seq<Action>, t: nat, i: nat)
    requires i <= t <= |acts| && forall j :: 0 <= j < t ==> DistinctAt(cap, acts, j)
    ensures ReaderDistinct(Run(cap, acts, i))
    decreases i
  {
    if i > 0 {
      ReachableReaderDistinct(cap, acts, t, i - 1);
      assert DistinctAt(cap, acts, i - 1);
      StepReaderDistinct(Run(cap, acts, i - 1), cap, acts[i - 1]);
    }
  }

  /**
   In every reachable state the two maps are inverse, even after a replay that broke off,
   provided each id differs from those of the other subscriptions live when it is issued.
   Ids may otherwise recur: a new upstream may give a subscription its old id back.
   */
  lemma ReachableInverse(cap: nat, acts: seq<Action>, t: nat)
    requires t <= |acts| && forall i :: 0 <= i < t ==> DistinctAt(cap, acts, i)
    ensures Inverse(Run(cap, acts, t).session)
    ensures forall c :: c in Run(cap, acts, t).session.subs ==>
      Translate(Run(cap, acts, t).session, Run(cap, acts, t).session.subs[c].upstreamID) == c
  {
    forall i | 0 <= i < t ensures ClashFreeAt(cap, acts, i) {
      ReachableReaderDistinct(cap, acts, t, i);
      assert DistinctAt(cap, acts, i);
      StepReaderDistinct(Run(cap, acts, i), cap, acts[i]);
    }
    ClashFreeGivesInverse(cap, acts, t, t);
    assert InverseAt(cap, acts, t);
  }

  // ---- Where pending requests and replayed params come from ----

  /** `f` is the response that confirms client id `c`. */
  predicate Confirms(f: Frame, c: string) {
    f.envelope.Some? && f.envelope.value.notified.None? && f.envelope.value.result == c
  }

  /** Every outstanding request stems from the client, and there are not too many. */
  ghost predicate PendingTraceable(pending: map<string, string>, requested: set<(string, string)>) {
    && |pending| <= MAX_PENDING_SUBSCRIBES
    && forall id :: id in pending ==> (id, pending[id]) in requested
  }

  /** `f` confirms `c` and echoes the id of a client request with these params. */
  ghost predicate Echoes(f: Frame, c: string, params: string, requested: set<(string, string)>) {
    Confirms(f, c) && (f.envelope.value.id, params) in requested
  }

  ghost predicate SubsTraceable(subs: map<string, Sub>, origin: map<string, Frame>, requested: set<(string, string)>) {
    forall c :: c in subs ==> c in origin && Echoes(origin[c], c, subs[c].params, requested)
  }

  ghost predicate Traceable(st: State) {
    && PendingTraceable(st.session.pending, st.requested)
    && SubsTraceable(st.session.subs, st.origin, st.requested)
    && (st.reader.Recording? ==> Echoes(st.reader.frame, st.reader.id, st.reader.params, st.requested))
  }

  lemma PendingShrinks(pending: map<string, string>, requested: set<(string, string)>, id: string)
    requires PendingTraceable(pending, requested) && id in pending
    ensures PendingTraceable(pending - {id}, requested)
  {
    assert pending.Keys == (pending - {id}).Keys + {id};
  }

  lemma PendingGrows(pending: map<string, string>, requested: set<(string, string)>, id: string, params: string)
    requires PendingTraceable(pending, requested) && |pending| < MAX_PENDING_SUBSCRIBES
    ensures PendingTraceable(pending[id := params], requested + {(id, params)})
  {
    assert (pending[id := params]).Keys == pending.Keys + {id};
  }

  lemma MeetTraceable(st: State, f: Frame)
    requires Traceable(st)
    ensures Traceable(Meet(st, f))
  {
    if Answers(st.session, f).Some? {
      PendingShrinks(st.session.pending, st.requested, Answers(st.session, f).value);
    }
  }

  lemma ClientTraceable(st: State, m: ClientMsg)
    requires Traceable(st) && st.phase.Pumping?
    ensures Traceable(ClientMeet(st, m))
  {
    if m.Subscribe? && |st.session.pending| < MAX_PENDING_SUBSCRIBES {
      PendingGrows(st.session.pending, st.requested, m.id, m.params);
    }
  }

  lemma StepTraceable(st: State, cap: nat, a: Action)
    requires Traceable(st)
    ensures Traceable(Step(st, cap, a))
  {
    if Enabled(st, a) {
      match a
      case FlushNext => MeetTraceable(st, st.phase.queue[0]);
      case UpstreamFrame(f) => MeetTraceable(st, f);
      case ClientSends(m) => ClientTraceable(st, m);
      case _ =>
    }
  }

  /**
   Whatever ids the upstreams issue, outstanding subscribes are bounded, and the params
   replayed for a client id are those of a request the client made, whose raw id the
   response that confirmed the client id echoed.
   */
  lemma {:induction false} PendingBoundedAndTraceable(cap: nat, acts: seq<Action>, t: nat)
    requires t <= |acts|
    ensures Traceable(Run(cap, acts, t))
    ensures var st := Run(cap, acts, t);
      && |st.session.pending| <= 1024
      && forall c :: c in st.session.subs ==>
           && c in st.origin && Confirms(st.origin[c], c)
           && (st.origin[c].envelope.value.id, st.session.subs[c].params) in st.requested
  {
    if t > 0 {
      PendingBoundedAndTraceable(cap, acts, t - 1);
      StepTraceable(Run(cap, acts, t - 1), cap, acts[t - 1]);
    }
  }

  // ---- The ledger invariant ----

  /** The distinctness hypothesis on upstream-issued ids. */
  ghost predicate Fresh(st: State, a: Action) {
    Issues(st, a).Some? ==> Issues(st, a).value !in st.issued
  }

  /** The subscriptions whose replay reply is outstanding. */
  function Awaiting(p: Phase): set<string> {
    if p.Replaying? then p.awaiting else {}
  }

  /** Ids and mappings agree with the ledger. */
  ghost predicate LedgerAgrees(live: set<string>, up: map<string, string>, issued: map<string, Issue>, clients: set<string>, conn: nat) {
    && (forall u :: u in up ==> u in issued && issued[u].owner == up[u])
    && live <= clients <= issued.Keys
    && (forall c :: c in clients ==> issued[c].owner == c)
    && (forall u :: u in issued ==> issued[u].conn <= conn && issued[u].owner in clients)
  }

  /** An id this connection issued to a live subscription is the one it holds. */
  ghost predicate HoldsCurrentId(subs: map<string, Sub>, awaiting: set<string>, issued: map<string, Issue>, conn: nat) {
    forall u :: u in issued && issued[u].conn == conn && issued[u].owner in subs ==>
      issued[u].owner !in awaiting && subs[issued[u].owner].upstreamID == u
  }

  /** Every live subscription that is not awaited holds an id this connection issued. */
  ghost predicate BoundHere(subs: map<string, Sub>, awaiting: set<string>, issued: map<string, Issue>, conn: nat) {
    forall c :: c in subs && c !in awaiting ==>
      subs[c].upstreamID in issued && issued[subs[c].upstreamID].conn == conn
  }

  /** The reader's half-recorded subscription is new, and its own id is all it was issued. */
  ghost predicate ReaderFits(r: Reader, live: set<string>, up: map<string, string>, issued: map<string, Issue>, conn: nat) {
    r.Recording? ==>
      && r.id in issued && issued[r.id] == Issue(r.id, conn)
      && r.id !in live && r.id !in up
      && (forall u :: u in issued && issued[u].owner == r.id ==> u == r.id)
  }

  ghost predicate Inv(st: State) {
    && (st.reader.Recording? ==> st.phase.Flushing? || st.phase.Pumping?)
    && Inverse(st.session)
    && LedgerAgrees(st.session.subs.Keys, st.session.upToClient, st.issued, st.clients, st.conn)
    && HoldsCurrentId(st.session.subs, Awaiting(st.phase), st.issued, st.conn)
    && (!st.phase.Disconnected? ==> BoundHere(st.session.subs, Awaiting(st.phase), st.issued, st.conn))
    && ReaderFits(st.reader, st.session.subs.Keys, st.session.upToClient, st.issued, st.conn)
  }

  lemma InitialInv()
    ensures Inv(INITIAL)
  {
  }

  lemma MeetKeepsInv(st: State, f: Frame)
    requires Inv(st) && st.reader.Ready? && (st.phase.Flushing? || st.phase.Pumping?)
    requires var a := Answers(st.session, f);
      a.Some? && f.envelope.value.result != "" ==> f.envelope.value.result !in st.issued
    ensures Inv(Meet(st, f))
  {
  }

  lemma RecordKeepsInv(st: State, cap: nat)
    requires Inv(st) && st.reader.Recording?
    ensures Inv(Step(st, cap, FinishRecording))
  {
    RecordKeepsInverse(st.session, st.reader.id, st.reader.params);
  }

  lemma RebindAgrees(s: Session, issued: map<string, Issue>, clients: set<string>, conn: nat, c: string, u: string)
    requires c in s.subs && u !in issued
    requires LedgerAgrees(s.subs.Keys, s.upToClient, issued, clients, conn)
    ensures LedgerAgrees(Rebind(s, c, u).subs.Keys, Rebind(s, c, u).upToClient, issued[u := Issue(c, conn)], clients, conn)
  {
    assert Rebind(s, c, u).subs.Keys == s.subs.Keys;
  }

  lemma RebindHolds(s: Session, awaiting: set<string>, issued: map<string, Issue>, conn: nat, c: string, u: string)
    requires c in s.subs && c in awaiting && u !in issued
    requires HoldsCurrentId(s.subs, awaiting, issued, conn) && BoundHere(s.subs, awaiting, issued, conn)
    ensures HoldsCurrentId(Rebind(s, c, u).subs, awaiting - {c}, issued[u := Issue(c, conn)], conn)
    ensures BoundHere(Rebind(s, c, u).subs, awaiting - {c}, issued[u := Issue(c, conn)], conn)
  {
  }

  lemma ReboundKeepsInv(st: State, c: string, u: string)
    requires Inv(st) && st.phase.Replaying? && c in st.phase.awaiting && u !in st.issued
    ensures Inv(Rebound(st, c, u))
  {
    RebindKeepsInverse(st.session, c, u);
    RebindAgrees(st.session, st.issued, st.clients, st.conn, c, u);
    RebindHolds(st.session, st.phase.awaiting, st.issued, st.conn, c, u);
  }

  lemma RebindKeepsInv(st: State, cap: nat, f: Frame)
    requires Inv(st) && st.phase.Replaying? && st.phase.awaiting != {}
    requires Fresh(st, ReplayFrame(f))
    ensures Inv(ReplayMeet(st, cap, f))
  {
    var t := Target(f, st.phase.awaiting);
    if t.Some? && Accepts(f) {
      ReboundKeepsInv(st, t.value, f.reply.value.result);
    }
  }

  lemma EndKeepsInv(st: State, c: string)
    requires Inv(st) && st.phase.Pumping?
    ensures Inv(st.(session := EndSubscription(st.session, c).0))
  {
    EndKeepsInverse(st.session, c);
  }

  lemma ClientKeepsInv(st: State, m: ClientMsg)
    requires Inv(st) && st.phase.Pumping?
    ensures Inv(ClientMeet(st, m))
  {
    match m
    case Subscribe(id, params) =>
    case Unsubscribe(args, _) =>
      if args.Some? && args.value != [] {
        EndKeepsInv(st, args.value[0]);
      }
    case Other(_) =>
  }

  lemma ConnectKeepsInv(st: State, cap: nat)
    requires Inv(st) && st.phase.Disconnected?
    ensures Inv(Step(st, cap, Connect))
  {
  }

  /** Moving on with nothing awaited, or giving the connection up, keeps the invariant. */
  lemma PhaseKeepsInv(st: State, p: Phase)
    requires Inv(st)
    requires p.Disconnected? || ((p.Flushing? || p.Pumping?) && !st.phase.Disconnected?
                                 && (st.phase.Replaying? ==> st.phase.awaiting == {}))
    requires p.Disconnected? ==> st.reader.Ready?
    ensures Inv(st.(phase := p))
  {
  }

  lemma StepKeepsInv(st: State, cap: nat, a: Action)
    requires Inv(st) && Fresh(st, a)
    ensures Inv(Step(st, cap, a))
  {
    if Enabled(st, a) {
      match a
      case Connect => ConnectKeepsInv(st, cap);
      case ReplayFrame(f) => RebindKeepsInv(st, cap, f);
      case ReplayAbort => PhaseKeepsInv(st, Disconnected);
      case ReplayDone => PhaseKeepsInv(st, Flushing(st.phase.stash));
      case FlushNext =>
        MeetKeepsInv(st, st.phase.queue[0]);
        PhaseKeepsInv(Meet(st, st.phase.queue[0]), Flushing(st.phase.queue[1..]));
      case FlushDone => PhaseKeepsInv(st, Pumping);
      case UpstreamFrame(f) => MeetKeepsInv(st, f);
      case FinishRecording => RecordKeepsInv(st, cap);
      case ClientSends(m) => ClientKeepsInv(st, m);
      case Drop => PhaseKeepsInv(st, Disconnected);
    }
  }

  // ---- Runs ----

  ghost predicate FreshAt(cap: nat, acts: seq<Action>, i: nat)
    requires i < |acts|
  {
    Fresh(Run(cap, acts, i), acts[i])
  }

  /** Each of the first `t` actions issues an id never issued before, if it issues any. */
  ghost predicate FreshRun(cap: nat, acts: seq<Action>, t: nat)
    requires t <= |acts|
  {
    forall i :: 0 <= i < t ==> FreshAt(cap, acts, i)
  }

  lemma {:induction false} ReachableInv(cap: nat, acts: seq<Action>, t: nat)
    requires t <= |acts| && FreshRun(cap, acts, t)
    ensures Inv(Run(cap, acts, t))
  {
    if t == 0 {
      InitialInv();
    } else {
      ReachableInv(cap, acts, t - 1);
      assert FreshAt(cap, acts, t - 1);
      StepKeepsInv(Run(cap, acts, t - 1), cap, acts[t - 1]);
    }
  }

  /** The frame an action sends to the client, and what it was before. */
  function Handles(st: State, a: Action): Option<Frame> {
    if !Enabled(st, a) then None
    else match a
      case UpstreamFrame(f) => Some(f)
      case FlushNext => Some(st.phase.queue[0])
      case _ => None
  }

  /** Uninterrupted, the two critical sections for a frame add up to `Forward`. */
  lemma SectionsMakeForward(st: State, cap: nat, f: Frame)
    requires Enabled(st, UpstreamFrame(f))
    ensures var mid := Step(st, cap, UpstreamFrame(f));
      var end := Step(mid, cap, FinishRecording);
      (end.session, if mid.reader.Recording? then f else Shown(st.session, f)) == Forward(st.session, f)
  {
  }

  /**
   No cross-delivery: a notification shown under a live client id carries an upstream id
   that was issued for that very subscription.
   */
  lemma NoCrossDelivery(cap: nat, acts: seq<Action>, t: nat)
    requires t < |acts| && FreshRun(cap, acts, t)
    ensures var st := Run(cap, acts, t);
      var h := Handles(st, acts[t]);
      h.Some? && IsNotification(h.value) && Notified(Shown(st.session, h.value)) in st.session.subs ==>
        && Notified(h.value) in st.issued
        && st.issued[Notified(h.value)].owner == Notified(Shown(st.session, h.value))
  {
    ReachableInv(cap, acts, t);
    var st := Run(cap, acts, t);
    var h := Handles(st, acts[t]);
    if h.Some? && IsNotification(h.value) {
      assert Notified(Shown(st.session, h.value)) == Translate(st.session, Notified(h.value));
    }
  }

  /**
   Delivery: a notification for an id the current upstream issued to a live subscription
   is shown under the id the client was given when it subscribed, after any number of
   failovers.
   */
  lemma NotificationReachesOwner(cap: nat, acts: seq<Action>, t: nat)
    requires t < |acts| && FreshRun(cap, acts, t)
    ensures var st := Run(cap, acts, t);
      var h := Handles(st, acts[t]);
      h.Some? && IsNotification(h.value) && Notified(h.value) in st.issued
      && st.issued[Notified(h.value)].conn == st.conn
      && st.issued[Notified(h.value)].owner in st.session.subs ==>
        Notified(Shown(st.session, h.value)) == st.issued[Notified(h.value)].owner
  {
    ReachableInv(cap, acts, t);
    var st := Run(cap, acts, t);
    var h := Handles(st, acts[t]);
    if h.Some? && IsNotification(h.value) && Notified(h.value) in st.issued
       && st.issued[Notified(h.value)].conn == st.conn
       && st.issued[Notified(h.value)].owner in st.session.subs {
      var u := Notified(h.value);
      var c := st.issued[u].owner;
      assert st.session.subs[c].upstreamID == u;
      assert Notified(Shown(st.session, h.value)) == Translate(st.session, u);
    }
  }

  /** While frames flow, every live subscription is bound on the current connection. */
  lemma BoundToCurrentUpstream(cap: nat, acts: seq<Action>, t: nat, c: string)
    requires t <= |acts| && FreshRun(cap, acts, t)
    requires var st := Run(cap, acts, t); (st.phase.Flushing? || st.phase.Pumping?) && c in st.session.subs
    ensures var st := Run(cap, acts, t);
      var u := st.session.subs[c].upstreamID;
      u in st.issued && st.issued[u] == Issue(c, st.conn)
  {
    ReachableInv(cap, acts, t);
  }

  /** What an unsubscribe sends upstream is the id the current upstream knows. */
  lemma UnsubscribeNamesCurrentId(cap: nat, acts: seq<Action>, t: nat, args: seq<string>, rest: string)
    requires t < |acts| && FreshRun(cap, acts, t)
    requires acts[t] == ClientSends(Unsubscribe(Some(args), rest)) && Enabled(Run(cap, acts, t), acts[t])
    requires args != [] && args[0] in Run(cap, acts, t).session.subs
    ensures var st := Run(cap, acts, t);
      var (s, sent) := RewriteUnsubscribe(st.session, Some(args));
      && sent.value[0] in st.issued && st.issued[sent.value[0]] == Issue(args[0], st.conn)
      && sent.value[1..] == args[1..]
      && args[0] !in s.subs && sent.value[0] !in s.upToClient
  {
    BoundToCurrentUpstream(cap, acts, t, args[0]);
    ReachableInv(cap, acts, t);
  }

  // ---- Stability of subscriptions ----

  ghost predicate Cancels(a: Action, c: string) {
    a.ClientSends? && a.msg.Unsubscribe? && a.msg.args.Some? && a.msg.args.value != [] && a.msg.args.value[0] == c
  }

  /** An upstream issues a live client id once more, and the new subscription takes its place. */
  ghost predicate Overwrites(st: State, a: Action, c: string) {
    a.FinishRecording? && st.reader.Recording? && st.reader.id == c
  }

  ghost predicate Keeps(s: Session, t: Session, c: string)
    requires c in s.subs
  {
    c in t.subs && t.subs[c].params == s.subs[c].params
  }

  lemma ReplayKeepsSubscription(st: State, cap: nat, f: Frame, c: string)
    requires c in st.session.subs && st.phase.Replaying?
    ensures Keeps(st.session, ReplayMeet(st, cap, f).session, c)
  {
  }

  lemma ClientKeepsSubscription(st: State, m: ClientMsg, c: string)
    requires c in st.session.subs && st.phase.Pumping? && !Cancels(ClientSends(m), c)
    ensures Keeps(st.session, ClientMeet(st, m).session, c)
  {
  }

  lemma StepKeepsSubscription(st: State, cap: nat, a: Action, c: string)
    requires c in st.session.subs && !Cancels(a, c) && !Overwrites(st, a, c)
    ensures Keeps(st.session, Step(st, cap, a).session, c)
  {
    if Enabled(st, a) {
      match a
      case ReplayFrame(f) => ReplayKeepsSubscription(st, cap, f, c);
      case ClientSends(m) => ClientKeepsSubscription(st, m, c);
      case _ =>
    }
  }

  /** `c` is live after `t` actions, with these params. */
  ghost predicate LiveAt(cap: nat, acts: seq<Action>, t: nat, c: string, params: string)
    requires t <= |acts|
  {
    var subs := Run(cap, acts, t).session.subs;
    c in subs && subs[c].params == params
  }

  /** The action at position `t` cancels `c` or overwrites it. */
  ghost predicate EndsAt(cap: nat, acts: seq<Action>, t: nat, c: string)
    requires t < |acts|
  {
    Cancels(acts[t], c) || Overwrites(Run(cap, acts, t), acts[t], c)
  }

  lemma LiveNext(cap: nat, acts: seq<Action>, t: nat, c: string, params: string)
    requires t < |acts| && LiveAt(cap, acts, t, c, params)
    requires !EndsAt(cap, acts, t, c)
    ensures LiveAt(cap, acts, t + 1, c, params)
  {
    StepKeepsSubscription(Run(cap, acts, t), cap, acts[t], c);
  }

  /** In any run a subscription lasts until it is cancelled or overwritten. */
  lemma {:induction false} KeptUntilOverwritten(cap: nat, acts: seq<Action>, from: nat, upto: nat, c: string, params: string)
    requires from <= upto <= |acts| && LiveAt(cap, acts, from, c, params)
    requires forall t :: from <= t < upto ==> !EndsAt(cap, acts, t, c)
    ensures LiveAt(cap, acts, upto, c, params)
    decreases upto - from
  {
    if from < upto {
      LiveNext(cap, acts, from, c, params);
      KeptUntilOverwritten(cap, acts, from + 1, upto, c, params);
    }
  }

  /**
   A subscription keeps its client id and params through any number of drops, replays and
   other traffic, until the client cancels it.
   */
  lemma {:induction false} SubscriptionSurvives(cap: nat, acts: seq<Action>, from: nat, upto: nat, c: string, params: string)
    requires from <= upto <= |acts| && FreshRun(cap, acts, upto) && LiveAt(cap, acts, from, c, params)
    requires forall t :: from <= t < upto ==> !Cancels(acts[t], c)
    ensures LiveAt(cap, acts, upto, c, params)
    decreases upto - from
  {
    if from < upto {
      RecordingIsNew(cap, acts, from);
      LiveNext(cap, acts, from, c, params);
      SubscriptionSurvives(cap, acts, from + 1, upto, c, params);
    }
  }

  lemma RecordingIsNew(cap: nat, acts: seq<Action>, t: nat)
    requires t <= |acts| && FreshRun(cap, acts, t)
    ensures var st := Run(cap, acts, t);
      st.reader.Recording? ==> st.reader.id !in st.session.subs
  {
    ReachableInv(cap, acts, t);
  }
}
