/**
 What a replay comes to, told from the frames of the new upstream alone: which response
 decides each subscription, when the replay succeeds or breaks off, and what it stashes.
 */
module ReplayExact {
  import opened Common
  import opened SessionSpec

  /** The frame is a response with the id of the replay request for `c`. */
  predicate Names(f: Frame, c: string) {
    f.reply.Some? && f.reply.value.id == Some("replay:" + c)
  }

  /** The first response for `c` is frame `i`. */
  ghost predicate Decides(frames: seq<Frame>, c: string, i: nat) {
    i < |frames| && Names(frames[i], c) && forall j :: 0 <= j < i ==> !Names(frames[j], c)
  }

  /** The response carries an error, or no result. */
  predicate Refusal(f: Frame)
    requires f.reply.Some?
  {
    f.reply.value.failed || f.reply.value.result == ""
  }

  /** Some subscription of `live` is refused: its first response is a refusal. */
  ghost predicate Refused(frames: seq<Frame>, live: set<string>) {
    exists c: string, i: nat :: c in live && Decides(frames, c, i) && Refusal(frames[i])
  }

  /** The first response for `c` gives it the id `u`. */
  ghost predicate Granted(frames: seq<Frame>, c: string, u: string) {
    exists i: nat :: Decides(frames, c, i) && !Refusal(frames[i]) && frames[i].reply.value.result == u
  }

  ghost predicate Answered(frames: seq<Frame>, c: string) {
    exists i: nat :: Decides(frames, c, i)
  }

  lemma TargetNames(f: Frame, live: set<string>)
    ensures Target(f, live).Some? ==> Target(f, live).value in live && Names(f, Target(f, live).value)
    ensures forall c :: c in live && Names(f, c) ==> Target(f, live) == Some(c)
  {
    if Target(f, live).Some? {
      TargetExact(f, live, Target(f, live).value);
    }
    forall c | c in live && Names(f, c) ensures Target(f, live) == Some(c) {
      TargetExact(f, live, c);
    }
  }

  /** The response that decides `c` is looked for behind a frame that does not name `c`. */
  lemma DecidesLater(frames: seq<Frame>, c: string, i: nat)
    requires frames != [] && !Names(frames[0], c)
    ensures Decides(frames, c, i + 1) <==> Decides(frames[1..], c, i)
    ensures !Decides(frames, c, 0)
  {
    var rest := frames[1..];
    if Decides(frames, c, i + 1) {
      forall j | 0 <= j < i ensures !Names(rest[j], c) {
        assert rest[j] == frames[j + 1];
      }
    }
    if Decides(rest, c, i) {
      forall j | 0 <= j < i + 1 ensures !Names(frames[j], c) {
        assert j > 0 ==> frames[j] == rest[j - 1];
      }
    }
  }

  lemma DecidesNow(frames: seq<Frame>, c: string, i: nat)
    requires frames != [] && Names(frames[0], c)
    ensures Decides(frames, c, i) <==> i == 0
  {
  }

  /** The first frame is a refusal for a live subscription, or the others decide. */
  lemma RefusedLater(frames: seq<Frame>, live: set<string>, rest: set<string>)
    requires frames != [] && rest <= live
    requires forall c :: c in live ==> (c in rest <==> !Names(frames[0], c))
    requires forall c :: c in live && Names(frames[0], c) ==> !Refusal(frames[0])
    ensures Refused(frames, live) <==> Refused(frames[1..], rest)
  {
    if Refused(frames, live) {
      var c: string, i: nat :| c in live && Decides(frames, c, i) && Refusal(frames[i]);
      assert !Names(frames[0], c) by {
        if Names(frames[0], c) {
          DecidesNow(frames, c, i);
        }
      }
      assert i > 0;
      DecidesLater(frames, c, i - 1);
      assert frames[1..][i - 1] == frames[i];
    }
    if Refused(frames[1..], rest) {
      var c: string, i: nat :| c in rest && Decides(frames[1..], c, i) && Refusal(frames[1..][i]);
      DecidesLater(frames, c, i);
      assert frames[i + 1] == frames[1..][i];
    }
  }

  /** The loop breaks off exactly when a subscription it waits for is refused. */
  lemma {:induction false} LoopBrokenIff(r: Replay, cap: nat, frames: seq<Frame>)
    requires r.awaiting <= r.session.subs.Keys && !r.broken
    ensures ReplayLoop(r, cap, frames).broken <==> Refused(frames, r.awaiting)
    decreases |frames|
  {
    if !Finished(r) && frames != [] {
      var f := frames[0];
      TargetNames(f, r.awaiting);
      var q := ReplayStep(r, cap, f);
      if Target(f, r.awaiting).Some? && !Accepts(f) {
        ReplayLoopEnds(q, cap, frames[1..]);
        var c := Target(f, r.awaiting).value;
        DecidesNow(frames, c, 0);
        assert Refusal(frames[0]);
      } else {
        RefusedLater(frames, r.awaiting, q.awaiting);
        LoopBrokenIff(q, cap, frames[1..]);
      }
    }
  }

  lemma AnsweredLater(frames: seq<Frame>, c: string)
    requires frames != []
    ensures Answered(frames, c) <==> Names(frames[0], c) || Answered(frames[1..], c)
  {
    if Names(frames[0], c) {
      DecidesNow(frames, c, 0);
    } else {
      if Answered(frames, c) {
        var i: nat :| Decides(frames, c, i);
        DecidesLater(frames, c, if i > 0 then i - 1 else 0);
      }
      if Answered(frames[1..], c) {
        var i: nat :| Decides(frames[1..], c, i);
        DecidesLater(frames, c, i);
        assert Decides(frames, c, i + 1);
      }
    }
  }

  /** Unless it breaks off, the loop goes on waiting exactly for what is never answered. */
  lemma {:induction false} LoopAwaits(r: Replay, cap: nat, frames: seq<Frame>, c: string)
    requires r.awaiting <= r.session.subs.Keys && !r.broken && !ReplayLoop(r, cap, frames).broken
    ensures c in ReplayLoop(r, cap, frames).awaiting <==> c in r.awaiting && !Answered(frames, c)
    decreases |frames|
  {
    if !Finished(r) && frames != [] {
      var f := frames[0];
      TargetNames(f, r.awaiting);
      AnsweredLater(frames, c);
      var q := ReplayStep(r, cap, f);
      if !q.broken {
        LoopAwaits(q, cap, frames[1..], c);
      }
    }
  }

  lemma GrantedLater(frames: seq<Frame>, c: string, u: string)
    requires frames != [] && !Names(frames[0], c) && Granted(frames[1..], c, u)
    ensures Granted(frames, c, u)
  {
    var i: nat :| Decides(frames[1..], c, i) && !Refusal(frames[1..][i]) && frames[1..][i].reply.value.result == u;
    DecidesLater(frames, c, i);
    assert frames[i + 1] == frames[1..][i];
    assert Decides(frames, c, i + 1);
  }

  lemma {:induction false} LoopKeepsUnawaited(r: Replay, cap: nat, frames: seq<Frame>, c: string)
    requires r.awaiting <= r.session.subs.Keys && c in r.session.subs && c !in r.awaiting
    ensures ReplayLoop(r, cap, frames).session.subs[c] == r.session.subs[c]
    decreases |frames|
  {
    if !Finished(r) && frames != [] {
      TargetNames(frames[0], r.awaiting);
      LoopKeepsUnawaited(ReplayStep(r, cap, frames[0]), cap, frames[1..], c);
    }
  }

  /** A subscription no longer waited for holds what its first response granted. */
  lemma {:induction false} LoopGrants(r: Replay, cap: nat, frames: seq<Frame>, c: string)
    requires r.awaiting <= r.session.subs.Keys && !r.broken && c in r.awaiting
    requires c !in ReplayLoop(r, cap, frames).awaiting
    ensures var sub := ReplayLoop(r, cap, frames).session.subs[c];
      sub.params == r.session.subs[c].params && Granted(frames, c, sub.upstreamID)
    decreases |frames|
  {
    if !Finished(r) && frames != [] {
      var f := frames[0];
      TargetNames(f, r.awaiting);
      var q := ReplayStep(r, cap, f);
      if !q.broken && c in q.awaiting {
        LoopGrants(q, cap, frames[1..], c);
        GrantedLater(frames, c, ReplayLoop(q, cap, frames[1..]).session.subs[c].upstreamID);
      } else if !q.broken {
        LoopKeepsUnawaited(q, cap, frames[1..], c);
        DecidesNow(frames, c, 0);
        assert Granted(frames, c, f.reply.value.result);
      }
    }
  }

  /** A replay breaks off exactly when the first response for some live subscription is a refusal. */
  lemma ReplayBrokenIff(s: Session, cap: nat, frames: seq<Frame>)
    ensures ReplayLoop(StartReplay(s), cap, frames).broken <==>
      exists c: string, i: nat :: c in s.subs && Decides(frames, c, i)
                     && (frames[i].reply.value.failed || frames[i].reply.value.result == "")
  {
    LoopBrokenIff(StartReplay(s), cap, frames);
    if Refused(frames, s.subs.Keys) {
      var c: string, i: nat :| c in s.subs.Keys && Decides(frames, c, i) && Refusal(frames[i]);
      assert c in s.subs && Decides(frames, c, i);
    }
  }

  /** A subscription is renewed with the id `u`: its first response has that result and no error. */
  ghost predicate Renewed(frames: seq<Frame>, c: string, u: string) {
    u != "" && exists i: nat :: Decides(frames, c, i) && !frames[i].reply.value.failed && frames[i].reply.value.result == u
  }

  lemma GrantedIsRenewed(frames: seq<Frame>, c: string, u: string)
    ensures Granted(frames, c, u) <==> Renewed(frames, c, u)
  {
  }

  /** The first response for every subscription of `live` has a result and no error. */
  ghost predicate AllRenewable(frames: seq<Frame>, live: set<string>) {
    forall c :: c in live ==> exists u :: Renewed(frames, c, u)
  }

  /**
   A replay succeeds exactly when the first response for every live subscription has a result
   and no error; then each keeps its params and holds that result as its upstream id.
   */
  lemma ReplaySucceedsIff(s: Session, cap: nat, frames: seq<Frame>)
    ensures var q := ReplayLoop(StartReplay(s), cap, frames);
      && (Succeeded(q) <==> AllRenewable(frames, s.subs.Keys))
      && (Succeeded(q) ==> forall c :: c in s.subs ==>
            q.session.subs[c].params == s.subs[c].params && Renewed(frames, c, q.session.subs[c].upstreamID))
  {
    var r := StartReplay(s);
    var q := ReplayLoop(r, cap, frames);
    if Succeeded(q) {
      forall c | c in s.subs
        ensures q.session.subs[c].params == s.subs[c].params && Renewed(frames, c, q.session.subs[c].upstreamID)
      {
        LoopGrants(r, cap, frames, c);
        GrantedIsRenewed(frames, c, q.session.subs[c].upstreamID);
      }
    }
    if AllRenewable(frames, s.subs.Keys) {
      AllRenewed(s, cap, frames);
    }
  }

  lemma AllRenewed(s: Session, cap: nat, frames: seq<Frame>)
    requires AllRenewable(frames, s.subs.Keys)
    ensures Succeeded(ReplayLoop(StartReplay(s), cap, frames))
  {
    var r := StartReplay(s);
    LoopBrokenIff(r, cap, frames);
    assert !Refused(frames, s.subs.Keys);
    forall c ensures c !in ReplayLoop(r, cap, frames).awaiting {
      LoopAwaits(r, cap, frames, c);
      if c in s.subs {
        var u :| Renewed(frames, c, u);
        assert Answered(frames, c);
      }
    }
  }

  // ---- The stash ----

  /** Frame `i` decides no live subscription. */
  ghost predicate Extra(frames: seq<Frame>, live: set<string>, i: nat) {
    forall c :: c in live ==> !Decides(frames, c, i)
  }

  /** Those among the first `k` frames, in order. */
  ghost function Extras(frames: seq<Frame>, live: set<string>, k: nat): seq<Frame>
    requires k <= |frames|
  {
    if k == 0 then []
    else Extras(frames, live, k - 1) + if Extra(frames, live, k - 1) then [frames[k - 1]] else []
  }

  /** After `k` frames the replay is over: all live subscriptions are answered, or one is refused. */
  ghost predicate Over(frames: seq<Frame>, live: set<string>, k: nat)
    requires k <= |frames|
  {
    (forall c :: c in live ==> Answered(frames[..k], c)) || Refused(frames[..k], live)
  }

  /** How many frames the loop reads. */
  function ReadCount(awaiting: set<string>, frames: seq<Frame>): (k: nat)
    ensures k <= |frames|
    decreases |frames|
  {
    if awaiting == {} || frames == [] then 0
    else match Target(frames[0], awaiting)
      case None => 1 + ReadCount(awaiting, frames[1..])
      case Some(c) => if Accepts(frames[0]) then 1 + ReadCount(awaiting - {c}, frames[1..]) else 1
  }

  /** The subscriptions of `live` that the first frame leaves undecided. */
  function Undecided(f: Frame, live: set<string>): set<string> {
    set c | c in live && !Names(f, c)
  }

  lemma ExtraLater(frames: seq<Frame>, live: set<string>, i: nat)
    requires frames != []
    ensures Extra(frames, live, i + 1) <==> Extra(frames[1..], Undecided(frames[0], live), i)
    ensures Extra(frames, live, 0) <==> Undecided(frames[0], live) == live
  {
    forall c | c in live ensures Decides(frames, c, 0) <==> Names(frames[0], c) {
    }
    forall c | c in live
      ensures Decides(frames, c, i + 1) <==> !Names(frames[0], c) && Decides(frames[1..], c, i)
    {
      if Names(frames[0], c) {
        DecidesNow(frames, c, i + 1);
      } else {
        DecidesLater(frames, c, i);
      }
    }
  }

  lemma {:induction false} ExtrasFirst(frames: seq<Frame>, live: set<string>, k: nat)
    requires k < |frames|
    ensures Extras(frames, live, k + 1) ==
      (if Undecided(frames[0], live) == live then [frames[0]] else [])
      + Extras(frames[1..], Undecided(frames[0], live), k)
    decreases k
  {
    var rest, live' := frames[1..], Undecided(frames[0], live);
    var first := if live' == live then [frames[0]] else [];
    ExtraLater(frames, live, if k > 0 then k - 1 else 0);
    if k == 0 {
      assert Extras(frames, live, 0) == [];
      assert Extras(rest, live', 0) == [];
      assert Extras(frames, live, 1) == first;
      assert first + [] == first;
    } else {
      ExtrasFirst(frames, live, k - 1);
      assert frames[k] == rest[k - 1];
      var last := if Extra(frames, live, k) then [frames[k]] else [];
      assert first + (Extras(rest, live', k - 1) + last) == (first + Extras(rest, live', k - 1)) + last;
    }
  }

  lemma UndecidedIsAwaited(f: Frame, awaiting: set<string>)
    ensures Undecided(f, awaiting) ==
      match Target(f, awaiting) case None => awaiting case Some(c) => awaiting - {c}
    ensures Target(f, awaiting).Some? ==> Undecided(f, awaiting) != awaiting
  {
    TargetNames(f, awaiting);
  }

  /** The frames the loop stashes are the extras among those it reads. */
  lemma {:induction false} UnrelatedAreExtras(awaiting: set<string>, frames: seq<Frame>)
    ensures Unrelated(awaiting, frames) == Extras(frames, awaiting, ReadCount(awaiting, frames))
    decreases |frames|
  {
    if awaiting != {} && frames != [] {
      var f := frames[0];
      UndecidedIsAwaited(f, awaiting);
      var k: nat := ReadCount(awaiting, frames) - 1;
      ExtrasFirst(frames, awaiting, k);
      if Target(f, awaiting).None? || Accepts(f) {
        UnrelatedAreExtras(Undecided(f, awaiting), frames[1..]);
      }
    }
  }

  lemma PrefixRest(frames: seq<Frame>, k: nat)
    requires 0 < k <= |frames|
    ensures frames[..k] != [] && frames[..k][0] == frames[0] && frames[..k][1..] == frames[1..][..k - 1]
  {
  }

  /** The first frame, unless it refuses a live subscription, does not end the replay by itself. */
  lemma OverLater(frames: seq<Frame>, live: set<string>, k: nat)
    requires 0 < k <= |frames|
    requires forall c :: c in live && Names(frames[0], c) ==> !Refusal(frames[0])
    ensures Over(frames, live, k) <==> Over(frames[1..], Undecided(frames[0], live), k - 1)
  {
    var rest := Undecided(frames[0], live);
    PrefixRest(frames, k);
    RefusedLater(frames[..k], live, rest);
    forall c | c in live
      ensures Answered(frames[..k], c) <==> Names(frames[0], c) || Answered(frames[1..][..k - 1], c)
    {
      AnsweredLater(frames[..k], c);
    }
  }

  lemma OverAtStart(frames: seq<Frame>, live: set<string>)
    ensures Over(frames, live, 0) <==> live == {}
  {
    if live != {} {
      var c :| c in live;
      assert !Answered(frames[..0], c);
    }
  }

  lemma OverAtRefusal(frames: seq<Frame>, live: set<string>, c: string)
    requires frames != [] && c in live && Names(frames[0], c) && Refusal(frames[0])
    ensures Over(frames, live, 1)
  {
    DecidesNow(frames[..1], c, 0);
    assert Refusal(frames[..1][0]);
  }

  /** The loop reads until the replay is over, or the frames end. */
  lemma {:induction false} ReadsUntilOver(awaiting: set<string>, frames: seq<Frame>, j: nat)
    requires j <= ReadCount(awaiting, frames)
    ensures j < ReadCount(awaiting, frames) ==> !Over(frames, awaiting, j)
    ensures j == ReadCount(awaiting, frames) ==> j == |frames| || Over(frames, awaiting, j)
    decreases |frames|
  {
    OverAtStart(frames, awaiting);
    if awaiting != {} && frames != [] && j > 0 {
      var f := frames[0];
      TargetNames(f, awaiting);
      UndecidedIsAwaited(f, awaiting);
      if Target(f, awaiting).None? || Accepts(f) {
        ReadsUntilOver(Undecided(f, awaiting), frames[1..], j - 1);
        OverLater(frames, awaiting, j);
      } else {
        OverAtRefusal(frames, awaiting, Target(f, awaiting).value);
      }
    }
  }

  /** `k` is the first number of frames after which the replay is over, or all of them. */
  ghost predicate EndsAfter(frames: seq<Frame>, live: set<string>, k: nat) {
    k <= |frames| && (k == |frames| || Over(frames, live, k)) && forall j :: 0 <= j < k ==> !Over(frames, live, j)
  }

  /**
   The stash, from the frames alone: of those read before the replay was over, the ones that
   decide no live subscription, in order of arrival, as far as the cap allows.
   */
  lemma StashExact(s: Session, cap: nat, frames: seq<Frame>) returns (k: nat)
    ensures EndsAfter(frames, s.subs.Keys, k)
    ensures var stash := ReplayLoop(StartReplay(s), cap, frames).stash;
      var extras := Extras(frames, s.subs.Keys, k);
      stash <= extras && |stash| == if |extras| <= cap then |extras| else cap
  {
    StashedFrames(s, cap, frames);
    UnrelatedAreExtras(s.subs.Keys, frames);
    k := ReadCount(s.subs.Keys, frames);
    forall j | 0 <= j < k ensures !Over(frames, s.subs.Keys, j) {
      ReadsUntilOver(s.subs.Keys, frames, j);
    }
    ReadsUntilOver(s.subs.Keys, frames, k);
  }
}
