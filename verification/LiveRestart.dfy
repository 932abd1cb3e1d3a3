/** Restarts of any history, whatever earlier restarts lost or brought back: fidelity to the cache as it is. */
module LiveRestart {
  import opened Common
  import opened Events
  import opened Replay
  import opened CacheSpec
  import opened TimedMap
  import opened Sessions
  import opened Restart

  /** The actions are possible and time does not go back; nothing is said of what restarts restored. */
  ghost predicate InTime(actions: seq<Action>) {
    && Possible(actions)
    && forall i :: 0 <= i < |actions| && TimeOf(actions[i]).Some? ==> UpTo(actions[..i], TimeOf(actions[i]).value)
  }

  /** The timed map of the current session, which starts from what its replay left. */
  function Local(actions: seq<Action>): Entries {
    if actions == [] then map[]
    else
      var before := actions[..|actions| - 1];
      match actions[|actions| - 1]
      case Serve(op, now) => TimedStep(Local(before), op, now).0
      case Init(at) => ReplayLog(After(before).cache.log, at).entries
      case _ => Local(before)
  }

  /** The event that decided a key in the last replay. */
  function Opening(actions: seq<Action>, k: string): Option<Event> {
    if actions == [] then None
    else
      var before := actions[..|actions| - 1];
      match actions[|actions| - 1]
      case Init(at) => LastFresh(Passing(After(before).cache.log, k), at)
      case _ => Opening(before, k)
  }

  /** An event of the key has been logged since. */
  function Touched(actions: seq<Action>, k: string): bool {
    if actions == [] then false
    else
      var n := |actions| - 1;
      match actions[n]
      case Serve(op, _) =>
        (op.key == k && |After(actions).history| > |After(actions[..n]).history|) || Touched(actions[..n], k)
      case Init(_) => false
      case _ => Touched(actions[..n], k)
  }

  /** The session's entry of a key is told by its last event, or is still what the last replay left, or has expired. */
  ghost predicate Held(actions: seq<Action>, k: string, clock: int) {
    if Touched(actions, k) then
      Tells(LastFor(After(actions).history, k), Lookup(Local(actions), k), Spoiled(actions, k), clock)
    else Fades(MeaningOf(Opening(actions, k)), Lookup(Local(actions), k), clock)
  }

  lemma FadesOnward(a: Option<Entry>, b: Option<Entry>, c: Option<Entry>, clock: int, now: int)
    requires Fades(a, b, clock) && Fades(b, c, now) && clock <= now
    ensures Fades(a, c, now)
  {
  }

  lemma HeldLater(actions: seq<Action>, k: string, clock: int, later: int)
    requires Held(actions, k, clock) && clock <= later
    ensures Held(actions, k, later)
  {
  }

  lemma {:induction false} ServeHolds(actions: seq<Action>, op: Op, now: int, k: string)
    requires Held(actions, k, now) && Simulates(After(actions).cache.entries, Local(actions), now)
    ensures Held(actions + [Serve(op, now)], k, now)
  {
    var next, s, m := actions + [Serve(op, now)], After(actions), Local(actions);
    assert next[..|actions|] == actions;
    var log := Step(s.cache.(log := []), op, now, true).0.log;
    StepTells(s.cache.(log := []), m, op, now, now);
    ServeExtends(actions, op, now, k);
    assert Local(next) == TimedStep(m, op, now).0;
    assert Touched(next, k) <==> (op.key == k && log != []) || Touched(actions, k);
    if log == [] {
      assert s.history + [] == s.history;
    } else {
      LastForOfSum(s.history, log[0], k);
    }
    if k != op.key || log == [] {
      if Touched(actions, k) {
        StillTells(LastFor(s.history, k), Lookup(m, k), Lookup(Local(next), k), Spoiled(actions, k), now, now);
      } else {
        FadesOnward(MeaningOf(Opening(actions, k)), Lookup(m, k), Lookup(Local(next), k), now, now);
      }
    }
  }

  lemma InTimeBefore(actions: seq<Action>, n: nat)
    requires InTime(actions) && n <= |actions|
    ensures InTime(actions[..n])
  {
    forall i | 0 <= i < n ensures actions[..n][..i] == actions[..i] { }
  }

  lemma {:induction false} SessionHolds(actions: seq<Action>, k: string, clock: int)
    requires InTime(actions) && UpTo(actions, clock)
    ensures Held(actions, k, clock)
    ensures After(actions).up ==> Simulates(After(actions).cache.entries, Local(actions), clock)
  {
    if actions != [] {
      var n := |actions| - 1;
      var before, a := actions[..n], actions[n];
      assert actions == before + [a];
      InTimeBefore(actions, n);
      var t := if TimeOf(a).Some? then TimeOf(a).value else clock;
      SessionHolds(before, k, t);
      match a {
        case Serve(op, now) =>
          assert Enabled(After(actions[..n]), a);
          ServeHolds(before, op, now, k);
          StepSimulates(After(before).cache.(log := []), Local(before), op, now, now, true);
        case Init(at) => ReplayedEntry(After(before).cache.log, k, at);
        case _ =>
      }
      HeldLater(actions, k, t, clock);
    }
  }

  /** Every answer but DEL's is that of the session's timed map, in any history. */
  lemma SessionsAnswerLikeTheirMap(actions: seq<Action>, i: nat)
    requires InTime(actions) && i < |actions| && actions[i].Serve? && !actions[i].op.Del?
    ensures Step(After(actions[..i]).cache, actions[i].op, actions[i].now, true).1 ==
            TimedStep(Local(actions[..i]), actions[i].op, actions[i].now).1
  {
    var now := actions[i].now;
    InTimeBefore(actions, i);
    SessionHolds(actions[..i], "", now);
    assert Enabled(After(actions[..i]), actions[i]);
    StepSimulates(After(actions[..i]).cache, Local(actions[..i]), actions[i].op, now, now, true);
  }

  /** The entry, unless it has expired. */
  function Alive(entry: Option<Entry>, now: int): Option<Entry> {
    if entry.Some? && entry.value.IsExpired(now) then None else entry
  }

  /**
   * A key with an event in this session is restored unless one of the three ways to fail applies; any
   * other one if what decides it now means what decided it at the last replay, as far as that is alive.
   */
  ghost predicate Survives(actions: seq<Action>, topic: seq<Event>, k: string, now: int) {
    if Touched(actions, k) then
      !ExpiresAt(Local(actions), k, now) && !ComesBack(topic, k, now) && !Spoiled(actions, k)
    else MeaningOf(LastFresh(Passing(topic, k), now)) == Alive(MeaningOf(Opening(actions, k)), now)
  }

  /**
   * Fidelity without a word on earlier restarts: after any history, replay of any delivery that carries
   * the key's last event shows the key as the cache that kept running does, if and only if it survives.
   */
  lemma {:induction false} LiveFidelity(actions: seq<Action>, topic: seq<Event>, now: int, k: string)
    requires InTime(actions) && UpTo(actions, now) && After(actions).up && Carries(topic, After(actions).history, k)
    ensures SameView(ReplayLog(topic, now).entries, After(actions).cache.entries, k, now) <==> Survives(actions, topic, k, now)
  {
    SessionHolds(actions, k, now);
    SessionsAreSound(actions);
    var replayed, m := ReplayLog(topic, now).entries, Local(actions);
    if Touched(actions, k) {
      ToldView(After(actions).history, topic, m, k, Spoiled(actions, k), now);
    } else {
      ReplayedEntry(topic, k, now);
      ReplayedIsFresh(topic, k, now);
      UntouchedView(MeaningOf(Opening(actions, k)), m, replayed, k, now);
    }
    forall t | t >= now ensures Visible(After(actions).cache.entries, k, t) == Visible(m, k, t) { }
  }

  lemma UntouchedView(opening: Option<Entry>, m: Entries, replayed: Entries, k: string, now: int)
    requires Fades(opening, Lookup(m, k), now)
    requires k in replayed && replayed[k].expiresAt.Some? ==> now < replayed[k].expiresAt.value
    ensures SameView(replayed, m, k, now) <==> Lookup(replayed, k) == Alive(opening, now)
  {
    assert Lookup(replayed, k).Some? <==> k in replayed;
    assert Lookup(m, k).Some? <==> k in m;
    assert SameView(replayed, m, k, now) ==> Visible(replayed, k, now) == Visible(m, k, now);
  }

  // ---------- The same events again ----------

  lemma {:induction false} LaterFresh(es: seq<Event>, at: int, now: int)
    requires at <= now && LastFresh(es, at).Some? && !LastFresh(es, at).value.Stale(now)
    ensures LastFresh(es, now) == LastFresh(es, at)
  {
    var n := |es| - 1;
    if es[n].Stale(at) {
      LaterFresh(es[..n], at, now);
    }
  }

  /**
   * A key that two restarts in a row decide from the same events survives the second one unless the
   * event that decided the first has expired by then: just now, or with an older one to bring it back.
   */
  lemma {:induction false} SameEventsAgain(es: seq<Event>, at: int, now: int)
    requires at <= now
    ensures MeaningOf(LastFresh(es, now)) == Alive(MeaningOf(LastFresh(es, at)), now) <==>
            match LastFresh(es, at)
            case None => true
            case Some(e) =>
              e.Stale(now) ==> e.timestamp + e.ttlMs != now && MeaningOf(LastFresh(es, now)) == None
  {
    match LastFresh(es, at) {
      case None =>
      case Some(e) =>
        if !e.Stale(now) {
          LaterFresh(es, at, now);
        }
    }
  }
}
