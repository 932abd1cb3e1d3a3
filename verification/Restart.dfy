/** What a restart gives back: replaying the log against a timed map that never restarts. */
module Restart {
  import opened Common
  import opened Events
  import opened Replay
  import opened CacheSpec
  import opened TimedMap
  import opened Sessions

  // ---------- Compaction: the log keeps each key's last event ----------

  function Dropping(log: seq<Event>, k: string): (r: seq<Event>)
    ensures forall e :: e in r <==> e in log && e.key != k
  {
    if log == [] then []
    else
      var n := |log| - 1;
      Dropping(log[..n], k) + (if log[n].key == k then [] else [log[n]])
  }

  function Compact(log: seq<Event>): seq<Event> {
    if log == [] then []
    else
      var n := |log| - 1;
      Dropping(Compact(log[..n]), log[n].key) + [log[n]]
  }

  lemma {:induction false} ForKeyOfSum(a: seq<Event>, e: Event, k: string)
    ensures ForKey(a + [e], k) == if e.key == k then ForKey(a, k) + [e] else ForKey(a, k)
  {
    assert (a + [e])[..|a|] == a;
    assert ForKey(a, k) + [] == ForKey(a, k);
  }

  lemma {:induction false} DroppingOfSum(a: seq<Event>, e: Event, k: string)
    ensures Dropping(a + [e], k) == if e.key == k then Dropping(a, k) else Dropping(a, k) + [e]
  {
    assert (a + [e])[..|a|] == a;
    assert Dropping(a, k) + [] == Dropping(a, k);
  }

  lemma {:induction false} ForKeyOfDropping(log: seq<Event>, k: string, j: string)
    ensures ForKey(Dropping(log, k), j) == if j == k then [] else ForKey(log, j)
  {
    if log != [] {
      var head, e := log[..|log| - 1], log[|log| - 1];
      assert log == head + [e];
      ForKeyOfDropping(head, k, j);
      DroppingOfSum(head, e, k);
      ForKeyOfSum(head, e, j);
      ForKeyOfSum(Dropping(head, k), e, j);
    }
  }

  /** A compacted log holds exactly the last event of each key. */
  lemma {:induction false} CompactKeepsLast(log: seq<Event>, k: string)
    ensures ForKey(Compact(log), k) == match LastFor(log, k) case None => [] case Some(e) => [e]
  {
    if log != [] {
      var head, e := log[..|log| - 1], log[|log| - 1];
      CompactKeepsLast(head, k);
      ForKeyOfDropping(Compact(head), e.key, k);
      ForKeyOfSum(Dropping(Compact(head), e.key), e, k);
    }
  }

  lemma {:induction false} LastForIsHighest(log: seq<Event>, k: string, f: Event)
    requires Increasing(log) && f in log && f.key == k
    ensures LastFor(log, k).Some?
    ensures f == LastFor(log, k).value || f.seqNo < LastFor(log, k).value.seqNo
  {
    var n := |log| - 1;
    if log[n].key == k {
      if f != log[n] { var i :| 0 <= i < n && log[i] == f; }
    } else {
      LastForIsHighest(log[..n], k, f);
    }
  }

  /** A log compacted by key carries every key, and brings nothing back. */
  lemma {:induction false} CompactCarries(history: seq<Event>, k: string, now: int)
    requires Numbered(history)
    ensures Carries(Compact(history), history, k) && !ComesBack(Compact(history), k, now)
  {
    var topic := Compact(history);
    CompactKeepsLast(history, k);
    PassingIsPerKey(topic, k);
    match LastFor(history, k) {
      case None =>
        NothingPasses(history, k);
        NothingPasses([], k);
      case Some(e) =>
        SingleEvent(e);
        LastIsWinner(history, history, k);
        WinnerPassesLast(history, e);
    }
    CompactComesFrom(history);
  }

  lemma {:induction false} CompactComesFrom(log: seq<Event>)
    ensures forall e :: e in Compact(log) ==> e in log
  {
    if log != [] { CompactComesFrom(log[..|log| - 1]); }
  }

  lemma SingleEvent(e: Event)
    ensures MaxSeq([e], e.key) == e.seqNo && Passing([e], e.key) == if e.seqNo > 0 then [e] else []
  {
    assert [e][..0] == [];
  }

  lemma {:induction false} PassingIsPerKey(log: seq<Event>, k: string)
    ensures Passing(log, k) == Passing(ForKey(log, k), k) && MaxSeq(log, k) == MaxSeq(ForKey(log, k), k)
  {
    if log != [] {
      var head, e := log[..|log| - 1], log[|log| - 1];
      PassingIsPerKey(head, k);
      assert log == head + [e];
      ForKeyOfSum(head, e, k);
      PassingOfSum(head, e, k);
      MaxSeqOfSum(head, e, k);
      PassingOfSum(ForKey(head, k), e, k);
      MaxSeqOfSum(ForKey(head, k), e, k);
    }
  }

  lemma {:induction false} PassingOfSum(log: seq<Event>, e: Event, k: string)
    ensures Passing(log + [e], k) ==
            if e.key == k && e.seqNo > MaxSeq(log, k) then Passing(log, k) + [e] else Passing(log, k)
  {
    assert (log + [e])[..|log|] == log;
  }

  // ---------- What a delivery of the log gives back ----------

  /** The topic holds events of the history only, and the highest one of the key, if any: in any order, and repeatedly. */
  ghost predicate Carries(topic: seq<Event>, history: seq<Event>, k: string) {
    && (forall e :: e in topic ==> e in history)
    && MaxSeq(topic, k) == MaxSeq(history, k)
  }

  /** The last event of a key is the winner in every topic that carries it. */
  lemma {:induction false} LastIsWinner(history: seq<Event>, topic: seq<Event>, k: string)
    requires Numbered(history) && Carries(topic, history, k)
    ensures match LastFor(history, k)
            case Some(e) => IsWinner(topic, e)
            case None => Passing(topic, k) == []
  {
    forall f | f in history && f.key == k
      ensures LastFor(history, k).Some?
      ensures f == LastFor(history, k).value || f.seqNo < LastFor(history, k).value.seqNo
    {
      LastForIsHighest(history, k, f);
    }
    if LastFor(history, k).None? { NothingPasses(topic, k); }
  }

  lemma {:induction false} NothingPasses(log: seq<Event>, k: string)
    requires forall e :: e in log ==> e.key != k
    ensures Passing(log, k) == [] && MaxSeq(log, k) == 0
  {
    if log != [] { NothingPasses(log[..|log| - 1], k); }
  }

  /** What replay of any such topic gives one key. */
  lemma {:induction false} ReplayGives(history: seq<Event>, topic: seq<Event>, k: string, now: int)
    requires Numbered(history) && Carries(topic, history, k)
    ensures var r := Lookup(ReplayLog(topic, now).entries, k);
            match LastFor(history, k)
            case None => r == None && !ComesBack(topic, k, now)
            case Some(e) =>
              if e.Stale(now) then r == None <==> !ComesBack(topic, k, now)
              else r == e.Meaning() && !ComesBack(topic, k, now)
  {
    LastIsWinner(history, topic, k);
    match LastFor(history, k) {
      case None => ReplayedEntry(topic, k, now);
      case Some(e) => WinnerDecides(topic, e, now);
    }
  }

  /** Nothing that replay leaves has expired, not even at this instant. */
  lemma ReplayedIsFresh(topic: seq<Event>, k: string, now: int)
    ensures var r := Lookup(ReplayLog(topic, now).entries, k);
            r.Some? && r.value.expiresAt.Some? ==> now < r.value.expiresAt.value
  {
    ReplayedEntry(topic, k, now);
  }

  // ---------- The timed map that never restarts ----------

  function Ideal(actions: seq<Action>): Entries {
    if actions == [] then map[]
    else
      var before := Ideal(actions[..|actions| - 1]);
      match actions[|actions| - 1]
      case Serve(op, now) => TimedStep(before, op, now).0
      case _ => before
  }

  predicate IsBadSet(op: Op) {
    op.Set? && op.ttl.Some? && op.ttl.value <= 0
  }

  /** The last command logged for the key was a SET with a TTL that is not positive. */
  function Spoiled(actions: seq<Action>, k: string): bool {
    if actions == [] then false
    else
      var n := |actions| - 1;
      match actions[n]
      case Serve(op, _) =>
        if op.key == k && |After(actions).history| > |After(actions[..n]).history| then IsBadSet(op)
        else Spoiled(actions[..n], k)
      case _ => Spoiled(actions[..n], k)
  }

  /** From `now` on, both maps show the same value and the same expiry instant for the key. */
  ghost predicate SameView(a: Entries, b: Entries, k: string, now: int) {
    forall t :: t >= now ==> Visible(a, k, t) == Visible(b, k, t)
  }

  predicate ExpiresAt(entries: Entries, k: string, now: int) {
    k in entries && entries[k].expiresAt == Some(now)
  }

  /** The three ways to lose or regain a key by restarting are ruled out. */
  predicate Restores(actions: seq<Action>, topic: seq<Event>, k: string, now: int) {
    !ExpiresAt(Ideal(actions), k, now) && !ComesBack(topic, k, now) && !Spoiled(actions, k)
  }

  function TimeOf(a: Action): Option<int> {
    match a
    case Serve(_, now) => Some(now)
    case Init(at) => Some(at)
    case _ => None
  }

  ghost predicate UpTo(actions: seq<Action>, clock: int) {
    forall i :: 0 <= i < |actions| && TimeOf(actions[i]).Some? ==> TimeOf(actions[i]).value <= clock
  }

  /** The actions are possible, time does not go back, and each restart on the way restored every key. */
  ghost predicate Orderly(actions: seq<Action>) {
    && Possible(actions)
    && (forall i :: 0 <= i < |actions| && TimeOf(actions[i]).Some? ==> UpTo(actions[..i], TimeOf(actions[i]).value))
    && (forall i, k :: 0 <= i < |actions| && actions[i].Init? ==>
          Restores(actions[..i], After(actions[..i]).cache.log, k, actions[i].at))
  }

  // ---------- The history tells what the timed map holds ----------

  /**
   * What a key's last event tells of its entry: the entry it means, or none once that has expired.
   * The event of a bad SET tells only that the entry is about to expire.
   */
  ghost predicate Tells(last: Option<Event>, entry: Option<Entry>, spoiled: bool, clock: int) {
    match last
    case None => entry == None && !spoiled
    case Some(e) =>
      if spoiled then
        && e.kind.SET? && !e.Expires()
        && (entry.Some? ==> entry.value.expiresAt.Some? && entry.value.expiresAt.value <= clock)
      else entry == e.Meaning() || (entry == None && e.Meaning().value.IsExpired(clock))
  }

  ghost predicate Told(actions: seq<Action>, clock: int) {
    forall k :: Tells(LastFor(After(actions).history, k), Lookup(Ideal(actions), k), Spoiled(actions, k), clock)
  }

  /** An entry stays, or goes once it has expired. */
  ghost predicate Fades(entry: Option<Entry>, entry': Option<Entry>, now: int) {
    entry' == entry || (entry' == None && entry.value.IsExpired(now))
  }

  lemma StillTells(last: Option<Event>, entry: Option<Entry>, entry': Option<Entry>, spoiled: bool, clock: int, now: int)
    requires Tells(last, entry, spoiled, clock) && clock <= now && Fades(entry, entry', now)
    ensures Tells(last, entry', spoiled, now)
  {
  }

  /** A command's effect on its own key in the timed map, and the event it logs, say the same. */
  lemma StepTells(c: Cache, m: Entries, op: Op, clock: int, now: int)
    requires Simulates(c.entries, m, clock) && clock <= now && c.log == []
    ensures var log := Step(c, op, now, true).0.log;
            var m' := TimedStep(m, op, now).0;
            && (forall k :: k != op.key || log == [] ==> Fades(Lookup(m, k), Lookup(m', k), now))
            && (log != [] ==> log == [log[0]] && log[0].key == op.key
                              && Tells(Some(log[0]), Lookup(m', op.key), IsBadSet(op), now))
  {
    assert Lookup(m, op.key).Some? <==> op.key in m;
  }

  lemma {:induction false} ServeExtends(actions: seq<Action>, op: Op, now: int, k: string)
    ensures var next := actions + [Serve(op, now)];
            var log := Step(After(actions).cache.(log := []), op, now, true).0.log;
            && After(next).history == After(actions).history + log
            && Ideal(next) == TimedStep(Ideal(actions), op, now).0
            && Spoiled(next, k) == if op.key == k && log != [] then IsBadSet(op) else Spoiled(actions, k)
  {
    var next := actions + [Serve(op, now)];
    assert next[..|actions|] == actions;
  }

  lemma {:induction false} ServeTells(actions: seq<Action>, op: Op, clock: int, now: int)
    requires Told(actions, clock) && Simulates(After(actions).cache.entries, Ideal(actions), clock) && clock <= now
    ensures Told(actions + [Serve(op, now)], now)
  {
    var next := actions + [Serve(op, now)];
    var s, m := After(actions), Ideal(actions);
    var log := Step(s.cache.(log := []), op, now, true).0.log;
    StepTells(s.cache.(log := []), m, op, clock, now);
    forall k ensures Tells(LastFor(After(next).history, k), Lookup(Ideal(next), k), Spoiled(next, k), now) {
      ServeExtends(actions, op, now, k);
      assert Tells(LastFor(s.history, k), Lookup(m, k), Spoiled(actions, k), clock);
      if log == [] {
        assert s.history + [] == s.history;
      } else {
        LastForOfSum(s.history, log[0], k);
      }
      if k != op.key || log == [] {
        StillTells(LastFor(s.history, k), Lookup(m, k), Lookup(Ideal(next), k), Spoiled(actions, k), clock, now);
      }
    }
  }

  lemma ToldLater(actions: seq<Action>, clock: int, later: int)
    requires Told(actions, clock) && clock <= later
    ensures Told(actions, later)
  {
    forall k ensures Tells(LastFor(After(actions).history, k), Lookup(Ideal(actions), k), Spoiled(actions, k), later) {
      assert Tells(LastFor(After(actions).history, k), Lookup(Ideal(actions), k), Spoiled(actions, k), clock);
    }
  }

  /**
   * What a map and a replay of the log show of a key, given the key's last event: the same from now
   * on, if and only if none of the three ways to fail applies; and if not, the difference shows at once.
   */
  lemma {:induction false} ToldView(
      history: seq<Event>, topic: seq<Event>, m: Entries, k: string, spoiled: bool, now: int)
    requires Numbered(history) && Carries(topic, history, k)
    requires Tells(LastFor(history, k), Lookup(m, k), spoiled, now)
    ensures var replayed := ReplayLog(topic, now).entries;
            if !ExpiresAt(m, k, now) && !ComesBack(topic, k, now) && !spoiled
            then SameView(replayed, m, k, now) && Fades(Lookup(m, k), Lookup(replayed, k), now)
            else Visible(replayed, k, now) != Visible(m, k, now)
  {
    var replayed := ReplayLog(topic, now).entries;
    ReplayGives(history, topic, k, now);
    ReplayedIsFresh(topic, k, now);
    assert Lookup(replayed, k).Some? <==> k in replayed;
    assert Lookup(m, k).Some? <==> k in m;
    EntryView(LastFor(history, k), m, replayed, k, spoiled, ComesBack(topic, k, now), now);
  }

  lemma EntryView(
      last: Option<Event>, m: Entries, replayed: Entries, k: string, spoiled: bool, comesBack: bool, now: int)
    requires Tells(last, Lookup(m, k), spoiled, now)
    requires k in replayed && replayed[k].expiresAt.Some? ==> now < replayed[k].expiresAt.value
    requires match last
             case None => k !in replayed && !comesBack
             case Some(e) =>
               if e.Stale(now) then k !in replayed <==> !comesBack
               else Lookup(replayed, k) == e.Meaning() && !comesBack
    ensures if !ExpiresAt(m, k, now) && !comesBack && !spoiled
            then SameView(replayed, m, k, now) && Fades(Lookup(m, k), Lookup(replayed, k), now)
            else Visible(replayed, k, now) != Visible(m, k, now)
  {
    assert Lookup(replayed, k).Some? <==> k in replayed;
    assert Lookup(m, k).Some? <==> k in m;
  }

  lemma {:induction false} HistoryTells(actions: seq<Action>, clock: int)
    requires Orderly(actions) && UpTo(actions, clock)
    ensures Told(actions, clock)
    ensures After(actions).up ==> Simulates(After(actions).cache.entries, Ideal(actions), clock)
  {
    if actions != [] {
      var n := |actions| - 1;
      var before, a := actions[..n], actions[n];
      var s := After(before);
      assert actions == before + [a];
      OrderlyBefore(actions, n);
      var t := if TimeOf(a).Some? then TimeOf(a).value else clock;
      HistoryTells(before, t);
      match a {
        case Serve(op, now) =>
          assert Enabled(After(actions[..n]), a);
          ServeTells(before, op, now, now);
          StepSimulates(s.cache.(log := []), Ideal(before), op, now, now, true);
        case Init(at) =>
          SessionsAreSound(before);
          forall k ensures var r, m := ReplayLog(s.cache.log, at).entries, Ideal(before);
                           (k in r ==> k in m && m[k] == r[k]) && (k in m && k !in r ==> m[k].IsExpired(at))
          {
            assert Restores(actions[..n], After(actions[..n]).cache.log, k, actions[n].at);
            assert Tells(LastFor(s.history, k), Lookup(Ideal(before), k), Spoiled(before, k), at);
            ToldView(s.history, s.cache.log, Ideal(before), k, Spoiled(before, k), at);
            assert Lookup(Ideal(before), k).Some? <==> k in Ideal(before);
            assert Lookup(ReplayLog(s.cache.log, at).entries, k).Some? <==> k in ReplayLog(s.cache.log, at).entries;
          }
        case _ =>
      }
      ToldLater(actions, t, clock);
    }
  }

  lemma OrderlyBefore(actions: seq<Action>, n: nat)
    requires Orderly(actions) && n <= |actions|
    ensures Orderly(actions[..n])
  {
    forall i | 0 <= i < n ensures actions[..n][..i] == actions[..i] { }
  }

  // ---------- One restart ----------

  /**
   * Restart fidelity. Replay at `now` of any delivery that carries the key's last event shows, at
   * `now` and at all later times, the key's value and expiry instant as the timed map that never
   * restarts has them, and as a cache that kept running shows them: if and only if the key does not
   * expire at exactly `now`, no older event of it comes back, and it was not last set with a TTL
   * that is not positive.
   */
  lemma {:induction false} RestartFidelity(actions: seq<Action>, topic: seq<Event>, now: int, k: string)
    requires Orderly(actions) && UpTo(actions, now) && Carries(topic, After(actions).history, k)
    ensures var replayed := ReplayLog(topic, now).entries;
            && (SameView(replayed, Ideal(actions), k, now) <==> Restores(actions, topic, k, now))
            && (After(actions).up ==>
                  (SameView(replayed, After(actions).cache.entries, k, now) <==> Restores(actions, topic, k, now)))
  {
    HistoryTells(actions, now);
    SessionsAreSound(actions);
    assert Tells(LastFor(After(actions).history, k), Lookup(Ideal(actions), k), Spoiled(actions, k), now);
    ToldView(After(actions).history, topic, Ideal(actions), k, Spoiled(actions, k), now);
    if After(actions).up {
      forall t | t >= now ensures Visible(After(actions).cache.entries, k, t) == Visible(Ideal(actions), k, t) { }
    }
  }

  /** From a topic compacted to each key's last event, a key is restored if it does not expire just then. */
  lemma {:induction false} CompactedRestart(actions: seq<Action>, now: int, k: string)
    requires Orderly(actions) && UpTo(actions, now)
    ensures SameView(ReplayLog(Compact(After(actions).history), now).entries, Ideal(actions), k, now) <==>
            !ExpiresAt(Ideal(actions), k, now) && !Spoiled(actions, k)
  {
    SessionsAreSound(actions);
    CompactCarries(After(actions).history, k, now);
    RestartFidelity(actions, Compact(After(actions).history), now, k);
  }

  // ---------- Any number of restarts ----------

  /**
   * Restarts are unobservable: over any number of sessions, whatever the log service made of the log,
   * every answer but DEL's is the one of a timed map that never restarts.
   */
  lemma RestartsAreUnobservable(actions: seq<Action>, i: nat)
    requires Orderly(actions) && i < |actions| && actions[i].Serve? && !actions[i].op.Del?
    ensures Step(After(actions[..i]).cache, actions[i].op, actions[i].now, true).1 ==
            TimedStep(Ideal(actions[..i]), actions[i].op, actions[i].now).1
  {
    var before, now := actions[..i], actions[i].now;
    OrderlyBefore(actions, i);
    HistoryTells(before, now);
    assert Enabled(After(actions[..i]), actions[i]);
    StepSimulates(After(before).cache, Ideal(before), actions[i].op, now, now, true);
  }

  /** What a client that asks right after a restart hears of a key. */
  function Heard(actions: seq<Action>, at: int, op: Op): Reply {
    Step(After(actions + [Init(at)]).cache, op, at, true).1
  }

  /**
   * Only restarts that restore every key are unobservable: right after one, GET and PTTL of a key are
   * both answered like the timed map answers them if and only if the restart restored that key.
   */
  lemma {:induction false} FailedRestartShows(actions: seq<Action>, at: int, k: string)
    requires Orderly(actions) && UpTo(actions, at) && !After(actions).up
    ensures Restores(actions, After(actions).cache.log, k, at) <==>
            && Heard(actions, at, Get(k)) == TimedStep(Ideal(actions), Get(k), at).1
            && Heard(actions, at, Pttl(k)) == TimedStep(Ideal(actions), Pttl(k), at).1
  {
    assert (actions + [Init(at)])[..|actions|] == actions;
    SessionsAreSound(actions);
    RestartFidelity(actions, After(actions).cache.log, at, k);
    assert Tells(LastFor(After(actions).history, k), Lookup(Ideal(actions), k), Spoiled(actions, k), at) by { HistoryTells(actions, at); }
    ToldView(After(actions).history, After(actions).cache.log, Ideal(actions), k, Spoiled(actions, k), at);
    AnswersShowTheView(After(actions + [Init(at)]).cache, Ideal(actions), k, at);
  }

  lemma AnswersShowTheView(c: Cache, m: Entries, k: string, now: int)
    ensures Visible(c.entries, k, now) == Visible(m, k, now) <==>
            && Step(c, Get(k), now, true).1 == TimedStep(m, Get(k), now).1
            && Step(c, Pttl(k), now, true).1 == TimedStep(m, Pttl(k), now).1
  {
  }

  // ---------- Runs of one cache ----------

  /** A new process that serves these calls. */
  function Session(at: int, calls: seq<Call>): seq<Action> {
    if calls == [] then [Init(at)]
    else
      var n := |calls| - 1;
      Session(at, calls[..n]) + [Serve(calls[n].op, calls[n].now)]
  }

  lemma StepAppends(c: Cache, op: Op, now: int)
    ensures Step(c, op, now, true).0 ==
            var c' := Step(c.(log := []), op, now, true).0; c'.(log := c.log + c'.log)
  {
    assert c.log + [] == c.log;
    forall e: Event ensures c.log + ([] + [e]) == c.log + [e] { }
    StepLogsNextNumber(c.(log := []), op, now);
    match op {
      case Set(_, _, _) =>
      case Get(_) =>
      case Del(_) =>
      case Expire(_, _) =>
      case Persist(_) =>
      case Pttl(_) =>
    }
  }

  /** A first session logs and holds what a run of its commands does, and its timed map is that of the run. */
  lemma {:induction false} SessionIsRun(at: int, calls: seq<Call>)
    ensures var live := Run(EMPTY, calls, true); After(Session(at, calls)) == System(live.log, live, true)
    ensures Ideal(Session(at, calls)) == TimedRun(map[], calls)
  {
    if calls == [] {
      assert Session(at, calls)[..0] == [];
      assert ReplayLog([], at) == FRESH;
    } else {
      var n := |calls| - 1;
      SessionIsRun(at, calls[..n]);
      var before := Session(at, calls[..n]);
      assert Session(at, calls)[..|before|] == before;
      StepAppends(Run(EMPTY, calls[..n], true), calls[n].op, calls[n].now);
    }
  }

  lemma {:induction false} ServingIsOrderly(actions: seq<Action>, op: Op, now: int)
    requires Orderly(actions) && After(actions).up && UpTo(actions, now)
    ensures Orderly(actions + [Serve(op, now)]) && UpTo(actions + [Serve(op, now)], now)
  {
    var next := actions + [Serve(op, now)];
    forall i | 0 <= i <= |actions| ensures next[..i] == actions[..i] { }
    assert actions[..|actions|] == actions;
  }

  lemma {:induction false} StartIsOrderly(at: int)
    ensures Orderly([Init(at)]) && UpTo([Init(at)], at)
  {
    var actions := [Init(at)];
    assert actions[..0] == [];
    forall k ensures Restores([], After([]).cache.log, k, at) { }
  }

  lemma {:induction false} SessionIsOrderly(at: int, calls: seq<Call>)
    requires Timed(at, calls)
    ensures Orderly(Session(at, calls)) && UpTo(Session(at, calls), Clock(at, calls))
  {
    if calls == [] {
      StartIsOrderly(at);
    } else {
      var n := |calls| - 1;
      var before := Session(at, calls[..n]);
      TimedBefore(at, calls, n);
      SessionIsOrderly(at, calls[..n]);
      UpToLater(before, Clock(at, calls[..n]), calls[n].now);
      SessionIsRun(at, calls[..n]);
      ServingIsOrderly(before, calls[n].op, calls[n].now);
    }
  }

  lemma TimedBefore(at: int, calls: seq<Call>, n: nat)
    requires Timed(at, calls) && n < |calls|
    ensures Timed(at, calls[..n]) && Clock(at, calls[..n]) <= calls[n].now
  {
  }

  lemma UpToLater(actions: seq<Action>, clock: int, later: int)
    requires UpTo(actions, clock) && clock <= later
    ensures UpTo(actions, later)
  {
  }

  /**
   * The same for one cache: after any run of commands, replay of any delivery of its log shows a key
   * as the cache that kept running does, if and only if none of the three ways to fail applies.
   */
  lemma {:induction false} RunFidelity(start: int, calls: seq<Call>, topic: seq<Event>, now: int, k: string)
    requires Timed(start, calls) && Clock(start, calls) <= now
    requires Carries(topic, Run(EMPTY, calls, true).log, k)
    ensures SameView(ReplayLog(topic, now).entries, Run(EMPTY, calls, true).entries, k, now) <==>
            Restores(Session(start, calls), topic, k, now)
  {
    SessionIsRun(start, calls);
    SessionIsOrderly(start, calls);
    RestartFidelity(Session(start, calls), topic, now, k);
  }

  // ---------- How a restart fails to restore a key ----------

  lemma {:induction false} RunOfOne(first: Call)
    ensures Run(EMPTY, [first], true) == Step(EMPTY, first.op, first.now, true).0
  {
    assert [first][..0] == [];
  }

  lemma {:induction false} RunOfTwo(first: Call, second: Call)
    ensures Run(EMPTY, [first, second], true) ==
            Step(Step(EMPTY, first.op, first.now, true).0, second.op, second.now, true).0
  {
    RunOfOne(first);
    assert [first, second][..1] == [first];
  }

  lemma {:induction false} ReplayOfOne(e: Event, now: int)
    requires e.seqNo > 0
    ensures Lookup(ReplayLog([e], now).entries, e.key) == if e.Stale(now) then None else e.Meaning()
  {
    SingleEvent(e);
    ReplayedEntry([e], e.key, now);
  }

  lemma {:induction false} TwoEvents(e: Event, f: Event)
    requires e.key == f.key && 0 < e.seqNo < f.seqNo
    ensures Passing([e, f], e.key) == [e, f]
  {
    SingleEvent(e);
    assert [e, f][..1] == [e];
  }

  /** SET, then EXPIRE, then a restart from the full log once the key has expired: the key is back, for good. */
  lemma {:induction false} ExpiredKeyComesBack(k: string, v: string)
    ensures var live := Run(EMPTY, [Call(Set(k, v, None), 0), Call(Expire(k, 5), 1)], true);
            && ComesBack(live.log, k, 10)
            && Visible(live.entries, k, 10) == None
            && Lookup(ReplayLog(live.log, 10).entries, k) == Some(Entry(v, None))
  {
    RunOfTwo(Call(Set(k, v, None), 0), Call(Expire(k, 5), 1));
    var (e, f) := (Event(SET, k, v, -1, 1, 0), Event(EXPIRE, k, v, 5, 2, 1));
    assert Run(EMPTY, [Call(Set(k, v, None), 0), Call(Expire(k, 5), 1)], true).log == [e, f];
    TwoEvents(e, f);
    LastFreshOfSum([e], f, 10);
    assert [e] + [f] == [e, f] && LastFresh([e], 10) == Some(e);
    ReplayedEntry([e, f], k, 10);
  }

  /** A restart at the very instant that a key expires loses it, while it is still visible in the live cache. */
  lemma KeyExpiresAtRestart(k: string, v: string)
    ensures var live := Run(EMPTY, [Call(Set(k, v, Some(5)), 0)], true);
            && ExpiresAt(live.entries, k, 5)
            && Visible(live.entries, k, 5) == Some(Entry(v, Some(5)))
            && Lookup(ReplayLog(live.log, 5).entries, k) == None
  {
    RunOfOne(Call(Set(k, v, Some(5)), 0));
    var e := Event(SET, k, v, 5, 1, 0);
    assert Run(EMPTY, [Call(Set(k, v, Some(5)), 0)], true).log == [e];
    ReplayOfOne(e, 5);
  }

  /** A SET whose TTL is not positive is gone at once in the live cache, and stays for ever after a restart. */
  lemma NonPositiveTtlIsForgotten(k: string, v: string, ttl: int, now: int, later: int)
    requires ttl <= 0 && now + ttl < later
    ensures var live := Run(EMPTY, [Call(Set(k, v, Some(ttl)), now)], true);
            && Visible(live.entries, k, later) == None
            && Visible(ReplayLog(live.log, later).entries, k, later) == Some(Entry(v, None))
  {
    RunOfOne(Call(Set(k, v, Some(ttl)), now));
    var e := Event(SET, k, v, ttl, 1, now);
    assert Run(EMPTY, [Call(Set(k, v, Some(ttl)), now)], true).log == [e];
    ReplayOfOne(e, later);
    assert e.Meaning() == Some(Entry(v, None));
  }
}
