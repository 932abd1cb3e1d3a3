/** What one command does under the striped locks: exactly what it does alone, whatever the other threads do. */
module Turns {
  import opened Common
  import opened BitMask
  import opened Events
  import opened Replay
  import opened CacheSpec
  import opened StripedLog
  import Restart

  /** Nothing of the key differs: its entry, its counter and its events. */
  ghost predicate SameKey(s: State, s': State, k: string) {
    && Lookup(s'.entries, k) == Lookup(s.entries, k)
    && LastSeq(s'.counters, k) == LastSeq(s.counters, k)
    && ForKey(s'.log, k) == ForKey(s.log, k)
  }

  /** The command run alone, on the entries and counters of a state: what it leaves, and the event it logs. */
  function Solo(s: State, op: Op, now: int): Cache {
    Step(Cache(s.entries, s.counters, []), op, now, true).0
  }

  /** A command depends on its own key's entry and counter only. */
  lemma StepIsLocal(c: Cache, d: Cache, op: Op, now: int)
    requires c.log == d.log == []
    requires Lookup(c.entries, op.key) == Lookup(d.entries, op.key)
    ensures var (c', d') := (Step(c, op, now, true).0, Step(d, op, now, true).0);
            && Lookup(c'.entries, op.key) == Lookup(d'.entries, op.key)
            && |c'.log| == |d'.log| <= 1
            && (c'.log != [] ==>
                  && c'.log[0] == d'.log[0].(seqNo := c'.log[0].seqNo)
                  && c'.log[0].key == op.key && c'.log[0].timestamp == now
                  && c'.log[0].seqNo == LastSeq(c.counters, op.key) + 1 == LastSeq(c'.counters, op.key))
            && (c'.log == [] ==> LastSeq(c'.counters, op.key) == LastSeq(c.counters, op.key))
  {
    assert (Lookup(c.entries, op.key).Some? <==> op.key in c.entries) && (Lookup(d.entries, op.key).Some? <==> op.key in d.entries);
  }

  /** How far a turn has got, phase by phase, from the state s0 in which it took its stripe to what is to be done. */
  ghost predicate TurnSound(s0: State, s: State, k: string, done: Cache, now: int, phase: Phase) {
    if phase.Fresh? then SameKey(s0, s, k)
    else
      && Lookup(s.entries, k) == Lookup(done.entries, k)
      && OneEvent(s0, k, done, now)
      && (match phase
          case Fresh => true
          case Drafted(d) => Drafts(d, done) && LastSeq(s.counters, k) == LastSeq(s0.counters, k) && ForKey(s.log, k) == ForKey(s0.log, k)
          case Pointed(d) => Drafts(d, done) && LastSeq(s.counters, k) == LastSeq(s0.counters, k) && ForKey(s.log, k) == ForKey(s0.log, k)
          case Loaded(d, n) => Drafts(d, done) && n == LastSeq(s0.counters, k) && ForKey(s.log, k) == ForKey(s0.log, k)
          case Numbered(d, n) => Drafts(d, done) && n == LastSeq(done.counters, k) == LastSeq(s.counters, k) && ForKey(s.log, k) == ForKey(s0.log, k)
          case Stamped(d, e) =>
            && Drafts(d, done) && e == done.log[0].(timestamp := e.timestamp) && now <= e.timestamp <= s.clock
            && LastSeq(done.counters, k) == LastSeq(s.counters, k) && ForKey(s.log, k) == ForKey(s0.log, k)
          case Finished => Completed(s0, s, k, done, now))
  }

  /** A command logs at most one event, of its key, numbered one above the key's counter. */
  ghost predicate OneEvent(s0: State, k: string, done: Cache, now: int) {
    if done.log == [] then LastSeq(done.counters, k) == LastSeq(s0.counters, k)
    else
      && |done.log| == 1 && done.log[0].key == k && done.log[0].timestamp == now
      && done.log[0].seqNo == LastSeq(s0.counters, k) + 1 == LastSeq(done.counters, k)
  }

  /** The draft is the event to come, but for its number. */
  ghost predicate Drafts(d: Event, done: Cache) {
    done.log != [] && d == done.log[0].(seqNo := d.seqNo)
  }

  /**
   * The key's entry and counter are what is to be done, and what was logged for the key is nothing, or the
   * event to be logged, but for a later timestamp.
   */
  ghost predicate Completed(s0: State, s: State, k: string, done: Cache, now: int) {
    && Lookup(s.entries, k) == Lookup(done.entries, k)
    && LastSeq(s.counters, k) == LastSeq(done.counters, k)
    && (if done.log == [] then ForKey(s.log, k) == ForKey(s0.log, k)
        else exists stamp :: now <= stamp <= s.clock
                             && ForKey(s.log, k) == ForKey(s0.log, k) + [done.log[0].(timestamp := stamp)])
  }

  /** While a thread holds the stripe of its key, no other thread's step touches the key or the thread. */
  lemma OthersKeepAway(s: State, a: Action, hash: string -> nat, t: Tid)
    requires Sound(s, hash) && Enabled(s, a)
    requires Pc(s, t).Held? && (a.Tick? || a.t != t)
    ensures var s' := Next(s, a, hash); Pc(s', t) == Pc(s, t) && SameKey(s, s', Pc(s, t).op.key) && s.clock <= s'.clock
  {
    if InsideStripe(a) {
      OtherHolder(s, a, hash, t);
      OtherKey(s, a, hash, Pc(s, t).op.key);
    } else {
      OutsideStripes(s, a, hash, t);
    }
  }

  lemma OtherHolder(s: State, a: Action, hash: string -> nat, t: Tid)
    requires InsideStripe(a) && LocksSound(s) && StripesSound(s, hash) && Enabled(s, a) && Pc(s, t).Held? && a.t != t
    ensures Pc(s, a.t).Held? && Pc(s, a.t).op.key != Pc(s, t).op.key
    ensures Pc(Next(s, a, hash), t) == Pc(s, t) && Next(s, a, hash).clock == s.clock
  {
  }

  lemma OutsideStripes(s: State, a: Action, hash: string -> nat, t: Tid)
    requires !InsideStripe(a) && Enabled(s, a) && s.capacity > 0 && (a.Tick? || a.t != t)
    ensures var s' := Next(s, a, hash);
            Pc(s', t) == Pc(s, t) && s'.entries == s.entries && s'.counters == s.counters && s'.log == s.log && s.clock <= s'.clock
  {
  }

  lemma OtherKey(s: State, a: Action, hash: string -> nat, k: string)
    requires Sound(s, hash) && Enabled(s, a) && InsideStripe(a) && Pc(s, a.t).op.key != k
    ensures SameKey(s, Next(s, a, hash), k)
  {
    var pc := Pc(s, a.t);
    if a.Mutate? {
      OtherEntry(Cache(s.entries, map[], []), pc.op, if pc.op.Set? then pc.at else s.clock, k);
    } else if a.Produce? {
      StampedKey(s, a, hash);
      Restart.ForKeyOfSum(s.log, pc.phase.event, k);
    }
  }

  /** A thread produces an event of its own key. */
  lemma StampedKey(s: State, a: Action, hash: string -> nat)
    requires Sound(s, hash) && Enabled(s, a) && a.Produce?
    ensures Pc(s, a.t).phase.event.key == Pc(s, a.t).op.key
  {
    var k := Pc(s, a.t).op.key;
    assert KeySound(s, k, KeyPhase(s, k, hash));
    OtherPhases(s, a, hash, k);
  }

  lemma OtherEntry(c: Cache, op: Op, now: int, k: string)
    requires k != op.key
    ensures Lookup(Step(c, op, now, true).0.entries, k) == Lookup(c.entries, k)
  {
  }

  lemma TurnKept(s0: State, s: State, s': State, k: string, done: Cache, now: int, phase: Phase)
    requires TurnSound(s0, s, k, done, now, phase) && SameKey(s, s', k) && s.clock <= s'.clock
    ensures TurnSound(s0, s', k, done, now, phase)
  {
  }

  // ---------- The thread's own steps ----------

  /** The instant a command's map change goes by: for a SET, when its entry was built. */
  function Instant(pc: PC, clock: int): int
    requires pc.Held?
  {
    if pc.op.Set? then pc.at else clock
  }

  lemma OwnMutation(s0: State, s: State, t: Tid, hash: string -> nat)
    requires s.capacity > 0 && Enabled(s, Mutate(t)) && Pc(s, t).Held? && SameKey(s0, s, Pc(s, t).op.key)
    ensures var (s', now) := (Next(s, Mutate(t), hash), Instant(Pc(s, t), s.clock));
            TurnSound(s0, s', Pc(s, t).op.key, Solo(s0, Pc(s, t).op, now), now, PhaseOf(s', t))
  {
    StepIsLocal(Cache(s0.entries, s0.counters, []), Cache(s.entries, map[], []), Pc(s, t).op, Instant(Pc(s, t), s.clock));
  }

  lemma CountingStep(s0: State, s: State, a: Action, hash: string -> nat, done: Cache, now: int)
    requires (a.GetPointer? || a.Load? || a.Store?) && s.capacity > 0 && Enabled(s, a) && Pc(s, a.t).Held?
    requires TurnSound(s0, s, Pc(s, a.t).op.key, done, now, PhaseOf(s, a.t))
    ensures var s' := Next(s, a, hash); TurnSound(s0, s', Pc(s, a.t).op.key, done, now, PhaseOf(s', a.t))
  {
  }

  lemma StampingStep(s0: State, s: State, a: Action, hash: string -> nat, done: Cache, now: int)
    requires a.Stamp? && s.capacity > 0 && Enabled(s, a) && Pc(s, a.t).Held?
    requires TurnSound(s0, s, Pc(s, a.t).op.key, done, now, PhaseOf(s, a.t)) && now <= s.clock
    ensures var s' := Next(s, a, hash); TurnSound(s0, s', Pc(s, a.t).op.key, done, now, PhaseOf(s', a.t))
  {
  }

  lemma ProducingStep(s0: State, s: State, a: Action, hash: string -> nat, done: Cache, now: int)
    requires a.Produce? && s.capacity > 0 && Enabled(s, a) && Pc(s, a.t).Held?
    requires TurnSound(s0, s, Pc(s, a.t).op.key, done, now, PhaseOf(s, a.t))
    ensures var s' := Next(s, a, hash); TurnSound(s0, s', Pc(s, a.t).op.key, done, now, PhaseOf(s', a.t))
  {
    Restart.ForKeyOfSum(s.log, PhaseOf(s, a.t).event, Pc(s, a.t).op.key);
  }

  /** One step of any thread, other than this one's map change and release. */
  lemma TurnStep(s0: State, s: State, a: Action, hash: string -> nat, t: Tid, done: Cache, now: int)
    requires Sound(s, hash) && Enabled(s, a) && Pc(s, t).Held? && a != Mutate(t) && a != Release(t)
    requires TurnSound(s0, s, Pc(s, t).op.key, done, now, PhaseOf(s, t)) && now <= s.clock
    ensures var (pc, pc') := (Pc(s, t), Pc(Next(s, a, hash), t));
            && pc'.Held? && pc'.op == pc.op && pc'.at == pc.at && (pc'.phase.Fresh? <==> pc.phase.Fresh?)
            && TurnSound(s0, Next(s, a, hash), pc.op.key, done, now, pc'.phase) && s.clock <= Next(s, a, hash).clock
  {
    if a.Tick? || a.t != t {
      OthersKeepAway(s, a, hash, t);
      TurnKept(s0, s, Next(s, a, hash), Pc(s, t).op.key, done, now, PhaseOf(s, t));
    } else if a.Stamp? {
      StampingStep(s0, s, a, hash, done, now);
    } else if a.Produce? {
      ProducingStep(s0, s, a, hash, done, now);
    } else {
      CountingStep(s0, s, a, hash, done, now);
    }
  }

  // ---------- A whole turn ----------

  lemma TurnBegins(s: State, hash: string -> nat, t: Tid)
    requires Sound(s, hash) && Enabled(s, Lock(t))
    ensures var (pc, pc') := (Pc(s, t), Pc(Next(s, Lock(t), hash), t));
            && pc'.Held? && pc'.op == pc.op && pc'.at == pc.at <= s.clock && pc'.phase.Fresh?
            && SameKey(s, Next(s, Lock(t), hash), pc.op.key)
  {
  }

  /** What has become in s of a turn that began in s0, where its map change, if it was made, was made in sm. */
  ghost predicate TurnIs(s0: State, sm: State, s: State, t: Tid) {
    var (before, pc) := (Pc(s0, t), Pc(s, t));
    && before.Aimed? && pc.Held? && pc.op == before.op && pc.at == before.at <= sm.clock <= s.clock
    && var now := Instant(pc, sm.clock); TurnSound(s0, s, pc.op.key, Solo(s0, pc.op, now), now, pc.phase)
  }

  lemma TurnGoesOn(s0: State, sm: State, s: State, a: Action, hash: string -> nat, t: Tid)
    requires Sound(s, hash) && Enabled(s, a) && TurnIs(s0, sm, s, t) && a != Mutate(t) && a != Release(t)
    ensures TurnIs(s0, sm, Next(s, a, hash), t)
    ensures PhaseOf(Next(s, a, hash), t).Fresh? <==> PhaseOf(s, t).Fresh?
  {
    var now := Instant(Pc(s, t), sm.clock);
    TurnStep(s0, s, a, hash, t, Solo(s0, Pc(s, t).op, now), now);
  }

  lemma TurnMutates(s0: State, sm: State, s: State, hash: string -> nat, t: Tid)
    requires s.capacity > 0 && Enabled(s, Mutate(t)) && TurnIs(s0, sm, s, t)
    ensures TurnIs(s0, s, Next(s, Mutate(t), hash), t)
  {
    OwnMutation(s0, s, t, hash);
  }

  lemma {:induction false} TurnSoFar(states: seq<State>, actions: seq<Action>, hash: string -> nat, t: Tid, i: nat, j: nat)
    returns (m: nat)
    requires Behavior(states, actions, hash) && i < j < |states| && actions[i] == Lock(t)
    requires forall n :: i < n < j ==> actions[n] != Release(t)
    ensures i <= m < j && TurnIs(states[i], states[m], states[j], t)
    ensures !PhaseOf(states[j], t).Fresh? ==> i < m && actions[m] == Mutate(t)
    decreases j
  {
    assert Follows(states, actions, hash, j - 1);
    BehaviorIsSound(states, actions, hash, j - 1);
    if j == i + 1 {
      m := i;
      TurnBegins(states[i], hash, t);
    } else {
      m := TurnSoFar(states, actions, hash, t, i, j - 1);
      if actions[j - 1] == Mutate(t) {
        TurnMutates(states[i], states[m], states[j - 1], hash, t);
        m := j - 1;
      } else {
        TurnGoesOn(states[i], states[m], states[j - 1], actions[j - 1], hash, t);
      }
    }
  }

  /**
   * In every interleaving, from taking its stripe to releasing it, a command does to its key what it does
   * alone at one instant: that of its map change, or for a SET that at which its entry was built.
   */
  lemma TurnDoesItsCommand(states: seq<State>, actions: seq<Action>, hash: string -> nat, t: Tid, i: nat, j: nat)
    returns (m: nat)
    requires Behavior(states, actions, hash) && i < j < |actions|
    requires actions[i] == Lock(t) && actions[j] == Release(t)
    requires forall n :: i < n < j ==> actions[n] != Release(t)
    ensures i < m < j && actions[m] == Mutate(t)
    ensures Pc(states[i], t).Aimed? && Pc(states[j], t).Held? && Pc(states[j], t).op == Pc(states[i], t).op
    ensures var pc := Pc(states[j], t);
            var now := Instant(pc, states[m].clock);
            && Completed(states[i], states[j], pc.op.key, Solo(states[i], pc.op, now), now)
            && Completed(states[i], states[j + 1], pc.op.key, Solo(states[i], pc.op, now), now)
  {
    m := TurnSoFar(states, actions, hash, t, i, j);
    assert Follows(states, actions, hash, j);
  }
}
