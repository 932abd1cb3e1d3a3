/** Commands served one after the other are an interleaving too, and do what a run of one cache does. */
module Serial {
  import opened Common
  import opened BitMask
  import opened Events
  import opened Replay
  import opened CacheSpec
  import opened StripedLog
  import Restart

  /** No thread is at work. */
  ghost predicate Resting(s: State) {
    && s.capacity >= 16 && IsPow2(s.capacity)
    && s.shared == {} && s.exclusive == None && s.stripes == map[] && forall t: Tid :: Pc(s, t) == Idle
  }

  ghost predicate Ends(states: seq<State>, actions: seq<Action>, hash: string -> nat, s: State) {
    Behavior(states, actions, hash) && states[|states| - 1] == s
  }

  /** One more step. */
  lemma Extend(states: seq<State>, actions: seq<Action>, hash: string -> nat, s: State, a: Action)
    requires Ends(states, actions, hash, s) && s.capacity > 0 && Enabled(s, a)
    ensures Ends(states + [Next(s, a, hash)], actions + [a], hash, Next(s, a, hash))
  {
    var states', actions' := states + [Next(s, a, hash)], actions + [a];
    forall i | 0 <= i < |actions'| ensures Follows(states', actions', hash, i) {
      if i < |actions| { assert Follows(states, actions, hash, i); }
    }
  }

  /** A state in which thread 0 alone is at work. */
  function Working(s: State, pc: PC): State {
    s.(threads := s.threads[0 := pc],
       shared := if InsideMap(pc) then {0} else {},
       stripes := if pc.Held? then map[pc.stripe := 0] else map[])
  }

  /** One step of thread 0, from one state to another. */
  ghost predicate Moves(s: State, a: Action, s': State, hash: string -> nat) {
    s.capacity > 0 && Enabled(s, a) && Next(s, a, hash) == s'
  }

  lemma Entering(states: seq<State>, actions: seq<Action>, hash: string -> nat, s: State, op: Op)
    returns (states': seq<State>, actions': seq<Action>)
    requires Ends(states, actions, hash, s) && Resting(s) && Accepted(op)
    ensures Ends(states', actions', hash, Working(s, Held(op, s.clock, Stripe(hash(op.key), s.capacity), Fresh)))
  {
    var at, x := s.clock, Stripe(hash(op.key), s.capacity);
    var (s1, s2, s3) := (Working(s, Waiting(op, at)), Working(s, Entered(op, at)), Working(s, Aimed(op, at, x)));
    EnteringMoves(s, op, hash);
    Extend(states, actions, hash, s, Begin(0, op));
    states', actions' := states + [s1], actions + [Begin(0, op)];
    Extend(states', actions', hash, s1, EnterShared(0));
    states', actions' := states' + [s2], actions' + [EnterShared(0)];
    Extend(states', actions', hash, s2, Aim(0));
    states', actions' := states' + [s3], actions' + [Aim(0)];
    Extend(states', actions', hash, s3, Lock(0));
    states', actions' := states' + [Working(s, Held(op, at, x, Fresh))], actions' + [Lock(0)];
  }

  lemma EnteringMoves(s: State, op: Op, hash: string -> nat)
    requires Resting(s) && Accepted(op)
    ensures var (at, x) := (s.clock, Stripe(hash(op.key), s.capacity));
            && Moves(s, Begin(0, op), Working(s, Waiting(op, at)), hash)
            && Moves(Working(s, Waiting(op, at)), EnterShared(0), Working(s, Entered(op, at)), hash)
            && Moves(Working(s, Entered(op, at)), Aim(0), Working(s, Aimed(op, at, x)), hash)
            && Moves(Working(s, Aimed(op, at, x)), Lock(0), Working(s, Held(op, at, x, Fresh)), hash)
  {
    assert Pc(s, 0) == Idle;
    LockingMoves(s, op, hash);
  }

  lemma LockingMoves(s: State, op: Op, hash: string -> nat)
    requires Resting(s)
    ensures var (at, x) := (s.clock, Stripe(hash(op.key), s.capacity));
            && Moves(Working(s, Entered(op, at)), Aim(0), Working(s, Aimed(op, at, x)), hash)
            && Moves(Working(s, Aimed(op, at, x)), Lock(0), Working(s, Held(op, at, x, Fresh)), hash)
  {
  }

  /** Adds the key at 0 if it is new. */
  function Pointing(s: State, k: string): map<string, nat> {
    if k in s.counters then s.counters else s.counters[k := 0]
  }

  /** From the draft to the produced event. */
  lemma Counting(states: seq<State>, actions: seq<Action>, hash: string -> nat, s: State, held: PC, d: Event)
    returns (states': seq<State>, actions': seq<Action>)
    requires held.Held? && held.phase == Drafted(d) && d.timestamp == s.clock
    requires Ends(states, actions, hash, Working(s, held)) && s.capacity > 0
    ensures var n := LastSeq(s.counters, held.op.key) + 1;
            Ends(states', actions', hash, Working(s, held.(phase := Finished)).(
              counters := s.counters[held.op.key := n], log := s.log + [d.(seqNo := n)]))
  {
    var n := LastSeq(s.counters, held.op.key) + 1;
    states', actions' := Numbering(states, actions, hash, s, held, d);
    states', actions' := Stamping(states', actions', hash, s.(counters := s.counters[held.op.key := n]), held, d, d.(seqNo := n));
  }

  lemma Numbering(states: seq<State>, actions: seq<Action>, hash: string -> nat, s: State, held: PC, d: Event)
    returns (states': seq<State>, actions': seq<Action>)
    requires held.Held? && held.phase == Drafted(d)
    requires Ends(states, actions, hash, Working(s, held)) && s.capacity > 0
    ensures var n := LastSeq(s.counters, held.op.key) + 1;
            Ends(states', actions', hash, Working(s.(counters := s.counters[held.op.key := n]), held.(phase := Numbered(d, n))))
  {
    var k, n := held.op.key, LastSeq(s.counters, held.op.key);
    var s1 := Working(s, held.(phase := Pointed(d))).(counters := Pointing(s, k));
    var s2 := Working(s, held.(phase := Loaded(d, n))).(counters := Pointing(s, k));
    CountingMoves(s, held, d, hash);
    Extend(states, actions, hash, Working(s, held), GetPointer(0));
    states', actions' := states + [s1], actions + [GetPointer(0)];
    Extend(states', actions', hash, s1, Load(0));
    states', actions' := states' + [s2], actions' + [Load(0)];
    Extend(states', actions', hash, s2, Store(0));
    states', actions' := states' + [Next(s2, Store(0), hash)], actions' + [Store(0)];
  }

  lemma CountingMoves(s: State, held: PC, d: Event, hash: string -> nat)
    requires held.Held? && held.phase == Drafted(d) && s.capacity > 0
    ensures var (k, n) := (held.op.key, LastSeq(s.counters, held.op.key));
            var s1 := Working(s, held.(phase := Pointed(d))).(counters := Pointing(s, k));
            var s2 := Working(s, held.(phase := Loaded(d, n))).(counters := Pointing(s, k));
            var s3 := Working(s, held.(phase := Numbered(d, n + 1))).(counters := s.counters[k := n + 1]);
            && Moves(Working(s, held), GetPointer(0), s1, hash)
            && Moves(s1, Load(0), s2, hash) && Moves(s2, Store(0), s3, hash)
  {
    PointerMoves(s, held, d, hash);
    StoreMoves(s, held, d, hash);
  }

  lemma PointerMoves(s: State, held: PC, d: Event, hash: string -> nat)
    requires held.Held? && held.phase == Drafted(d) && s.capacity > 0
    ensures Moves(Working(s, held), GetPointer(0),
                  Working(s, held.(phase := Pointed(d))).(counters := Pointing(s, held.op.key)), hash)
  {
  }

  lemma StoreMoves(s: State, held: PC, d: Event, hash: string -> nat)
    requires held.Held? && s.capacity > 0
    ensures var (k, n) := (held.op.key, LastSeq(s.counters, held.op.key));
            Moves(Working(s, held.(phase := Loaded(d, n))).(counters := Pointing(s, k)), Store(0),
                  Working(s, held.(phase := Numbered(d, n + 1))).(counters := s.counters[k := n + 1]), hash)
  {
    var (k, n) := (held.op.key, LastSeq(s.counters, held.op.key));
    assert Pointing(s, k)[k := n + 1] == s.counters[k := n + 1];
  }

  lemma Stamping(states: seq<State>, actions: seq<Action>, hash: string -> nat, s: State, held: PC, d: Event, e: Event)
    returns (states': seq<State>, actions': seq<Action>)
    requires held.Held? && e == d.(seqNo := e.seqNo) && d.timestamp == s.clock && s.capacity > 0
    requires Ends(states, actions, hash, Working(s, held.(phase := Numbered(d, e.seqNo))))
    ensures Ends(states', actions', hash, Working(s, held.(phase := Finished)).(log := s.log + [e]))
  {
    var s0 := Working(s, held.(phase := Numbered(d, e.seqNo)));
    var s1 := Working(s, held.(phase := Stamped(d, e)));
    var s2 := Working(s, held.(phase := Finished)).(log := s.log + [e]);
    StampingMoves(s, held, d, e, hash);
    Extend(states, actions, hash, s0, Stamp(0));
    states', actions' := states + [s1], actions + [Stamp(0)];
    Extend(states', actions', hash, s1, Produce(0));
    states', actions' := states' + [s2], actions' + [Produce(0)];
  }

  lemma StampingMoves(s: State, held: PC, d: Event, e: Event, hash: string -> nat)
    requires held.Held? && e == d.(seqNo := e.seqNo) && d.timestamp == s.clock && s.capacity > 0
    ensures var s1 := Working(s, held.(phase := Stamped(d, e)));
            && Moves(Working(s, held.(phase := Numbered(d, e.seqNo))), Stamp(0), s1, hash)
            && Moves(s1, Produce(0), Working(s, held.(phase := Finished)).(log := s.log + [e]), hash)
  {
  }

  /** A command's effect on the entries does not depend on counters and log, and its event depends on its counter. */
  lemma StepSplits(c: Cache, op: Op, now: int)
    ensures var (full, small) := (Step(c, op, now, true).0, Step(Cache(c.entries, map[], []), op, now, true).0);
            && full.entries == small.entries && |small.log| <= 1
            && (if small.log == [] then full == c.(entries := full.entries)
                else
                  var n := LastSeq(c.counters, op.key) + 1;
                  && small.log[0].key == op.key && small.log[0].timestamp == now
                  && full.counters == c.counters[op.key := n]
                  && full.log == c.log + [small.log[0].(seqNo := n)])
  {
  }

  ghost predicate HoldsCache(s: State, c: Cache) {
    s.entries == c.entries && s.counters == c.counters && s.log == c.log
  }

  /** The state right after the map change, and the phase it leaves the thread in. */
  function Changed(s: State, op: Op): State {
    var c := Change(s, op, s.clock);
    s.(entries := c.entries, due := DueBy(s, c.log))
  }

  function PhaseAfter(s: State, op: Op): Phase {
    var c := Change(s, op, s.clock);
    if c.log == [] then Finished else Drafted(c.log[0])
  }

  lemma MutationMoves(s: State, op: Op, x: nat, hash: string -> nat)
    requires s.capacity > 0
    ensures Moves(Working(s, Held(op, s.clock, x, Fresh)), Mutate(0),
                  Working(Changed(s, op), Held(op, s.clock, x, PhaseAfter(s, op))), hash)
  {
    PutsInOrder(s, Held(op, s.clock, x, Fresh), Held(op, s.clock, x, PhaseAfter(s, op)));
  }

  lemma PutsInOrder(s: State, pc: PC, pc': PC)
    ensures s.threads[0 := pc][0 := pc'] == s.threads[0 := pc']
  {
  }

  lemma LeavingMoves(s: State, op: Op, at: int, x: nat, hash: string -> nat)
    requires Resting(s)
    ensures Moves(Working(s, Held(op, at, x, Finished)), Release(0), Working(s, Idle), hash) && Resting(Working(s, Idle))
  {
    var s' := Working(s, Idle);
    forall t: Tid ensures Pc(s', t) == Idle { assert Pc(s, t) == Idle; }
  }

  lemma Turn(states: seq<State>, actions: seq<Action>, hash: string -> nat, s: State, op: Op)
    returns (states': seq<State>, actions': seq<Action>, s': State)
    requires Ends(states, actions, hash, s) && Resting(s) && Accepted(op)
    ensures Ends(states', actions', hash, s') && Resting(s') && s'.clock == s.clock
    ensures HoldsCache(s', Step(Cache(s.entries, s.counters, s.log), op, s.clock, true).0)
  {
    var x := Stripe(hash(op.key), s.capacity);
    var (held, after) := (Held(op, s.clock, x, Fresh), Held(op, s.clock, x, PhaseAfter(s, op)));
    StepSplits(Cache(s.entries, s.counters, s.log), op, s.clock);
    states', actions' := Entering(states, actions, hash, s, op);
    MutationMoves(s, op, x, hash);
    Extend(states', actions', hash, Working(s, held), Mutate(0));
    states', actions' := states' + [Working(Changed(s, op), after)], actions' + [Mutate(0)];
    s' := Changed(s, op);
    if after.phase.Drafted? {
      states', actions' := Counting(states', actions', hash, s', after, after.phase.draft);
      var n := LastSeq(s.counters, op.key) + 1;
      s' := s'.(counters := s.counters[op.key := n], log := s.log + [after.phase.draft.(seqNo := n)]);
    }
    RestingOn(s, s');
    assert Ends(states', actions', hash, Working(s', Held(op, s.clock, x, Finished)));
    states', actions', s' := Leaving(states', actions', hash, s', op, s.clock, x);
  }

  lemma RestingOn(s: State, s': State)
    requires Resting(s) && s'.threads == s.threads && s'.shared == s.shared && s'.exclusive == s.exclusive
    requires s'.stripes == s.stripes && s'.capacity == s.capacity
    ensures Resting(s')
  {
    forall t: Tid ensures Pc(s', t) == Idle { assert Pc(s, t) == Idle; }
  }

  lemma Leaving(states: seq<State>, actions: seq<Action>, hash: string -> nat, s: State, op: Op, at: int, x: nat)
    returns (states': seq<State>, actions': seq<Action>, s': State)
    requires Resting(s) && Ends(states, actions, hash, Working(s, Held(op, at, x, Finished)))
    ensures Ends(states', actions', hash, s') && Resting(s') && s'.clock == s.clock
    ensures s'.entries == s.entries && s'.counters == s.counters && s'.log == s.log
  {
    LeavingMoves(s, op, at, x, hash);
    s' := Working(s, Idle);
    Extend(states, actions, hash, Working(s, Held(op, at, x, Finished)), Release(0));
    states', actions' := states + [s'], actions + [Release(0)];
  }

  lemma Idling(states: seq<State>, actions: seq<Action>, hash: string -> nat, s: State, now: int)
    returns (states': seq<State>, actions': seq<Action>)
    requires Ends(states, actions, hash, s) && Resting(s) && s.clock <= now
    ensures Ends(states', actions', hash, s.(clock := now)) && Resting(s.(clock := now))
  {
    var s' := s.(clock := now);
    assert Next(s, Tick(now - s.clock), hash) == s';
    forall t: Tid ensures Pc(s', t) == Idle { assert Pc(s, t) == Idle; }
    Extend(states, actions, hash, s, Tick(now - s.clock));
    states', actions' := states + [s'], actions + [Tick(now - s.clock)];
  }

  /**
   * Any commands at any times, served one after the other, are a behavior that ends with the entries, the
   * counters and the log of the run. (An EXPIRE without a positive TTL does not get as far as the map.)
   */
  lemma {:induction false} SerialRun(start: int, calls: seq<Call>, hash: string -> nat)
    returns (states: seq<State>, actions: seq<Action>, s: State)
    requires Timed(start, calls)
    requires forall c :: c in calls && c.op.Set? && c.op.ttl.Some? ==> c.op.ttl.value > 0
    ensures Ends(states, actions, hash, s) && Resting(s) && s.clock == Clock(start, calls)
    ensures HoldsCache(s, Run(EMPTY, calls, true))
  {
    if calls == [] {
      s := State(map[], {}, None, map[], 16, map[], map[], [], start, map[]);
      assert Pow2(4) == 16;
      states, actions := [s], [];
    } else {
      var n := |calls| - 1;
      var op := calls[n].op;
      Restart.TimedBefore(start, calls, n);
      states, actions, s := SerialRun(start, calls[..n], hash);
      states, actions := Idling(states, actions, hash, s, calls[n].now);
      s := s.(clock := calls[n].now);
      assert Run(EMPTY, calls[..n], true) == Cache(s.entries, s.counters, s.log);
      if Accepted(op) {
        states, actions, s := Turn(states, actions, hash, s, op);
      }
    }
  }

  /** A resting table can always grow, and only its capacity changes. */
  lemma GrowthIsPossible(states: seq<State>, actions: seq<Action>, hash: string -> nat, s: State)
    returns (states': seq<State>, actions': seq<Action>, s': State)
    requires Ends(states, actions, hash, s) && Resting(s)
    ensures Ends(states', actions', hash, s') && Resting(s') && s'.capacity == 2 * s.capacity
    ensures s'.entries == s.entries && s'.counters == s.counters && s'.log == s.log && s'.clock == s.clock
  {
    DoubleIsPow2(s.capacity);
    var s1 := s.(threads := s.threads[0 := Growing], exclusive := Some(0));
    s' := s.(threads := s.threads[0 := Idle], capacity := 2 * s.capacity);
    assert Moves(s, StartGrowing(0), s1, hash) && Moves(s1, Grow(0, 2 * s.capacity), s', hash);
    forall t: Tid ensures Pc(s', t) == Idle { assert Pc(s, t) == Idle; }
    Extend(states, actions, hash, s, StartGrowing(0));
    states', actions' := states + [s1], actions + [StartGrowing(0)];
    Extend(states', actions', hash, s1, Grow(0, 2 * s.capacity));
    states', actions' := states' + [s'], actions' + [Grow(0, 2 * s.capacity)];
  }
}
