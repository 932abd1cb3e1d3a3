/** Any number of threads serving commands under the striped locks, as a transition system over their steps. */
module StripedLog {
  import opened Common
  import opened BitMask
  import opened Events
  import opened Replay
  import opened CacheSpec
  import Sessions
  import Restart

  type Tid = nat

  /** What a thread has done since it took its stripe. */
  datatype Phase =
    | Fresh                               // nothing yet
    | Drafted(draft: Event)               // the map has changed; the event is not numbered yet
    | Pointed(draft: Event)               // has the address of the key's counter
    | Loaded(draft: Event, n: nat)        // has read the counter, to increment it
    | Numbered(draft: Event, n: nat)      // has written the counter back
    | Stamped(draft: Event, event: Event) // the event is complete, and not produced yet
    | Finished

  datatype PC =
    | Idle
    | Waiting(op: Op, at: int)            // a SET has built its entry at this instant
    | Entered(op: Op, at: int)            // holds the resize lock, shared
    | Aimed(op: Op, at: int, stripe: nat) // has computed its stripe
    | Held(op: Op, at: int, stripe: nat, phase: Phase)
    | Growing                             // holds the resize lock, exclusively

  datatype State = State(
    threads: map<Tid, PC>,
    shared: set<Tid>,
    exclusive: Option<Tid>,
    stripes: map<nat, Tid>,
    capacity: nat,
    entries: Entries,
    counters: map<string, nat>,
    log: seq<Event>,
    clock: int,
    due: map<string, int>)                // bookkeeping: the expiry instant that a key's last logged command stored

  datatype Action =
    | Begin(t: Tid, op: Op)
    | EnterShared(t: Tid)
    | Aim(t: Tid)
    | Lock(t: Tid)
    | Mutate(t: Tid)
    | GetPointer(t: Tid)
    | Load(t: Tid)
    | Store(t: Tid)
    | Stamp(t: Tid)
    | Produce(t: Tid)
    | Release(t: Tid)
    | StartGrowing(t: Tid)
    | Grow(t: Tid, newCapacity: nat)
    | Tick(elapsed: nat)

  function Pc(s: State, t: Tid): PC {
    if t in s.threads then s.threads[t] else Idle
  }

  ghost predicate Initial(s: State) {
    && s.threads == map[] && s.shared == {} && s.exclusive == None && s.stripes == map[]
    && s.capacity == 16 && s.entries == map[] && s.counters == map[] && s.log == [] && s.due == map[]
  }

  function PhaseOf(s: State, t: Tid): Phase {
    match Pc(s, t)
    case Held(_, _, _, phase) => phase
    case _ => Finished
  }

  /** A command gets past its argument checks only with a positive TTL. */
  predicate Accepted(op: Op) {
    && (op.Set? && op.ttl.Some? ==> op.ttl.value > 0)
    && (op.Expire? ==> op.newTtl > 0)
  }

  ghost predicate Enabled(s: State, a: Action) {
    match a
    case Begin(t, op) => Pc(s, t).Idle? && Accepted(op)
    case EnterShared(t) => Pc(s, t).Waiting? && s.exclusive.None?
    case Aim(t) => Pc(s, t).Entered?
    case Lock(t) => Pc(s, t).Aimed? && Pc(s, t).stripe !in s.stripes
    case Mutate(t) => Pc(s, t).Held? && PhaseOf(s, t).Fresh?
    case GetPointer(t) => Pc(s, t).Held? && PhaseOf(s, t).Drafted?
    case Load(t) => Pc(s, t).Held? && PhaseOf(s, t).Pointed?
    case Store(t) => Pc(s, t).Held? && PhaseOf(s, t).Loaded?
    case Stamp(t) => Pc(s, t).Held? && PhaseOf(s, t).Numbered?
    case Produce(t) => Pc(s, t).Held? && PhaseOf(s, t).Stamped?
    case Release(t) => Pc(s, t).Held? && PhaseOf(s, t).Finished?
    case StartGrowing(t) => Pc(s, t).Idle? && s.exclusive.None? && s.shared == {}
    case Grow(t, newCapacity) => Pc(s, t).Growing? && newCapacity > s.capacity && IsPow2(newCapacity)
    case Tick(_) => true
  }

  /** The map change of one command: a SET stores the entry it built earlier, the others read the clock now. */
  function Change(s: State, op: Op, at: int): Cache {
    Step(Cache(s.entries, map[], []), op, if op.Set? then at else s.clock, true).0
  }

  /** An expired entry is swept by every command but SET and DEL. */
  predicate Sweeps(s: State, op: Op) {
    !op.Set? && !op.Del? && op.key in s.entries && s.entries[op.key].IsExpired(s.clock)
  }

  /** The expiry instant that a command's map change stored, if it is logged and stored one. */
  function DueBy(s: State, drafts: seq<Event>): map<string, int> {
    if drafts != [] && drafts[0].Expires() then s.due[drafts[0].key := drafts[0].timestamp + drafts[0].ttlMs] else s.due
  }

  function Put(s: State, t: Tid, pc: PC): State {
    s.(threads := s.threads[t := pc])
  }

  function Next(s: State, a: Action, hash: string -> nat): State
    requires Enabled(s, a) && s.capacity > 0
  {
    match a
    case Begin(t, op) => Put(s, t, Waiting(op, s.clock))
    case EnterShared(t) =>
      var pc := Pc(s, t);
      Put(s, t, Entered(pc.op, pc.at)).(shared := s.shared + {t})
    case Aim(t) =>
      var pc := Pc(s, t);
      Put(s, t, Aimed(pc.op, pc.at, Stripe(hash(pc.op.key), s.capacity)))
    case Lock(t) =>
      var pc := Pc(s, t);
      Put(s, t, Held(pc.op, pc.at, pc.stripe, Fresh)).(stripes := s.stripes[pc.stripe := t])
    case Mutate(t) =>
      var pc := Pc(s, t);
      var c := Change(s, pc.op, pc.at);
      var phase := if c.log == [] then Finished else Drafted(c.log[0]);
      Put(s, t, pc.(phase := phase)).(
        entries := c.entries,
        due := DueBy(s, c.log))
    case GetPointer(t) =>
      var pc := Pc(s, t);
      var k := pc.op.key;
      Put(s, t, pc.(phase := Pointed(pc.phase.draft))).(
        counters := if k in s.counters then s.counters else s.counters[k := 0])
    case Load(t) =>
      var pc := Pc(s, t);
      Put(s, t, pc.(phase := Loaded(pc.phase.draft, LastSeq(s.counters, pc.op.key))))
    case Store(t) =>
      var pc := Pc(s, t);
      var n := pc.phase.n + 1;
      Put(s, t, pc.(phase := Numbered(pc.phase.draft, n))).(counters := s.counters[pc.op.key := n])
    case Stamp(t) =>
      var pc := Pc(s, t);
      var d := pc.phase.draft;
      Put(s, t, pc.(phase := Stamped(d, d.(seqNo := pc.phase.n, timestamp := s.clock))))
    case Produce(t) =>
      var pc := Pc(s, t);
      Put(s, t, pc.(phase := Finished)).(log := s.log + [pc.phase.event])
    case Release(t) =>
      var pc := Pc(s, t);
      Put(s, t, Idle).(stripes := s.stripes - {pc.stripe}, shared := s.shared - {t})
    case StartGrowing(t) => Put(s, t, Growing).(exclusive := Some(t))
    case Grow(t, newCapacity) => Put(s, t, Idle).(exclusive := None, capacity := newCapacity)
    case Tick(elapsed) => s.(clock := s.clock + elapsed)
  }

  // ---------- Locks ----------

  /** The locks are held by exactly the threads whose steps say so. */
  ghost predicate LocksSound(s: State) {
    && (forall t: Tid :: t in s.shared <==> Pc(s, t).Entered? || Pc(s, t).Aimed? || Pc(s, t).Held?)
    && (forall t: Tid :: s.exclusive == Some(t) <==> Pc(s, t).Growing?)
    && (s.exclusive.Some? ==> s.shared == {})
    && (forall t: Tid :: Pc(s, t).Held? ==> Pc(s, t).stripe in s.stripes && s.stripes[Pc(s, t).stripe] == t)
    && (forall x: nat :: x in s.stripes ==> Pc(s, s.stripes[x]).Held? && Pc(s, s.stripes[x]).stripe == x)
  }

  /** The stripe a thread aims at or holds is still the stripe of its key. */
  ghost predicate StripesSound(s: State, hash: string -> nat) {
    && IsPow2(s.capacity) && s.capacity >= 16
    && (forall t: Tid :: Pc(s, t).Aimed? || Pc(s, t).Held? ==>
          Pc(s, t).stripe == Stripe(hash(Pc(s, t).op.key), s.capacity) == hash(Pc(s, t).op.key) % 16)
  }

  /** Steps taken inside a stripe: they move one thread to its next phase and touch no lock. */
  predicate InsideStripe(a: Action) {
    a.Mutate? || a.GetPointer? || a.Load? || a.Store? || a.Stamp? || a.Produce?
  }

  lemma NextLocks(s: State, a: Action, hash: string -> nat)
    requires LocksSound(s) && StripesSound(s, hash) && Enabled(s, a)
    ensures LocksSound(Next(s, a, hash)) && StripesSound(Next(s, a, hash), hash)
  {
    if InsideStripe(a) {
      SameLocks(s, Next(s, a, hash), a.t, hash);
    } else if a.Lock? || a.Release? {
      StripeChangesHands(s, a, hash);
    } else {
      ResizeLockChanges(s, a, hash);
    }
  }

  lemma SameLocks(s: State, s': State, t: Tid, hash: string -> nat)
    requires LocksSound(s) && StripesSound(s, hash) && Pc(s, t).Held?
    requires Pc(s', t).Held? && Pc(s', t).op == Pc(s, t).op && Pc(s', t).stripe == Pc(s, t).stripe
    requires s'.threads == s.threads[t := Pc(s', t)]
    requires s'.shared == s.shared && s'.exclusive == s.exclusive && s'.stripes == s.stripes && s'.capacity == s.capacity
    ensures LocksSound(s') && StripesSound(s', hash)
  {
  }

  lemma StripeChangesHands(s: State, a: Action, hash: string -> nat)
    requires LocksSound(s) && StripesSound(s, hash) && Enabled(s, a) && (a.Lock? || a.Release?)
    ensures LocksSound(Next(s, a, hash)) && StripesSound(Next(s, a, hash), hash)
  {
  }

  lemma ResizeLockChanges(s: State, a: Action, hash: string -> nat)
    requires LocksSound(s) && StripesSound(s, hash) && Enabled(s, a)
    requires a.Begin? || a.EnterShared? || a.Aim? || a.StartGrowing? || a.Grow? || a.Tick?
    ensures LocksSound(Next(s, a, hash)) && StripesSound(Next(s, a, hash), hash)
  {
    if a.Aim? {
      StripeIsHashMod16(hash(Pc(s, a.t).op.key), s.capacity);
    }
  }

  /** Holding the resize lock, shared. */
  predicate InsideMap(pc: PC) {
    pc.Entered? || pc.Aimed? || pc.Held?
  }

  /** While any thread is inside the map, its capacity, and so the bucket of its key, cannot change. */
  lemma BucketStaysCorrect(s: State, a: Action, hash: string -> nat, t: Tid)
    requires LocksSound(s) && Enabled(s, a) && s.capacity > 0 && InsideMap(Pc(s, t))
    ensures BucketIndex(hash(Pc(s, t).op.key), Next(s, a, hash).capacity) == BucketIndex(hash(Pc(s, t).op.key), s.capacity)
    ensures InsideMap(Pc(Next(s, a, hash), t)) ==> Pc(Next(s, a, hash), t).op == Pc(s, t).op
  {
    assert t in s.shared;
  }

  // ---------- Entries, counters and log ----------

  /** The number of a key's last event, 0 if there is none. */
  function LastNo(log: seq<Event>, k: string): nat {
    match LastFor(log, k)
    case None => 0
    case Some(e) => e.seqNo
  }

  /**
   * What a key's last event says of its stored entry: the same value and the same TTL presence, with
   * the expiry instant that the event's command stored, which is no later than the logged one. The
   * entry is absent after a DELETE, once that instant has passed, or when nothing was ever logged.
   */
  ghost predicate EntryMatches(s: State, k: string) {
    match LastFor(s.log, k)
    case None => k !in s.entries
    case Some(e) =>
      && (e.Expires() ==> k in s.due && s.due[k] <= e.timestamp + e.ttlMs)
      && (if k in s.entries then !e.kind.DELETE? && s.entries[k] == Entry(e.value, if e.Expires() then Some(s.due[k]) else None)
          else e.kind.DELETE? || (e.Expires() && s.due[k] < s.clock))
  }

  /** The phase of the thread that holds k's stripe for k; `Finished` if there is none. */
  function KeyPhase(s: State, k: string, hash: string -> nat): Phase
    requires s.capacity > 0
  {
    var x := Stripe(hash(k), s.capacity);
    if x in s.stripes && Pc(s, s.stripes[x]).Held? && Pc(s, s.stripes[x]).op.key == k
    then Pc(s, s.stripes[x]).phase else Finished
  }

  ghost predicate DraftMatches(s: State, k: string, d: Event) {
    && d.key == k && d.timestamp <= s.clock && Lookup(s.entries, k) == d.Meaning()
    && (d.Expires() ==> k in s.due && s.due[k] == d.timestamp + d.ttlMs)
  }

  /** How far the entry, the counter and the log of a key have got, phase by phase. */
  ghost predicate KeySound(s: State, k: string, phase: Phase) {
    match phase
    case Fresh => EntryMatches(s, k) && LastSeq(s.counters, k) == LastNo(s.log, k)
    case Finished => EntryMatches(s, k) && LastSeq(s.counters, k) == LastNo(s.log, k)
    case Drafted(d) => DraftMatches(s, k, d) && LastSeq(s.counters, k) == LastNo(s.log, k)
    case Pointed(d) => DraftMatches(s, k, d) && k in s.counters && s.counters[k] == LastNo(s.log, k)
    case Loaded(d, n) => DraftMatches(s, k, d) && k in s.counters && s.counters[k] == n == LastNo(s.log, k)
    case Numbered(d, n) => DraftMatches(s, k, d) && k in s.counters && s.counters[k] == n == LastNo(s.log, k) + 1
    case Stamped(d, e) =>
      && DraftMatches(s, k, d) && k in s.counters && s.counters[k] == e.seqNo == LastNo(s.log, k) + 1
      && e == d.(seqNo := e.seqNo, timestamp := e.timestamp) && d.timestamp <= e.timestamp
  }

  /** Only a positive TTL gets into a command, and a SET's entry was built in the past. */
  ghost predicate CommandsSound(s: State) {
    forall t: Tid :: !Pc(s, t).Idle? && !Pc(s, t).Growing? ==> Accepted(Pc(s, t).op) && Pc(s, t).at <= s.clock
  }

  ghost predicate LogSound(log: seq<Event>) {
    Sessions.Increasing(log) && forall e :: e in log ==> 1 <= e.seqNo <= LastNo(log, e.key)
  }

  ghost predicate Sound(s: State, hash: string -> nat) {
    && LocksSound(s) && StripesSound(s, hash) && CommandsSound(s) && LogSound(s.log)
    && forall k :: KeySound(s, k, KeyPhase(s, k, hash))
  }

  lemma LogGrows(log: seq<Event>, e: Event)
    requires LogSound(log) && e.seqNo == LastNo(log, e.key) + 1
    ensures LogSound(log + [e])
  {
    forall f | f in log + [e] ensures 1 <= f.seqNo <= LastNo(log + [e], f.key) {
      LastForOfSum(log, e, f.key);
    }
    forall i | 0 <= i < |log| && log[i].key == e.key ensures 1 <= log[i].seqNo < e.seqNo {
      assert log[i] in log;
    }
  }

  /** A change to the map leaves other keys alone, and its draft, if any, means the entry it left. */
  lemma ChangeIsLocal(s: State, op: Op, at: int)
    requires Accepted(op) && at <= s.clock
    ensures var c := Change(s, op, at);
            && (forall k :: k != op.key ==> Lookup(c.entries, k) == Lookup(s.entries, k))
            && |c.log| <= 1
            && (c.log != [] ==> var d := c.log[0];
                d.key == op.key && d.timestamp <= s.clock && Lookup(c.entries, op.key) == d.Meaning())
            && (c.log == [] ==> if Sweeps(s, op) then op.key !in c.entries
                                else Lookup(c.entries, op.key) == Lookup(s.entries, op.key))
  {
  }

  /** The key whose entry changed, right after the change. */
  lemma ChangedKey(s: State, s': State, op: Op, at: int)
    requires Accepted(op) && at <= s.clock && KeySound(s, op.key, Fresh)
    requires s'.entries == Change(s, op, at).entries && s'.counters == s.counters && s'.log == s.log && s'.clock == s.clock
    requires s'.due == DueBy(s, Change(s, op, at).log)
    ensures var log := Change(s, op, at).log; KeySound(s', op.key, if log == [] then Finished else Drafted(log[0]))
  {
    ChangeIsLocal(s, op, at);
    assert Lookup(s'.entries, op.key).Some? <==> op.key in s'.entries;
    assert Lookup(s.entries, op.key).Some? <==> op.key in s.entries;
  }

  /** A key none of whose data changed. */
  lemma {:induction false} UnchangedKey(s: State, s': State, k: string, p: Phase)
    requires KeySound(s, k, p) && s'.clock == s.clock
    requires Lookup(s'.entries, k) == Lookup(s.entries, k) && Lookup(s'.counters, k) == Lookup(s.counters, k)
    requires LastFor(s'.log, k) == LastFor(s.log, k)
    requires Lookup(s'.due, k) == Lookup(s.due, k)
    ensures KeySound(s', k, p)
  {
    assert Lookup(s'.entries, k).Some? <==> k in s'.entries;
    assert Lookup(s.entries, k).Some? <==> k in s.entries;
    assert Lookup(s'.counters, k).Some? <==> k in s'.counters;
    assert (Lookup(s'.due, k).Some? <==> k in s'.due) && (Lookup(s.due, k).Some? <==> k in s.due);
  }

  lemma MutateSound(s: State, a: Action, hash: string -> nat, k: string)
    requires LocksSound(s) && StripesSound(s, hash) && CommandsSound(s) && Enabled(s, a) && a.Mutate?
    requires KeySound(s, k, KeyPhase(s, k, hash))
    ensures KeySound(Next(s, a, hash), k, KeyPhase(Next(s, a, hash), k, hash))
  {
    var pc := Pc(s, a.t);
    OtherPhases(s, a, hash, k);
    if k == pc.op.key {
      ChangedKey(s, Next(s, a, hash), pc.op, pc.at);
    } else {
      ChangeIsLocal(s, pc.op, pc.at);
      UnchangedKey(s, Next(s, a, hash), k, KeyPhase(s, k, hash));
    }
  }

  /** A step inside a stripe changes the phase of the stepping thread's own key, and of no other. */
  lemma OtherPhases(s: State, a: Action, hash: string -> nat, k: string)
    requires LocksSound(s) && StripesSound(s, hash) && Enabled(s, a)
    requires InsideStripe(a)
    ensures KeyPhase(s, Pc(s, a.t).op.key, hash) == PhaseOf(s, a.t)
    ensures KeyPhase(Next(s, a, hash), k, hash) ==
            if k == Pc(s, a.t).op.key then PhaseOf(Next(s, a, hash), a.t) else KeyPhase(s, k, hash)
  {
  }

  lemma CountingSound(s: State, a: Action, hash: string -> nat, k: string)
    requires LocksSound(s) && StripesSound(s, hash) && Enabled(s, a)
    requires a.GetPointer? || a.Load? || a.Store? || a.Stamp?
    requires KeySound(s, k, KeyPhase(s, k, hash))
    ensures KeySound(Next(s, a, hash), k, KeyPhase(Next(s, a, hash), k, hash))
  {
    OtherPhases(s, a, hash, k);
    if k != Pc(s, a.t).op.key {
      UnchangedKey(s, Next(s, a, hash), k, KeyPhase(s, k, hash));
    }
  }

  lemma ProduceSound(s: State, a: Action, hash: string -> nat, k: string)
    requires LocksSound(s) && StripesSound(s, hash) && Enabled(s, a) && a.Produce?
    requires KeySound(s, k, KeyPhase(s, k, hash))
    requires KeySound(s, Pc(s, a.t).op.key, KeyPhase(s, Pc(s, a.t).op.key, hash))
    ensures KeySound(Next(s, a, hash), k, KeyPhase(Next(s, a, hash), k, hash))
  {
    OtherPhases(s, a, hash, k);
    LastForOfSum(s.log, Pc(s, a.t).phase.event, k);
    if k != Pc(s, a.t).op.key {
      UnchangedKey(s, Next(s, a, hash), k, KeyPhase(s, k, hash));
    } else {
      assert Lookup(s.entries, k).Some? <==> k in s.entries;
    }
  }

  predicate AtRest(p: Phase) {
    p.Fresh? || p.Finished?
  }

  /** Taking or releasing locks starts or ends a turn at rest, and changes no other key's phase. */
  lemma LockStepPhases(s: State, a: Action, hash: string -> nat, k: string)
    requires LocksSound(s) && StripesSound(s, hash) && Enabled(s, a) && !InsideStripe(a)
    ensures var p, p' := KeyPhase(s, k, hash), KeyPhase(Next(s, a, hash), k, hash); p == p' || (AtRest(p) && AtRest(p'))
  {
    NextLocks(s, a, hash);
    StripeIsHashMod16(hash(k), s.capacity);
    StripeIsHashMod16(hash(k), Next(s, a, hash).capacity);
  }

  /** Time alone spoils nothing. */
  lemma SameData(s: State, s': State, k: string, p: Phase, p': Phase)
    requires KeySound(s, k, p) && (p == p' || (AtRest(p) && AtRest(p')))
    requires s'.entries == s.entries && s'.counters == s.counters && s'.log == s.log && s'.due == s.due
    requires s.clock <= s'.clock
    ensures KeySound(s', k, p')
  {
  }

  lemma NextCommands(s: State, a: Action, hash: string -> nat)
    requires CommandsSound(s) && Enabled(s, a) && s.capacity > 0
    ensures CommandsSound(Next(s, a, hash))
  {
    var s' := Next(s, a, hash);
    forall t: Tid | !Pc(s', t).Idle? && !Pc(s', t).Growing? ensures Accepted(Pc(s', t).op) && Pc(s', t).at <= s'.clock {
      assert !Pc(s, t).Idle? && !Pc(s, t).Growing? ==> Accepted(Pc(s, t).op);
    }
  }

  lemma NextKey(s: State, a: Action, hash: string -> nat, k: string)
    requires Sound(s, hash) && Enabled(s, a)
    ensures KeySound(Next(s, a, hash), k, KeyPhase(Next(s, a, hash), k, hash))
  {
    assert KeySound(s, k, KeyPhase(s, k, hash));
    if a.Mutate? {
      MutateSound(s, a, hash, k);
    } else if a.Produce? {
      assert KeySound(s, Pc(s, a.t).op.key, KeyPhase(s, Pc(s, a.t).op.key, hash));
      ProduceSound(s, a, hash, k);
    } else if InsideStripe(a) {
      CountingSound(s, a, hash, k);
    } else {
      NextLocks(s, a, hash);
      LockStepPhases(s, a, hash, k);
      SameData(s, Next(s, a, hash), k, KeyPhase(s, k, hash), KeyPhase(Next(s, a, hash), k, hash));
    }
  }

  lemma NextLog(s: State, a: Action, hash: string -> nat)
    requires Sound(s, hash) && Enabled(s, a)
    ensures LogSound(Next(s, a, hash).log)
  {
    if a.Produce? {
      var k := Pc(s, a.t).op.key;
      assert KeySound(s, k, KeyPhase(s, k, hash));
      OtherPhases(s, a, hash, k);
      LogGrows(s.log, Pc(s, a.t).phase.event);
    }
  }

  lemma NextSound(s: State, a: Action, hash: string -> nat)
    requires Sound(s, hash) && Enabled(s, a)
    ensures Sound(Next(s, a, hash), hash)
  {
    NextLocks(s, a, hash);
    NextCommands(s, a, hash);
    NextLog(s, a, hash);
    forall k ensures KeySound(Next(s, a, hash), k, KeyPhase(Next(s, a, hash), k, hash)) {
      NextKey(s, a, hash, k);
    }
  }

  // ---------- Every interleaving ----------

  ghost predicate Follows(states: seq<State>, actions: seq<Action>, hash: string -> nat, i: nat)
    requires |states| == |actions| + 1 && i < |actions|
  {
    && states[i].capacity > 0 && Enabled(states[i], actions[i])
    && states[i + 1] == Next(states[i], actions[i], hash)
  }

  /** The states of one interleaving: each follows from the one before by some enabled step of some thread. */
  ghost predicate Behavior(states: seq<State>, actions: seq<Action>, hash: string -> nat) {
    && |states| == |actions| + 1 && Initial(states[0])
    && forall i :: 0 <= i < |actions| ==> Follows(states, actions, hash, i)
  }

  lemma {:induction false} BehaviorIsSound(states: seq<State>, actions: seq<Action>, hash: string -> nat, i: nat)
    requires Behavior(states, actions, hash) && i < |states|
    ensures Sound(states[i], hash)
  {
    if i == 0 {
      assert Pow2(4) == 16;
    } else {
      BehaviorIsSound(states, actions, hash, i - 1);
      assert Follows(states, actions, hash, i - 1);
      NextSound(states[i - 1], actions[i - 1], hash);
    }
  }

  /**
   * In every interleaving, each key's events are produced in strictly increasing order of number.
   * Whenever no thread holds a key's stripe, its stored entry is what its last logged event says,
   * and its counter is that event's number.
   */
  lemma LogAgreesWithCache(states: seq<State>, actions: seq<Action>, hash: string -> nat, i: nat, k: string)
    requires Behavior(states, actions, hash) && i < |states|
    ensures Sessions.Increasing(states[i].log)
    ensures hash(k) % 16 !in states[i].stripes ==>
              EntryMatches(states[i], k) && LastSeq(states[i].counters, k) == LastNo(states[i].log, k)
  {
    BehaviorIsSound(states, actions, hash, i);
    assert KeySound(states[i], k, KeyPhase(states[i], k, hash));
    StripeIsHashMod16(hash(k), states[i].capacity);
  }

  /** The bucket of the key that a thread inside the map works on. */
  function BucketOf(s: State, t: Tid, hash: string -> nat): nat {
    if InsideMap(Pc(s, t)) && s.capacity > 0 then BucketIndex(hash(Pc(s, t).op.key), s.capacity) else 0
  }

  lemma StepKeepsBucket(states: seq<State>, actions: seq<Action>, hash: string -> nat, t: Tid, m: nat)
    requires Behavior(states, actions, hash) && m < |actions|
    requires InsideMap(Pc(states[m], t)) && InsideMap(Pc(states[m + 1], t))
    ensures BucketOf(states[m + 1], t, hash) == BucketOf(states[m], t, hash)
  {
    BehaviorIsSound(states, actions, hash, m);
    BehaviorIsSound(states, actions, hash, m + 1);
    assert Follows(states, actions, hash, m);
    BucketStaysCorrect(states[m], actions[m], hash, t);
  }

  /**
   * The bucket a thread computed on its way in is the bucket of its key until it releases its locks,
   * whatever all other threads do in between.
   */
  lemma {:induction false} BucketHoldsUntilRelease(
      states: seq<State>, actions: seq<Action>, hash: string -> nat, t: Tid, i: nat, j: nat)
    requires Behavior(states, actions, hash) && i <= j < |states|
    requires forall m :: i <= m <= j ==> InsideMap(Pc(states[m], t))
    ensures BucketOf(states[j], t, hash) == BucketOf(states[i], t, hash)
  {
    if i < j {
      BucketHoldsUntilRelease(states, actions, hash, t, i, j - 1);
      StepKeepsBucket(states, actions, hash, t, j - 1);
    }
  }

  /**
   * In every interleaving, two threads that hold stripes for the same key, or for two keys whose
   * hashes agree modulo 16, are one thread, although they may have computed their stripes from
   * different capacities at different times.
   */
  lemma MutualExclusion(states: seq<State>, actions: seq<Action>, hash: string -> nat, i: nat, t: Tid, u: Tid)
    requires Behavior(states, actions, hash) && i < |states|
    requires Pc(states[i], t).Held? && Pc(states[i], u).Held?
    requires hash(Pc(states[i], t).op.key) % 16 == hash(Pc(states[i], u).op.key) % 16
    ensures t == u
  {
    BehaviorIsSound(states, actions, hash, i);
  }

  // ---------- A restart from the log of a concurrent run ----------

  /**
   * What a restart at `now` makes of a key that no thread was working on. What was still visible is
   * back with the same value, and expires no earlier; only at the instant when both stored and logged
   * expiry end may it be gone. What was no longer visible is back only between the two.
   */
  ghost predicate Regained(live: Entries, replayed: Entries, k: string, due: int, logged: int, t: int) {
    match (Visible(live, k, t), Visible(replayed, k, t))
    case (None, None) => true
    case (Some(a), Some(b)) =>
      && b.value == a.value
      && (if a.expiresAt == None then b.expiresAt == None
          else a.expiresAt == Some(due) && b.expiresAt == Some(logged) && due <= logged)
    case (Some(a), None) => a.expiresAt == Some(t) && t == due == logged
    case (None, Some(b)) => b.expiresAt == Some(logged) && due < t <= logged
  }

  /** The same at every later instant, and when exactly the key is visible after the restart. */
  ghost predicate RegainedAll(s: State, replayed: Entries, k: string, now: int) {
    forall t :: t >= now ==>
      match LastFor(s.log, k)
      case None => Visible(s.entries, k, t).None? && Visible(replayed, k, t).None?
      case Some(e) =>
        var logged := e.timestamp + e.ttlMs;
        && Regained(s.entries, replayed, k, if k in s.due then s.due[k] else 0, logged, t)
        && (Visible(replayed, k, t).Some? <==> !e.kind.DELETE? && (e.Expires() ==> now < logged && t <= logged))
  }

  lemma {:induction false} RegainedEntry(s: State, replayed: Entries, k: string, now: int)
    requires EntryMatches(s, k) && s.clock <= now
    requires var last := LastFor(s.log, k);
             Lookup(replayed, k) == if last.None? || last.value.Stale(now) then None else last.value.Meaning()
    ensures RegainedAll(s, replayed, k, now)
  {
    assert Lookup(replayed, k).Some? <==> k in replayed;
    assert k in replayed ==> Lookup(replayed, k) == Some(replayed[k]);
    if LastFor(s.log, k).Some? {
      var e := LastFor(s.log, k).value;
      var logged := e.timestamp + e.ttlMs;
      var due := if k in s.due then s.due[k] else 0;
      forall t | t >= now
        ensures Regained(s.entries, replayed, k, due, logged, t)
        ensures Visible(replayed, k, t).Some? <==> !e.kind.DELETE? && (e.Expires() ==> now < logged && t <= logged)
      {
        if e.Expires() {
          assert k in replayed ==> replayed[k] == Entry(e.value, Some(logged));
        }
      }
    }
  }

  /**
   * The stored and the logged expiry do not part at `now`: there are none, or they are the same and
   * still to come, or both have passed.
   */
  predicate Kept(s: State, k: string, now: int) {
    match LastFor(s.log, k)
    case None => true
    case Some(e) =>
      var logged := e.timestamp + e.ttlMs;
      !e.Expires() || (k in s.due && if now < logged then s.due[k] == logged else s.due[k] != now)
  }

  lemma {:induction false} KeptView(s: State, topic: seq<Event>, k: string, now: int)
    requires EntryMatches(s, k) && LogSound(s.log) && s.clock <= now && Restart.Carries(topic, s.log, k)
    ensures Restart.SameView(ReplayLog(topic, now).entries, s.entries, k, now) <==> !ComesBack(topic, k, now) && Kept(s, k, now)
  {
    var replayed := ReplayLog(topic, now).entries;
    Restart.ReplayGives(s.log, topic, k, now);
    Restart.ReplayedIsFresh(topic, k, now);
    assert Lookup(replayed, k).Some? <==> k in replayed;
    KeptEntry(s, replayed, ComesBack(topic, k, now), k, now);
  }

  lemma {:induction false} KeptEntry(s: State, replayed: Entries, comesBack: bool, k: string, now: int)
    requires EntryMatches(s, k) && s.clock <= now
    requires k in replayed && replayed[k].expiresAt.Some? ==> now < replayed[k].expiresAt.value
    requires match LastFor(s.log, k)
             case None => k !in replayed && !comesBack
             case Some(e) =>
               if e.Stale(now) then k !in replayed <==> !comesBack
               else Lookup(replayed, k) == e.Meaning() && !comesBack
    ensures Restart.SameView(replayed, s.entries, k, now) <==> !comesBack && Kept(s, k, now)
  {
    assert Lookup(replayed, k).Some? <==> k in replayed;
    if LastFor(s.log, k).Some? && LastFor(s.log, k).value.Expires() {
      var e := LastFor(s.log, k).value;
      var logged := e.timestamp + e.ttlMs;
      assert Visible(replayed, k, now) == Visible(s.entries, k, now) || !Restart.SameView(replayed, s.entries, k, now);
      if now < logged {
        assert replayed[k] == Entry(e.value, Some(logged));
        assert Visible(replayed, k, logged) == Visible(s.entries, k, logged) || !Restart.SameView(replayed, s.entries, k, now);
      }
    }
  }

  /**
   * After any interleaving, replay of any delivery of its log shows a key at rest as the cache that
   * kept running does, if and only if no older event comes back and the two expiry instants agree.
   * If no older event comes back, what else there is to see is as `Regained` says.
   */
  lemma ConcurrentRestart(
      states: seq<State>, actions: seq<Action>, hash: string -> nat, i: nat, k: string, topic: seq<Event>, now: int)
    requires Behavior(states, actions, hash) && i < |states| && hash(k) % 16 !in states[i].stripes
    requires Restart.Carries(topic, states[i].log, k) && states[i].clock <= now
    ensures Restart.SameView(ReplayLog(topic, now).entries, states[i].entries, k, now) <==>
            !ComesBack(topic, k, now) && Kept(states[i], k, now)
    ensures !ComesBack(topic, k, now) ==> RegainedAll(states[i], ReplayLog(topic, now).entries, k, now)
  {
    BehaviorIsSound(states, actions, hash, i);
    LogAgreesWithCache(states, actions, hash, i, k);
    KeptView(states[i], topic, k, now);
    if !ComesBack(topic, k, now) {
      Restart.ReplayGives(states[i].log, topic, k, now);
      RegainedEntry(states[i], ReplayLog(topic, now).entries, k, now);
    }
  }

  // ---------- A command whose event is stamped late ----------

  /** The states of one thread that serves alone. */
  function Alone(pc: PC, stripes: map<nat, Tid>, entries: Entries, counters: map<string, nat>, log: seq<Event>, clock: int,
                 due: map<string, int>): State
  {
    State(map[0 := pc], if InsideMap(pc) then {0} else {}, None, stripes, 16, entries, counters, log, clock, due)
  }

  const START := State(map[], {}, None, map[], 16, map[], map[], [], 0, map[])

  /** SET with a TTL of 5, whose event is stamped 1 after its entry was built. */
  function LateAction(op: Op, i: nat): Action {
    match i
    case 0 => Begin(0, op)
    case 1 => EnterShared(0)
    case 2 => Aim(0)
    case 3 => Lock(0)
    case 4 => Mutate(0)
    case 5 => GetPointer(0)
    case 6 => Load(0)
    case 7 => Store(0)
    case 8 => Tick(1)
    case 9 => Stamp(0)
    case 10 => Produce(0)
    case _ => Release(0)
  }

  function LateState(k: string, v: string, x: nat, i: nat): State {
    var op := Set(k, v, Some(5));
    var (d, e) := (Event(SET, k, v, 5, 1, 0), Event(SET, k, v, 5, 1, 1));
    var (held, stored, due) := (map[x := 0], map[k := Entry(v, Some(5))], map[k := 5]);
    match i
    case 0 => START
    case 1 => Alone(Waiting(op, 0), map[], map[], map[], [], 0, map[])
    case 2 => Alone(Entered(op, 0), map[], map[], map[], [], 0, map[])
    case 3 => Alone(Aimed(op, 0, x), map[], map[], map[], [], 0, map[])
    case 4 => Alone(Held(op, 0, x, Fresh), held, map[], map[], [], 0, map[])
    case 5 => Alone(Held(op, 0, x, Drafted(d)), held, stored, map[], [], 0, due)
    case 6 => Alone(Held(op, 0, x, Pointed(d)), held, stored, map[k := 0], [], 0, due)
    case 7 => Alone(Held(op, 0, x, Loaded(d, 0)), held, stored, map[k := 0], [], 0, due)
    case 8 => Alone(Held(op, 0, x, Numbered(d, 1)), held, stored, map[k := 1], [], 0, due)
    case 9 => Alone(Held(op, 0, x, Numbered(d, 1)), held, stored, map[k := 1], [], 1, due)
    case 10 => Alone(Held(op, 0, x, Stamped(d, e)), held, stored, map[k := 1], [], 1, due)
    case 11 => Alone(Held(op, 0, x, Finished), held, stored, map[k := 1], [e], 1, due)
    case _ => Alone(Idle, map[], stored, map[k := 1], [e], 1, due)
  }

  ghost predicate LateStep(k: string, v: string, hash: string -> nat, i: nat) {
    var (s, a) := (LateState(k, v, Stripe(hash(k), 16), i), LateAction(Set(k, v, Some(5)), i));
    s.capacity > 0 && Enabled(s, a) && LateState(k, v, Stripe(hash(k), 16), i + 1) == Next(s, a, hash)
  }

  lemma LateEntering(k: string, v: string, hash: string -> nat, i: nat)
    requires 0 <= i < 4
    ensures LateStep(k, v, hash, i)
  {
    var x := Stripe(hash(k), 16);
    assert LateState(k, v, x, i + 1).threads == LateState(k, v, x, i).threads[0 := LateState(k, v, x, i + 1).threads[0]];
  }

  lemma LateCounting(k: string, v: string, hash: string -> nat, i: nat)
    requires 4 <= i < 8
    ensures LateStep(k, v, hash, i)
  {
    var x := Stripe(hash(k), 16);
    assert LateState(k, v, x, i + 1).threads == LateState(k, v, x, i).threads[0 := LateState(k, v, x, i + 1).threads[0]];
  }

  lemma LateStamping(k: string, v: string, hash: string -> nat, i: nat)
    requires 8 <= i < 10
    ensures LateStep(k, v, hash, i)
  {
    var x := Stripe(hash(k), 16);
    assert LateState(k, v, x, i + 1).threads == LateState(k, v, x, i).threads[0 := LateState(k, v, x, i + 1).threads[0]];
  }

  lemma LateLeaving(k: string, v: string, hash: string -> nat, i: nat)
    requires 10 <= i < 12
    ensures LateStep(k, v, hash, i)
  {
    var x := Stripe(hash(k), 16);
    assert LateState(k, v, x, i + 1).threads == LateState(k, v, x, i).threads[0 := LateState(k, v, x, i + 1).threads[0]];
  }

  /** A behavior after which the stored expiry is 5 and the logged one 6: at 5 the key is restored with a later expiry. */
  lemma {:induction false} LoggedExpiryIsLater(k: string, v: string, hash: string -> nat)
    ensures var states := seq(13, i requires i >= 0 => LateState(k, v, Stripe(hash(k), 16), i));
            && Behavior(states, seq(12, i requires i >= 0 => LateAction(Set(k, v, Some(5)), i)), hash)
            && !Kept(states[12], k, 5)
            && Lookup(states[12].entries, k) == Some(Entry(v, Some(5)))
            && Lookup(ReplayLog(states[12].log, 5).entries, k) == Some(Entry(v, Some(6)))
  {
    var states := seq(13, i requires i >= 0 => LateState(k, v, Stripe(hash(k), 16), i));
    var actions := seq(12, i requires i >= 0 => LateAction(Set(k, v, Some(5)), i));
    forall i | 0 <= i < |actions| ensures Follows(states, actions, hash, i) {
      if i < 4 { LateEntering(k, v, hash, i); }
      else if i < 8 { LateCounting(k, v, hash, i); }
      else if i < 10 { LateStamping(k, v, hash, i); }
      else { LateLeaving(k, v, hash, i); }
      assert LateStep(k, v, hash, i);
    }
    var e := Event(SET, k, v, 5, 1, 1);
    Restart.ReplayOfOne(e, 5);
    assert states[12].log == [e] && [e][..0] == [];
  }
}
