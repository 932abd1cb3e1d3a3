/** Sorted sets: an AVL tree of (member, score) values kept in step with a member-to-score map. */
module SortedSets {
  import opened Common
  import opened ValueOrder
  import AvlTree

  type Scores = map<string, real>

  /** The values a tree must hold to agree with the scores. */
  ghost function Values(scores: Scores): set<Value> {
    set m | m in scores :: Value(m, scores[m])
  }

  /** Setting a member's score replaces that member's one value. */
  lemma ValuesOfUpdate(scores: Scores, m: string, score: real)
    ensures m !in scores ==> Values(scores[m := score]) == Values(scores) + {Value(m, score)}
    ensures m in scores ==>
              Values(scores[m := score]) == Values(scores) - {Value(m, scores[m])} + {Value(m, score)}
  {
    var after := Values(scores[m := score]);
    forall v | v in Values(scores) && v.member != m ensures v in after {
      assert v.member in scores[m := score];
    }
    assert m in scores[m := score];
    assert Value(m, score) in after;
    forall v | v in after ensures v == Value(m, score) || (v in Values(scores) && v.member != m) {
    }
  }

  /** Removing a member removes its one value. */
  lemma ValuesOfRemoval(scores: Scores, m: string)
    requires m in scores
    ensures Values(scores - {m}) == Values(scores) - {Value(m, scores[m])}
  {
    forall v | v in Values(scores) && v.member != m ensures v in Values(scores - {m}) {
      assert v.member in scores - {m};
    }
  }

  // ---------- What a run of commands means ----------

  datatype Command =
    | ZAdd(key: string, score: real, member: string)
    | ZRem(key: string, member: string)

  /** All sets at once, as plain maps; an entry stays once its key was added to. */
  type Sets = map<string, Scores>

  function ScoresOf(sets: Sets, key: string): Scores {
    if key in sets then sets[key] else map[]
  }

  function Apply(sets: Sets, c: Command): Sets {
    match c
    case ZAdd(key, score, member) => sets[key := ScoresOf(sets, key)[member := score]]
    case ZRem(key, member) => if key in sets then sets[key := sets[key] - {member}] else sets
  }

  /** ZADD puts one score into one set, which it creates if need be; ZREM takes one member out of an existing set. */
  lemma CommandsByCase(sets: Sets, key: string, score: real, member: string)
    ensures Apply(sets, ZAdd(key, score, member)) == sets[key := (if key in sets then sets[key] else map[])[member := score]]
    ensures Reply(sets, ZAdd(key, score, member)) <==> !(key in sets && member in sets[key])
    ensures Apply(sets, ZRem(key, member)) == if key in sets then sets[key := sets[key] - {member}] else sets
    ensures Reply(sets, ZRem(key, member)) <==> key in sets && member in sets[key]
  {
  }

  lemma CreateThenAdd(sets: Sets, key: string, score: real, member: string)
    ensures var scores := if key in sets then sets[key] else map[];
            var created := sets[key := scores];
            && created[key := created[key][member := score]] == sets[key := scores[member := score]]
            && (member !in created[key] <==> !(key in sets && member in sets[key]))
  {
  }

  /** True for a new member on `ZADD`, and for a present member on `ZREM`. */
  function Reply(sets: Sets, c: Command): bool {
    match c
    case ZAdd(key, _, member) => member !in ScoresOf(sets, key)
    case ZRem(key, member) => member in ScoresOf(sets, key)
  }

  function ApplyAll(sets: Sets, cs: seq<Command>): Sets {
    if cs == [] then sets else Apply(ApplyAll(sets, cs[..|cs| - 1]), cs[|cs| - 1])
  }

  /** Each reply is the one due in the state its command finds. */
  ghost predicate Answers(start: Sets, commands: seq<Command>, replies: seq<bool>) {
    && |replies| <= |commands|
    && forall i :: 0 <= i < |replies| ==> replies[i] == Reply(ApplyAll(start, commands[..i]), commands[i])
  }

  // ---------- Laws of runs ----------

  predicate Concerns(c: Command, key: string, member: string) {
    c.key == key && c.member == member
  }

  ghost predicate Stored(sets: Sets, key: string, member: string, score: real) {
    key in sets && member in sets[key] && sets[key][member] == score
  }

  /** The last command that concerns the member is a ZADD with this score; or none does, and it had this score before. */
  ghost predicate Holds(start: Sets, cs: seq<Command>, key: string, member: string, score: real) {
    || (exists i :: 0 <= i < |cs| && cs[i] == ZAdd(key, score, member)
                    && forall j :: i < j < |cs| ==> !Concerns(cs[j], key, member))
    || (Stored(start, key, member, score) && forall j :: 0 <= j < |cs| ==> !Concerns(cs[j], key, member))
  }

  lemma {:induction false} LastCommandDecides(start: Sets, cs: seq<Command>, key: string, member: string, score: real)
    ensures Stored(ApplyAll(start, cs), key, member, score) <==> Holds(start, cs, key, member, score)
  {
    if cs != [] {
      var n := |cs| - 1;
      var head, c := cs[..n], cs[n];
      LastCommandDecides(start, head, key, member, score);
      if Concerns(c, key, member) {
        assert Holds(start, cs, key, member, score) <==> c == ZAdd(key, score, member);
      } else {
        HoldsOn(start, cs, key, member, score);
      }
    }
  }

  /** A command that does not concern the member changes nothing. */
  lemma HoldsOn(start: Sets, cs: seq<Command>, key: string, member: string, score: real)
    requires cs != [] && !Concerns(cs[|cs| - 1], key, member)
    ensures Holds(start, cs, key, member, score) <==> Holds(start, cs[..|cs| - 1], key, member, score)
  {
    var n := |cs| - 1;
    forall i | 0 <= i < n && cs[..n][i] == ZAdd(key, score, member)
               && forall j :: i < j < n ==> !Concerns(cs[..n][j], key, member)
      ensures Holds(start, cs, key, member, score)
    {
      assert forall j :: i < j < n ==> cs[j] == cs[..n][j];
    }
    forall i | 0 <= i < |cs| && cs[i] == ZAdd(key, score, member)
               && forall j :: i < j < |cs| ==> !Concerns(cs[j], key, member)
      ensures Holds(start, cs[..n], key, member, score)
    {
      assert cs[..n][i] == cs[i];
    }
    if Stored(start, key, member, score) && forall j :: 0 <= j < n ==> !Concerns(cs[..n][j], key, member) {
      assert forall j :: 0 <= j < n ==> cs[j] == cs[..n][j];
    }
  }

  ghost predicate Present(start: Sets, cs: seq<Command>, key: string, member: string) {
    exists score :: Holds(start, cs, key, member, score)
  }

  /** What the replies say: of a ZADD, that the member was absent; of a ZREM, that it was present. */
  ghost predicate Truthful(start: Sets, cs: seq<Command>, replies: seq<bool>) {
    && |replies| == |cs|
    && forall i :: 0 <= i < |cs| ==> (replies[i] <==> (cs[i].ZAdd? != Present(start, cs[..i], cs[i].key, cs[i].member)))
  }

  lemma AnswersAreTruthful(start: Sets, cs: seq<Command>, replies: seq<bool>)
    requires Answers(start, cs, replies) && |replies| == |cs|
    ensures Truthful(start, cs, replies)
  {
    forall i | 0 <= i < |cs| ensures replies[i] <==> (cs[i].ZAdd? != Present(start, cs[..i], cs[i].key, cs[i].member)) {
      PresenceDecides(start, cs[..i], cs[i].key, cs[i].member);
    }
  }

  lemma {:induction false} PresenceDecides(start: Sets, cs: seq<Command>, key: string, member: string)
    ensures var sets := ApplyAll(start, cs);
            key in sets && member in sets[key] <==> Present(start, cs, key, member)
  {
    var sets := ApplyAll(start, cs);
    if key in sets && member in sets[key] {
      LastCommandDecides(start, cs, key, member, sets[key][member]);
    }
    forall score | Holds(start, cs, key, member, score) ensures key in sets && member in sets[key] {
      LastCommandDecides(start, cs, key, member, score);
    }
  }

  lemma {:induction false} AnswersOneMore(start: Sets, commands: seq<Command>, replies: seq<bool>, reply: bool)
    requires Answers(start, commands, replies) && |replies| < |commands|
    requires reply == Reply(ApplyAll(start, commands[..|replies|]), commands[|replies|])
    ensures Answers(start, commands, replies + [reply])
  {
  }

  lemma {:induction false} ApplyOneMore(sets: Sets, cs: seq<Command>, n: nat)
    requires n < |cs|
    ensures ApplyAll(sets, cs[..n + 1]) == Apply(ApplyAll(sets, cs[..n]), cs[n])
  {
    assert cs[..n + 1][..n] == cs[..n];
  }

  /** The members that come before `member` in the order of (score, member). */
  ghost function MembersBefore(scores: Scores, member: string): set<string>
    requires member in scores
  {
    set m | m in scores && Less(Value(m, scores[m]), Value(member, scores[member]))
  }

  lemma RankCountsMembers(scores: Scores, member: string)
    requires member in scores
    ensures |set x | x in Values(scores) && Less(x, Value(member, scores[member]))| == |MembersBefore(scores, member)|
  {
    var v := Value(member, scores[member]);
    var before := set x | x in Values(scores) && Less(x, v);
    assert before == set m | m in MembersBefore(scores, member) :: Value(m, scores[m]);
    ImageSize(MembersBefore(scores, member), scores, before);
  }

  /** The rank of a member: all smaller scores, and of the equal ones the smaller members. */
  lemma RankByScoreThenMember(scores: Scores, member: string)
    requires member in scores
    ensures |MembersBefore(scores, member)| ==
            |set m | m in scores && scores[m] < scores[member]|
            + |set m | m in scores && scores[m] == scores[member] && Smaller(m, member)|
  {
    var lower := set m | m in scores && scores[m] < scores[member];
    var equal := set m | m in scores && scores[m] == scores[member] && Smaller(m, member);
    forall m | m in scores ensures m in MembersBefore(scores, member) <==> m in lower || m in equal {
      LessByScoreThenMember(Value(m, scores[m]), Value(member, scores[member]));
    }
    assert MembersBefore(scores, member) == lower + equal;
    assert lower !! equal;
  }

  lemma {:induction false} ImageSize(ms: set<string>, scores: Scores, vs: set<Value>)
    requires ms <= scores.Keys && vs == set m | m in ms :: Value(m, scores[m])
    ensures |vs| == |ms|
    decreases |ms|
  {
    if ms != {} {
      var m :| m in ms;
      var v := Value(m, scores[m]);
      assert v in vs;
      assert vs - {v} == set m' | m' in ms - {m} :: Value(m', scores[m']);
      ImageSize(ms - {m}, scores, vs - {v});
    }
  }

  /** Ranks in one set are distinct, below its size, and ordered like the values. */
  lemma RanksOrderMembers(scores: Scores, a: string, b: string)
    requires a in scores && b in scores
    ensures |MembersBefore(scores, a)| < |scores|
    ensures Less(Value(a, scores[a]), Value(b, scores[b])) <==>
            |MembersBefore(scores, a)| < |MembersBefore(scores, b)|
  {
    LessIsStrictTotalOrder();
    assert MembersBefore(scores, a) <= scores.Keys - {a};
    assert |scores.Keys - {a}| == |scores| - 1;
    Subset(MembersBefore(scores, a), scores.Keys - {a});
    if Less(Value(a, scores[a]), Value(b, scores[b])) {
      MoreBefore(scores, a, b);
    } else if a != b {
      MoreBefore(scores, b, a);
    }
  }

  lemma MoreBefore(scores: Scores, a: string, b: string)
    requires a in scores && b in scores && Less(Value(a, scores[a]), Value(b, scores[b]))
    ensures |MembersBefore(scores, a)| < |MembersBefore(scores, b)|
  {
    LessIsStrictTotalOrder();
    Subset(MembersBefore(scores, a), MembersBefore(scores, b) - {a});
  }

  /** Ranks run from 0 to size - 1: each of them is some member's rank. */
  lemma RanksFillUp(scores: Scores, n: nat)
    requires n < |scores|
    ensures exists m :: m in scores && |MembersBefore(scores, m)| == n
  {
    var ranks := set m | m in scores :: |MembersBefore(scores, m)|;
    RanksAreDistinct(scores, scores.Keys, ranks);
    forall r | r in ranks ensures r in Below(|scores|) {
      var m :| m in scores && |MembersBefore(scores, m)| == r;
      RanksOrderMembers(scores, m, m);
    }
    if n !in ranks {
      Subset(ranks, Below(|scores|) - {n});
    }
  }

  /** The numbers below n. */
  ghost function Below(n: nat): (s: set<int>)
    ensures |s| == n && forall i :: i in s <==> 0 <= i < n
  {
    if n == 0 then {} else Below(n - 1) + {n - 1}
  }

  lemma {:induction false} RanksAreDistinct(scores: Scores, ms: set<string>, ranks: set<int>)
    requires ms <= scores.Keys && ranks == set m | m in ms :: |MembersBefore(scores, m)|
    ensures |ranks| == |ms|
    decreases |ms|
  {
    if ms != {} {
      var m :| m in ms;
      var r := |MembersBefore(scores, m)|;
      forall m' | m' in ms - {m} ensures |MembersBefore(scores, m')| != r {
        RanksOrderMembers(scores, m, m');
        RanksOrderMembers(scores, m', m);
        LessIsStrictTotalOrder();
      }
      assert ranks - {r} == set m' | m' in ms - {m} :: |MembersBefore(scores, m')|;
      RanksAreDistinct(scores, ms - {m}, ranks - {r});
    }
  }

  lemma Subset<T>(a: set<T>, b: set<T>)
    requires a <= b
    ensures |a| <= |b|
  {
    assert |b| == |a| + |b - a|;
  }

  // ---------- The stateful objects ----------

  class SortedSet {
    var tree: AvlTree.AVLTree
    var memberScore: Scores
    ghost var Repr: set<object>

    /** Tree and map agree: the tree holds exactly the pairs (member, memberScore[member]). */
    ghost predicate Valid()
      reads this, Repr
    {
      && this in Repr && tree in Repr && tree.Repr <= Repr && this !in tree.Repr
      && tree.Valid()
      && tree.Contents() == Values(memberScore)
    }

    constructor ()
      ensures Valid() && fresh(Repr) && memberScore == map[]
    {
      tree := new AvlTree.AVLTree();
      memberScore := map[];
      new;
      Repr := {this} + tree.Repr;
    }

    method Add(score: real, member: string) returns (added: bool)
      requires Valid()
      modifies Repr
      ensures Valid() && fresh(Repr - old(Repr))
      ensures memberScore == old(memberScore)[member := score]
      ensures added <==> member !in old(memberScore)
    {
      ValuesOfUpdate(memberScore, member, score);
      if member in memberScore {
        var existing := memberScore[member];
        if existing == score {
          return false;
        }
        var erased := tree.Erase(Value(member, existing));
        assert erased;
        var inserted := tree.Insert(Value(member, score));
        memberScore := memberScore[member := score];
        added := false;
      } else {
        var inserted := tree.Insert(Value(member, score));
        assert inserted;
        memberScore := memberScore[member := score];
        added := true;
      }
      Repr := Repr + tree.Repr;
    }

    method Remove(member: string) returns (removed: bool)
      requires Valid()
      modifies Repr
      ensures Valid() && fresh(Repr - old(Repr))
      ensures memberScore == old(memberScore) - {member}
      ensures removed <==> member in old(memberScore)
    {
      if member !in memberScore {
        return false;
      }
      ValuesOfRemoval(memberScore, member);
      var erased := tree.Erase(Value(member, memberScore[member]));
      assert erased;
      memberScore := memberScore - {member};
      Repr := Repr + tree.Repr;
      removed := true;
    }

    function Rank(member: string): (k: int)
      requires Valid() && member in memberScore
      reads this, Repr
      ensures k == |MembersBefore(memberScore, member)|
    {
      RankCountsMembers(memberScore, member);
      tree.Rank(Value(member, memberScore[member]))
    }
  }

  class SortedSetsAPI {
    var store: map<string, SortedSet>
    ghost var Repr: set<object>

    /** Every set is valid on its own, and no two sets share an object. */
    ghost predicate Valid()
      reads this, Repr
    {
      && this in Repr
      && (forall k :: k in store ==>
            store[k] in Repr && store[k].Repr <= Repr && this !in store[k].Repr && store[k].Valid())
      && (forall k, l :: k in store && l in store && k != l ==> store[k].Repr !! store[l].Repr)
    }

    ghost function Model(): (m: Sets)
      requires Valid()
      reads this, Repr
      ensures m.Keys == store.Keys
    {
      map k | k in store :: store[k].memberScore
    }

    constructor ()
      ensures Valid() && fresh(Repr) && Model() == map[]
    {
      store := map[];
      Repr := {this};
    }

    method GetOrCreateSet(key: string) returns (zset: SortedSet)
      requires Valid()
      modifies this
      ensures Valid() && fresh(Repr - old(Repr))
      ensures key in store && store[key] == zset
      ensures Model() == old(Model())[key := if key in old(Model()) then old(Model())[key] else map[]]
    {
      if key in store {
        zset := store[key];
      } else {
        ghost var before := Model();
        zset := CreateSet(key);
        assert Model() == before[key := map[]];
      }
    }

    method CreateSet(key: string) returns (zset: SortedSet)
      requires Valid() && key !in store
      modifies this
      ensures Valid() && fresh(Repr - old(Repr))
      ensures store == old(store)[key := zset] && zset.memberScore == map[]
    {
      zset := new SortedSet();
      assert forall k :: k in store ==> store[k].Repr !! zset.Repr;
      store := store[key := zset];
      Repr := Repr + zset.Repr;
    }

    method ZAdd(key: string, score: real, member: string) returns (added: bool)
      requires Valid()
      modifies Repr
      ensures Valid() && fresh(Repr - old(Repr))
      ensures Model() == old(Model())[key := (if key in old(Model()) then old(Model())[key] else map[])[member := score]]
      ensures added <==> !(key in old(Model()) && member in old(Model())[key])
    {
      CreateThenAdd(Model(), key, score, member);
      ghost var zset := GetOrCreateSet(key);
      added := AddToExisting(key, score, member);
    }

    method AddToExisting(key: string, score: real, member: string) returns (added: bool)
      requires Valid() && key in store
      modifies Repr
      ensures Valid() && fresh(Repr - old(Repr))
      ensures Model() == old(Model())[key := old(Model())[key][member := score]]
      ensures added <==> member !in old(Model())[key]
    {
      ghost var before := Model();
      added := AddTo(key, score, member);
      assert Model() == before[key := before[key][member := score]];
    }

    method AddTo(key: string, score: real, member: string) returns (added: bool)
      requires Valid() && key in store
      modifies Repr
      ensures Valid() && fresh(Repr - old(Repr))
      ensures store == old(store)
      ensures forall k :: k in store && k != key ==> store[k].memberScore == old(store[k].memberScore)
      ensures store[key].memberScore == old(store[key].memberScore)[member := score]
      ensures added <==> member !in old(store[key].memberScore)
    {
      var zset := store[key];
      added := zset.Add(score, member);
      Repr := Repr + zset.Repr;
    }

    method ZRem(key: string, member: string) returns (removed: bool)
      requires Valid()
      modifies Repr
      ensures Valid() && fresh(Repr - old(Repr))
      ensures Model() == if key in old(Model()) then old(Model())[key := old(Model())[key] - {member}] else old(Model())
      ensures removed <==> key in old(Model()) && member in old(Model())[key]
    {
      if key !in store {
        return false;
      }
      removed := RemoveFromExisting(key, member);
    }

    method RemoveFromExisting(key: string, member: string) returns (removed: bool)
      requires Valid() && key in store
      modifies Repr
      ensures Valid() && fresh(Repr - old(Repr))
      ensures Model() == old(Model())[key := old(Model())[key] - {member}]
      ensures removed <==> member in old(Model())[key]
    {
      ghost var before := Model();
      removed := RemoveFrom(key, member);
      assert Model() == before[key := before[key] - {member}];
    }

    method RemoveFrom(key: string, member: string) returns (removed: bool)
      requires Valid() && key in store
      modifies Repr
      ensures Valid() && fresh(Repr - old(Repr))
      ensures store == old(store)
      ensures forall k :: k in store && k != key ==> store[k].memberScore == old(store[k].memberScore)
      ensures store[key].memberScore == old(store[key].memberScore) - {member}
      ensures removed <==> member in old(store[key].memberScore)
    {
      var zset := store[key];
      removed := zset.Remove(member);
      Repr := Repr + zset.Repr;
    }

    method ZScore(key: string, member: string) returns (score: Option<real>)
      requires Valid()
      ensures score == if key in Model() && member in Model()[key] then Some(Model()[key][member]) else None
    {
      if key !in store || member !in store[key].memberScore {
        return None;
      }
      score := Some(store[key].memberScore[member]);
    }

    method ZRank(key: string, member: string) returns (rank: Option<int>)
      requires Valid()
      ensures rank.Some? <==> key in Model() && member in Model()[key]
      ensures rank.Some? ==>
                var scores := Model()[key];
                rank.value == |set m | m in scores && scores[m] < scores[member]|
                              + |set m | m in scores && scores[m] == scores[member] && Smaller(m, member)|
    {
      if key !in store || member !in store[key].memberScore {
        return None;
      }
      RankByScoreThenMember(store[key].memberScore, member);
      rank := Some(store[key].Rank(member));
    }

    method Execute(c: Command) returns (reply: bool)
      requires Valid()
      modifies Repr
      ensures Valid() && fresh(Repr - old(Repr))
      ensures Model() == Apply(old(Model()), c) && reply == Reply(old(Model()), c)
    {
      CommandsByCase(Model(), c.key, if c.ZAdd? then c.score else 0.0, c.member);
      match c {
        case ZAdd(key, score, member) => reply := ZAdd(key, score, member);
        case ZRem(key, member) => reply := ZRem(key, member);
      }
    }

    /**
     * Any sequence of commands keeps every tree in step with its map. Afterwards a member has the score
     * of its last ZADD if no ZREM came later, and every reply says whether the member was there.
     */
    method Run(commands: seq<Command>) returns (replies: seq<bool>)
      requires Valid()
      modifies Repr
      ensures Valid() && fresh(Repr - old(Repr))
      ensures Model() == ApplyAll(old(Model()), commands)
      ensures forall key, member, score ::
                Stored(Model(), key, member, score) <==> Holds(old(Model()), commands, key, member, score)
      ensures Truthful(old(Model()), commands, replies)
    {
      ghost var start := Model();
      replies := [];
      var n := 0;
      while n < |commands|
        invariant Valid() && fresh(Repr - old(Repr))
        invariant n == |replies| <= |commands|
        invariant Model() == ApplyAll(start, commands[..n])
        invariant Answers(start, commands, replies)
      {
        ApplyOneMore(start, commands, n);
        var reply := Execute(commands[n]);
        AnswersOneMore(start, commands, replies, reply);
        replies := replies + [reply];
        n := n + 1;
      }
      assert commands[..n] == commands;
      AnswersAreTruthful(start, commands, replies);
      forall key, member, score
        ensures Stored(ApplyAll(start, commands), key, member, score) <==> Holds(start, commands, key, member, score)
      {
        LastCommandDecides(start, commands, key, member, score);
      }
    }
  }
}
