/** The chained hash table: head, tail and length arrays over linked nodes, refining a finite map. */
module KVStore {
  import opened Common
  import opened BitMask
  import opened Metrics

  datatype Outcome = Done | Threw(message: string)

  /** A sequence without its element at place p. */
  function Without<T>(c: seq<T>, p: nat): (d: seq<T>)
    requires p < |c|
    ensures |d| == |c| - 1
    ensures forall j :: 0 <= j < |d| ==> d[j] == c[if j < p then j else j + 1]
  {
    c[..p] + c[p + 1..]
  }

  class Node<K, V> {
    const key: K
    const hashedKey: nat
    var value: V
    var next: Node?<K, V>
    ghost var home: nat  // the bucket this node is in
    ghost var pos: nat   // and its place in that bucket's chain

    constructor (key: K, hashedKey: nat, value: V)
      ensures this.key == key && this.hashedKey == hashedKey && this.value == value && next == null
    {
      this.key, this.hashedKey, this.value, next := key, hashedKey, value, null;
    }
  }

  class KVStore<K(==, !new), V> {
    const hash: K -> nat          // `std::hash`, uninterpreted
    const defaultValue: V         // `T_value()`
    const loadFactorThreshold: Ratio
    const metrics: ChronCacheHashMapMetrics
    var capacity: nat
    var bucketHeads: array<Node?<K, V>>
    var bucketTails: array<Node?<K, V>>
    var bucketChainLengths: array<int>
    ghost var chains: seq<seq<Node<K, V>>>   // the nodes of each bucket, in chain order
    ghost var index: map<K, Node<K, V>>      // the one node of each stored key
    ghost var Contents: map<K, V>            // the map this table represents
    ghost var Nodes: set<Node<K, V>>         // every node allocated for this table

    ghost function Repr(): set<object>
      reads `bucketHeads, `bucketTails, `bucketChainLengths, `Nodes
    {
      {this, metrics, bucketHeads, bucketTails, bucketChainLengths} + Nodes
    }

    /** The footprint gains only objects that are new. */
    twostate predicate OnlyGrows()
      reads this
    {
      forall o :: o in Repr() ==> o in old(Repr()) || fresh(o)
    }

    ghost predicate Arrays()
      reads `bucketHeads, `bucketTails, `bucketChainLengths, `Nodes, `chains, `capacity
    {
      && bucketHeads != bucketTails
      && bucketHeads.Length == bucketTails.Length == bucketChainLengths.Length == |chains| == capacity > 0
      && forall b, j :: 0 <= b < |chains| && 0 <= j < |chains[b]| ==> chains[b][j] in Nodes
    }

    /** The arrays describe bucket b: its nodes are linked in chain order, from head to tail, and end in null. */
    ghost predicate BucketValid(b: nat)
      requires Arrays() && b < capacity
      reads `bucketHeads, `bucketTails, `bucketChainLengths, `Nodes, `chains, `capacity
      reads bucketHeads, bucketTails, bucketChainLengths, Nodes`next, Nodes`home, Nodes`pos
    {
      var c := chains[b];
      && bucketChainLengths[b] == |c|
      && bucketHeads[b] == (if c == [] then null else c[0])
      && bucketTails[b] == (if c == [] then null else c[|c| - 1])
      && forall j {:trigger NodeValid(c[j], b, j)} :: 0 <= j < |c| ==> NodeValid(c[j], b, j)
    }

    /** As every node knows its bucket and place, no node is in two chains or twice in one. */
    ghost predicate NodeValid(n: Node<K, V>, b: nat, j: nat)
      requires b < |chains| && j < |chains[b]|
      reads `chains, n`next, n`home, n`pos
    {
      && n.home == b && n.pos == j
      && n.next == if j + 1 < |chains[b]| then chains[b][j + 1] else null
    }

    ghost predicate Chained()
      reads `bucketHeads, `bucketTails, `bucketChainLengths, `Nodes, `chains, `capacity
      reads bucketHeads, bucketTails, bucketChainLengths, Nodes`next, Nodes`home, Nodes`pos
    {
      Arrays() && forall b :: 0 <= b < capacity ==> BucketValid(b)
    }

    /** Nodes sit in the bucket their stored hash selects, and the index names exactly the nodes in the chains. */
    ghost predicate Indexed()
      reads `Nodes, `chains, `capacity, `index, Nodes`home, Nodes`pos
    {
      && capacity > 0
      && (forall b, j :: 0 <= b < |chains| && 0 <= j < |chains[b]| ==>
            var n := chains[b][j];
            && n.hashedKey == hash(n.key)
            && BucketIndex(n.hashedKey, capacity) == b
            && n.key in index && index[n.key] == n)
      && (forall k :: k in index ==> index[k] in Nodes && InChain(index[k]) && index[k].key == k)
    }

    ghost predicate InChain(n: Node<K, V>)
      reads `chains, n`home, n`pos
    {
      n.home < |chains| && n.pos < |chains[n.home]| && chains[n.home][n.pos] == n
    }

    ghost predicate Tabled()
      reads `bucketHeads, `bucketTails, `bucketChainLengths, `Nodes, `chains, `capacity, `index
      reads bucketHeads, bucketTails, bucketChainLengths, Nodes`next, Nodes`home, Nodes`pos
    {
      Chained() && Indexed() && IsPow2(capacity)
    }

    ghost predicate Counted()
      reads this, Repr()
    {
      && Tabled()
      && metrics.Describes(bucketChainLengths[..])
      && metrics.numEntries == |index|
    }

    ghost predicate Valid()
      reads this, Repr()
    {
      && Counted()
      && (forall k :: k in Contents <==> k in index)
      && (forall k :: k in index ==> Contents[k] == index[k].value)
    }

    function ComputeBucketIndex(hashedKey: nat): (b: nat)
      requires capacity > 0
      reads this
      ensures b < capacity
    {
      BucketIndex(hashedKey, capacity)
    }

    constructor (hash: K -> nat, defaultValue: V, capacity: nat, loadFactorThreshold: Ratio)
      requires PassesPow2Test(capacity)
      ensures Valid() && fresh({this, metrics, bucketHeads, bucketTails, bucketChainLengths}) && Nodes == {} && Contents == map[] && index == map[]
      ensures this.hash == hash && this.defaultValue == defaultValue
      ensures this.capacity == capacity && this.loadFactorThreshold == loadFactorThreshold
    {
      this.hash, this.defaultValue, this.loadFactorThreshold := hash, defaultValue, loadFactorThreshold;
      this.capacity := 0;
      metrics := new ChronCacheHashMapMetrics(capacity);
      bucketHeads, bucketTails := new Node?<K, V>[0], new Node?<K, V>[0];
      bucketChainLengths := new int[0];
      chains, index := [], map[];
      Nodes, Contents := {}, map[];
      new;
      Start(capacity);
    }

    /** `new`: no table, and an exception, for a capacity that is no power of two. */
    static method Make(hash: K -> nat, defaultValue: V, capacity: int, loadFactorThreshold: Ratio)
      returns (r: Outcome, table: KVStore?<K, V>)
      ensures r.Done? <==> IsPow2(capacity)
      ensures table != null <==> r.Done?
      ensures table != null ==>
                && table.Valid() && fresh(table.Repr()) && table.Contents == map[] && table.capacity == capacity
                && table.hash == hash && table.defaultValue == defaultValue
                && table.loadFactorThreshold == loadFactorThreshold
    {
      Pow2TestIsExact(capacity);
      if !PassesPow2Test(capacity) {
        return Threw("Capacity must be a power of 2"), null;
      }
      table := new KVStore(hash, defaultValue, capacity, loadFactorThreshold);
      r := Done;
    }

    method Start(capacityVal: nat)
      requires PassesPow2Test(capacityVal) && Contents == map[]
      requires metrics.numBuckets == capacityVal
      requires metrics.numEntries == metrics.numCollisions == metrics.maxChainLength == 0
      requires metrics.loadFactorVal == Ratio(0, capacityVal)
      modifies `capacity, `bucketHeads, `bucketTails, `bucketChainLengths, `chains, `index
      ensures Valid() && index == map[] && capacity == capacityVal
      ensures fresh(bucketHeads) && fresh(bucketTails) && fresh(bucketChainLengths)
    {
      Pow2TestIsExact(capacityVal);
      var r := ResetToCapacity(capacityVal);
      EmptyTableIsValid();
    }

    /** `assign`s the three arrays: every bucket is empty, and all nodes are detached from the table. */
    method ResetToCapacity(capacityVal: int) returns (r: Outcome)
      modifies `capacity, `bucketHeads, `bucketTails, `bucketChainLengths, `chains, `index
      ensures r.Done? <==> IsPow2(capacityVal)
      ensures r.Threw? ==> unchanged(this)
      ensures r.Done? ==>
                && Chained() && capacity == capacityVal
                && (forall b :: 0 <= b < capacity ==> chains[b] == []) && index == map[]
                && (forall i :: 0 <= i < capacity ==> bucketChainLengths[i] == 0)
                && fresh(bucketHeads) && fresh(bucketTails) && fresh(bucketChainLengths)
    {
      Pow2TestIsExact(capacityVal);
      if !PassesPow2Test(capacityVal) {
        return Threw("Capacity must be a power of 2");
      }
      capacity := capacityVal;
      bucketHeads := new Node?<K, V>[capacity](_ => null);
      bucketTails := new Node?<K, V>[capacity](_ => null);
      bucketChainLengths := new int[capacity](_ => 0);
      chains, index := seq(capacity, _ => []), map[];
      assert Arrays();
      forall b | 0 <= b < capacity ensures BucketValid(b) {
        assert chains[b] == [];
      }
      r := Done;
    }

    lemma EmptyTableIsValid()
      requires Chained() && PassesPow2Test(capacity)
      requires (forall b :: 0 <= b < capacity ==> chains[b] == []) && index == map[]
      requires metrics.numBuckets == capacity && metrics.numEntries == metrics.numCollisions == metrics.maxChainLength == 0
      requires metrics.loadFactorVal == Ratio(0, capacity)
      ensures Counted() && metrics.Exact(bucketChainLengths[..])
    {
      Pow2TestIsExact(capacity);
      forall i | 0 <= i < capacity ensures bucketChainLengths[..][i] == 0 {
        assert BucketValid(i);
      }
      AllZero(bucketChainLengths[..]);
    }

    lemma HomeOf(key: K)
      requires Chained() && Indexed() && key in index
      ensures index[key].home == BucketIndex(hash(key), capacity) && InChain(index[key])
    {
      assert chains[index[key].home][index[key].pos] == index[key];
    }

    method FindInBucket(b: nat, key: K) returns (node: Node?<K, V>)
      requires Chained() && Indexed() && b == BucketIndex(hash(key), capacity)
      ensures node == if key in index then index[key] else null
    {
      ghost var c, j := chains[b], 0;
      if key in index { HomeOf(key); }
      assert BucketValid(b);
      var current := bucketHeads[b];
      while current != null
        invariant 0 <= j <= |c|
        invariant current == if j < |c| then c[j] else null
        invariant key in index ==> j <= index[key].pos
        decreases |c| - j
      {
        assert NodeValid(c[j], b, j);
        if current.key == key {
          return current;
        }
        current := current.next;
        j := j + 1;
      }
      node := null;
    }

    /** Links a detached node after the last node of bucket b, or makes it the first. */
    method LinkAtTail(b: nat, node: Node<K, V>) returns (isCollision: bool)
      requires Chained() && b < capacity && node in Nodes
      requires node.next == null
      requires forall b', j :: 0 <= b' < |chains| && 0 <= j < |chains[b']| ==> chains[b'][j] != node
      modifies `chains, bucketHeads, bucketTails, bucketChainLengths
      modifies node`home, node`pos, (set n | n in chains[b])`next
      ensures Chained()
      ensures chains == old(chains)[b := old(chains)[b] + [node]]
      ensures bucketChainLengths[..] == old(bucketChainLengths[..])[b := old(bucketChainLengths[b]) + 1]
      ensures isCollision <==> old(bucketChainLengths[b]) > 0
    {
      assert BucketValid(b);
      ghost var c := chains[b];
      isCollision := bucketHeads[b] != null;
      if !isCollision {
        bucketHeads[b] := node;
      } else {
        var oldTail := bucketTails[b];
        assert NodeValid(c[|c| - 1], b, |c| - 1);
        oldTail.next := node;
      }
      bucketTails[b] := node;
      bucketChainLengths[b] := bucketChainLengths[b] + 1;
      chains := chains[b := c + [node]];
      node.home, node.pos := b, |c|;
      forall b' | 0 <= b' < capacity ensures BucketValid(b') {
        assert old(BucketValid(b'));
        forall j | 0 <= j < |chains[b']| ensures NodeValid(chains[b'][j], b', j) {
          assert b' != b || j < |c| ==> old(NodeValid(chains[b'][j], b', j));
        }
      }
    }

    /** Appends a detached node to its bucket's chain. */
    method Enroll(b: nat, node: Node<K, V>) returns (isCollision: bool)
      requires Tabled() && node in Nodes
      requires node.next == null && node.key !in index
      requires node.hashedKey == hash(node.key) && b == BucketIndex(node.hashedKey, capacity)
      modifies `chains, `index, bucketHeads, bucketTails, bucketChainLengths
      modifies node`home, node`pos, Nodes`next
      ensures Tabled()
      ensures index == old(index)[node.key := node]
      ensures |chains| == old(|chains|)
      ensures bucketChainLengths[..] == old(bucketChainLengths[..])[b := old(bucketChainLengths[b]) + 1]
      ensures isCollision <==> old(bucketChainLengths[b]) > 0
    {
      ghost var c := chains[b];
      isCollision := LinkAtTail(b, node);
      assert BucketValid(b) && NodeValid(chains[b][|c|], b, |c|);
      index := index[node.key := node];
      forall k | k in index ensures index[k] in Nodes && InChain(index[k]) && index[k].key == k {
        if k != node.key { assert old(InChain(index[k])); }
      }
    }

    /** Appends a detached node to its bucket's chain and counts it. */
    method InsertIntoBucket(b: nat, node: Node<K, V>)
      requires Counted() && node in Nodes
      requires node.next == null && node.key !in index
      requires node.hashedKey == hash(node.key) && b == BucketIndex(node.hashedKey, capacity)
      modifies `chains, `index, metrics, bucketHeads, bucketTails, bucketChainLengths
      modifies node`home, node`pos, Nodes`next
      ensures Counted()
      ensures index == old(index)[node.key := node]
      ensures metrics.numResizes == old(metrics.numResizes)
      ensures old(metrics.Exact(bucketChainLengths[..])) ==> metrics.Exact(bucketChainLengths[..])
    {
      ghost var lengths := bucketChainLengths[..];
      var isCollision := Enroll(b, node);
      metrics.NewElementEvent(isCollision, bucketChainLengths[b], lengths, b);
    }

    /** Writes the value slot of one node; no structure depends on it. */
    method SetValue(node: Node<K, V>, value: V)
      requires Valid() && node.key in index && index[node.key] == node
      modifies node`value, `Contents
      ensures Valid() && Contents == old(Contents)[node.key := value]
    {
      node.value := value;
      Contents := Contents[node.key := value];
    }

    method Set(key: K, value: V) returns (ok: bool)
      requires Valid()
      modifies Repr()
      ensures Valid() && OnlyGrows() && ok
      ensures Contents == old(Contents)[key := value]
      ensures forall k :: k in old(index) ==> k in index && index[k] == old(index[k])
      ensures capacity == old(capacity) && |index| <= old(|index|) + 1
    {
      var b := ComputeBucketIndex(hash(key));
      var existing := FindInBucket(b, key);
      if existing != null {
        SetValue(existing, value);
      } else {
        var newNode := AddNode(b, key, value);
      }
      ok := true;
    }

    /** Makes a node for an absent key and inserts it; no other slot changes. */
    method AddNode(b: nat, key: K, value: V) returns (node: Node<K, V>)
      requires Valid() && key !in index && b == BucketIndex(hash(key), capacity)
      modifies Repr()
      ensures Valid() && fresh(node) && Nodes == old(Nodes) + {node}
      ensures bucketHeads == old(bucketHeads) && bucketTails == old(bucketTails)
      ensures bucketChainLengths == old(bucketChainLengths)
      ensures index == old(index)[key := node]
      ensures Contents == old(Contents)[key := value]
      ensures capacity == old(capacity)
    {
      node := new Node(key, hash(key), value);
      AdoptNode(b, node);
      Publish(key);
    }

    /** Brings the represented map up to date with one new node. */
    ghost method Publish(key: K)
      requires Counted() && key in index
      requires forall k :: k in Contents || k == key <==> k in index
      requires forall k :: k in index && k != key ==> Contents[k] == index[k].value
      modifies `Contents
      ensures Valid() && Contents == old(Contents)[key := index[key].value]
    {
      Contents := Contents[key := index[key].value];
    }

    method AdoptNode(b: nat, node: Node<K, V>)
      requires Counted() && node !in Nodes
      requires node.next == null && node.key !in index
      requires node.hashedKey == hash(node.key) && b == BucketIndex(node.hashedKey, capacity)
      modifies `Nodes, `chains, `index, metrics, bucketHeads, bucketTails, bucketChainLengths
      modifies node, Nodes`next
      ensures Counted() && node.value == old(node.value) && Nodes == old(Nodes) + {node}
      ensures index == old(index)[node.key := node]
    {
      Own(node);
      InsertIntoBucket(b, node);
    }

    ghost method Own(node: Node<K, V>)
      requires Counted()
      modifies `Nodes
      ensures Counted() && Nodes == old(Nodes) + {node}
    {
      Nodes := Nodes + {node};
      forall b | 0 <= b < capacity ensures BucketValid(b) {
        UntouchedBucket(b);
      }
    }

    /** The value slot of a key, as the node that owns it. */
    method GetPtr(key: K) returns (node: Node?<K, V>)
      requires Valid()
      ensures node == if key in index then index[key] else null
    {
      node := FindInBucket(ComputeBucketIndex(hash(key)), key);
    }

    method Get(key: K) returns (value: Option<V>)
      requires Valid()
      ensures value == if key in Contents then Some(Contents[key]) else None
    {
      var node := GetPtr(key);
      value := if node != null then Some(node.value) else None;
    }

    method GetOrAdd(key: K) returns (node: Node<K, V>)
      requires Valid()
      modifies Repr()
      ensures Valid() && OnlyGrows()
      ensures Contents == if key in old(index) then old(Contents) else old(Contents)[key := defaultValue]
      ensures key in index && index[key] == node
      ensures forall k :: k in old(index) ==> k in index && index[k] == old(index[k])
      ensures capacity == old(capacity) && |index| <= old(|index|) + 1
    {
      var b := ComputeBucketIndex(hash(key));
      var existing := FindInBucket(b, key);
      if existing != null {
        return existing;
      }
      node := AddNode(b, key, defaultValue);
    }

    /** The nodes after place p each move up by one. */
    static ghost method MoveUp(c: seq<Node<K, V>>, p: nat)
      requires p < |c| && forall i :: 0 <= i < |c| ==> c[i].pos == i
      modifies (set n | n in c)`pos
      ensures forall i :: 0 <= i < |c| ==> c[i].pos == if i <= p then i else i - 1
    {
      forall n | n in c[p + 1..] {
        n.pos := n.pos - 1;
      }
    }

    /** A bucket whose array cells and nodes did not change stays valid. */
    twostate lemma UntouchedBucket(b: nat)
      requires old(Arrays()) && Arrays() && b < capacity == old(capacity) && old(BucketValid(b))
      requires chains[b] == old(chains[b]) && bucketChainLengths[b] == old(bucketChainLengths[b])
      requires bucketHeads[b] == old(bucketHeads[b]) && bucketTails[b] == old(bucketTails[b])
      requires forall n :: n in chains[b] && old(n.home) == b ==>
                 n.home == b && n.pos == old(n.pos) && n.next == old(n.next)
      ensures BucketValid(b)
    {
      forall j | 0 <= j < |chains[b]| ensures NodeValid(chains[b][j], b, j) {
        assert old(NodeValid(chains[b][j], b, j));
      }
    }

    /** The bucket from whose chain one node was unlinked. */
    twostate lemma ShortenedBucket(node: Node<K, V>)
      requires old(Arrays()) && Arrays() && capacity == old(capacity) && old(InChain(node) && BucketValid(node.home))
      requires var b, p := old(node.home), old(node.pos);
               && chains[b] == Without(old(chains[b]), p)
               && bucketHeads[b] == old(if p > 0 then chains[b][0] else if |chains[b]| > 1 then chains[b][1] else null)
               && bucketTails[b] == old(if p + 1 < |chains[b]| then chains[b][|chains[b]| - 1]
                                        else if p > 0 then chains[b][p - 1] else null)
               && bucketChainLengths[b] == old(|chains[b]|) - 1
      requires var c, b, p := old(chains[node.home]), old(node.home), old(node.pos);
               && (forall i :: 0 <= i < |c| ==> c[i].home == b)
               && (forall i :: 0 <= i < |c| ==> c[i].pos == if i <= p then i else i - 1)
               && (forall i :: 0 <= i < |c| ==> c[i].next == if i + 1 == p then old(c[p].next) else old(c[i].next))
      ensures BucketValid(old(node.home))
    {
      ghost var c, b, p := old(chains[node.home]), old(node.home), old(node.pos);
      forall j | 0 <= j < |chains[b]| ensures NodeValid(chains[b][j], b, j) {
        var i := if j < p then j else j + 1;
        assert old(NodeValid(c[i], b, i) && NodeValid(c[p], b, p));
      }
    }

    /** The pointer and counter updates that take a node out of its bucket's chain, given its predecessor there. */
    method UnlinkFromBucketChain(node: Node<K, V>, prev: Node?<K, V>, b: nat)
      requires Chained() && InChain(node) && node.home == b
      requires prev == if node.pos == 0 then null else chains[b][node.pos - 1]
      modifies bucketHeads, bucketTails, bucketChainLengths
      modifies (if prev == null then {} else {prev})`next
      ensures prev != null ==> prev.next == old(node.next)
      ensures var c, p := chains[b], node.pos;
              && bucketHeads[b] == (if p > 0 then c[0] else if |c| > 1 then c[1] else null)
              && bucketTails[b] == (if p + 1 < |c| then c[|c| - 1] else if p > 0 then c[p - 1] else null)
              && bucketChainLengths[b] == |c| - 1
      ensures forall i :: 0 <= i < capacity && i != b ==>
                && bucketHeads[i] == old(bucketHeads[i]) && bucketTails[i] == old(bucketTails[i])
                && bucketChainLengths[i] == old(bucketChainLengths[i])
    {
      ghost var c, p := chains[b], node.pos;
      assert BucketValid(b) && NodeValid(c[p], b, p);
      if p + 1 < |c| { assert NodeValid(c[p + 1], b, p + 1); }
      if prev != null {
        prev.next := node.next;
      } else {
        bucketHeads[b] := node.next;
      }
      if node.next == null {
        bucketTails[b] := prev;
      }
      bucketChainLengths[b] := bucketChainLengths[b] - 1;
    }

    /** Unlinks the node and moves the later ones up. */
    method UnlinkAndMoveUp(node: Node<K, V>, prev: Node?<K, V>, b: nat)
      requires Chained() && InChain(node) && node.home == b
      requires prev == if node.pos == 0 then null else chains[b][node.pos - 1]
      modifies `chains, bucketHeads, bucketTails, bucketChainLengths
      modifies Nodes`next, Nodes`pos
      ensures Arrays() && chains == old(chains[b := Without(chains[b], node.pos)])
      ensures var c, p := old(chains[b]), old(node.pos);
              && bucketHeads[b] == (if p > 0 then c[0] else if |c| > 1 then c[1] else null)
              && bucketTails[b] == (if p + 1 < |c| then c[|c| - 1] else if p > 0 then c[p - 1] else null)
              && bucketChainLengths[b] == |c| - 1
              && (forall i :: 0 <= i < |c| ==> c[i].home == b && c[i].pos == if i <= p then i else i - 1)
              && (forall i :: 0 <= i < |c| ==> c[i].next == if i + 1 == p then old(c[p].next) else old(c[i].next))
      ensures forall i :: 0 <= i < capacity && i != b ==>
                && bucketHeads[i] == old(bucketHeads[i]) && bucketTails[i] == old(bucketTails[i])
                && bucketChainLengths[i] == old(bucketChainLengths[i])
      ensures forall n :: n in Nodes && n.home != b ==> n.pos == old(n.pos) && n.next == old(n.next)
    {
      ghost var c, p := chains[b], node.pos;
      assert BucketValid(b);
      forall i | 0 <= i < |c| ensures c[i].home == b && c[i].pos == i {
        assert NodeValid(c[i], b, i);
      }
      UnlinkFromBucketChain(node, prev, b);
      MoveUp(c, p);
      chains := chains[b := Without(c, p)];
    }

    /** Unlinking leaves the chain without the node, and all else as it was. */
    method Unchain(node: Node<K, V>, prev: Node?<K, V>, b: nat)
      requires Chained() && InChain(node) && node.home == b
      requires prev == if node.pos == 0 then null else chains[b][node.pos - 1]
      modifies `chains, bucketHeads, bucketTails, bucketChainLengths
      modifies Nodes`next, Nodes`pos
      ensures Chained()
      ensures chains == old(chains[b := Without(chains[b], node.pos)])
      ensures forall i :: 0 <= i < old(|chains[b]|) ==>
                old(chains[b])[i].pos == if i <= old(node.pos) then i else i - 1
      ensures forall n :: n in Nodes && n.home != b ==> n.pos == old(n.pos)
      ensures forall i :: 0 <= i < capacity ==> bucketChainLengths[i] == old(bucketChainLengths[i]) - (if i == b then 1 else 0)
    {
      assert BucketValid(b);
      UnlinkAndMoveUp(node, prev, b);
      ShortenedBucket(node);
      forall b' | 0 <= b' < capacity && b' != b ensures BucketValid(b') {
        UntouchedBucket(b');
      }
    }

    /** Dropping the key of an unlinked node leaves the index in step with the chains. */
    twostate lemma StillIndexed(node: Node<K, V>)
      requires old(Tabled() && node.key in index && index[node.key] == node)
      requires Arrays() && capacity == old(capacity) && Nodes == old(Nodes)
      requires index == old(index) - {node.key}
      requires chains == old(chains[node.home := Without(chains[node.home], node.pos)])
      requires forall i :: 0 <= i < old(|chains[node.home]|) ==>
                 && old(chains[node.home])[i].home == old(node.home)
                 && old(chains[node.home])[i].pos == if i <= old(node.pos) then i else i - 1
      requires forall n :: n in Nodes && n.home != old(node.home) ==> n.pos == old(n.pos)
      requires forall n :: n in Nodes ==> n.home == old(n.home)
      ensures Indexed()
    {
      ghost var b, p := old(node.home), old(node.pos);
      ghost var c := old(chains[b]);
      forall k | k in index ensures index[k] in Nodes && InChain(index[k]) && index[k].key == k {
        var n := index[k];
        var i := old(n.pos);
        assert n == old(index[k]) && n != node && old(InChain(n)) && old(InChain(node));
        if n.home == b {
          assert c[i] == n && i != p;
          assert chains[b][if i < p then i else i - 1] == n;
        } else {
          assert n.pos == i;
        }
      }
      forall b', j | 0 <= b' < |chains| && 0 <= j < |chains[b']|
        ensures var n := chains[b'][j]; n.key in index && index[n.key] == n
      {
        var i := if b' == b && j >= p then j + 1 else j;
        assert old(chains[b'][i]) == chains[b'][j];
        assert old(BucketValid(b') && NodeValid(chains[b'][i], b', i));
      }
    }

    /** Unlinks the node and drops its key from the index. */
    method Withdraw(node: Node<K, V>, prev: Node?<K, V>, b: nat)
      requires Tabled() && node.key in index && index[node.key] == node && node.home == b
      requires prev == if node.pos == 0 then null else chains[b][node.pos - 1]
      modifies `chains, `index, bucketHeads, bucketTails, bucketChainLengths
      modifies Nodes`next, Nodes`pos
      ensures Tabled() && |chains| == old(|chains|)
      ensures index == old(index) - {node.key}
      ensures forall i :: 0 <= i < capacity ==> bucketChainLengths[i] == old(bucketChainLengths[i]) - (if i == b then 1 else 0)
      ensures old(bucketChainLengths[b]) > 0
    {
      ghost var c, p := chains[b], node.pos;
      assert BucketValid(b);
      forall i | 0 <= i < |c| ensures c[i].home == b && c[i].pos == i {
        assert NodeValid(c[i], b, i);
      }
      Unchain(node, prev, b);
      index := index - {node.key};
      StillIndexed(node);
    }

    method Remove(key: K) returns (found: bool)
      requires Valid()
      modifies Repr()
      ensures Valid() && Repr() == old(Repr())
      ensures found <==> key in old(Contents)
      ensures Contents == old(Contents) - {key}
      ensures index == old(index) - {key}
      ensures capacity == old(capacity)
    {
      found := RemoveFrom(ComputeBucketIndex(hash(key)), key);
    }

    method RemoveFrom(b: nat, key: K) returns (found: bool)
      requires Valid() && b == BucketIndex(hash(key), capacity)
      modifies `chains, `index, `Contents, bucketHeads, bucketTails, bucketChainLengths, metrics
      modifies Nodes`next, Nodes`pos
      ensures Valid()
      ensures found <==> key in old(index)
      ensures index == old(index) - {key} && Contents == old(Contents) - {key}
    {
      found := FindAndDiscard(b, key);
      Unpublish(key);
    }

    /** Takes a removed key out of the represented map. */
    ghost method Unpublish(key: K)
      requires Counted() && key !in index
      requires forall k :: k in Contents && k != key <==> k in index
      requires forall k :: k in index ==> Contents[k] == index[k].value
      modifies `Contents
      ensures Valid() && Contents == old(Contents) - {key}
    {
      Contents := Contents - {key};
    }

    method FindAndDiscard(b: nat, key: K) returns (found: bool)
      requires Counted() && b == BucketIndex(hash(key), capacity)
      modifies `chains, `index, bucketHeads, bucketTails, bucketChainLengths, metrics
      modifies Nodes`next, Nodes`pos
      ensures Counted()
      ensures found <==> key in old(index)
      ensures index == old(index) - {key}
    {
      var node, prev := FindWithPredecessor(b, key);
      if node != null {
        Discard(node, prev, b);
      }
      found := node != null;
    }

    /** The scan of `remove`, which trails one node behind. */
    method FindWithPredecessor(b: nat, key: K) returns (current: Node?<K, V>, prev: Node?<K, V>)
      requires Chained() && Indexed() && b == BucketIndex(hash(key), capacity)
      ensures current == if key in index then index[key] else null
      ensures key in index ==> InChain(index[key]) && index[key].home == b
      ensures key in index ==> prev == if index[key].pos == 0 then null else chains[b][index[key].pos - 1]
    {
      ghost var c, j := chains[b], 0;
      if key in index { HomeOf(key); }
      assert BucketValid(b);
      current, prev := bucketHeads[b], null;
      while current != null
        invariant 0 <= j <= |c|
        invariant current == if j < |c| then c[j] else null
        invariant prev == if j == 0 then null else c[j - 1]
        invariant key in index ==> j <= index[key].pos
        decreases |c| - j
      {
        assert NodeValid(c[j], b, j);
        if current.key == key {
          return;
        }
        prev := current;
        current := current.next;
        j := j + 1;
      }
    }

    /** Unlinks the node, and counts that it is gone. */
    method Discard(node: Node<K, V>, prev: Node?<K, V>, b: nat)
      requires Counted() && node.key in index && index[node.key] == node && node.home == b
      requires prev == if node.pos == 0 then null else chains[b][node.pos - 1]
      modifies `chains, `index, bucketHeads, bucketTails, bucketChainLengths, metrics
      modifies Nodes`next, Nodes`pos
      ensures Counted()
      ensures index == old(index) - {node.key}
    {
      ghost var lengths := bucketChainLengths[..];
      Withdraw(node, prev, b);
      assert bucketChainLengths[..] == lengths[b := lengths[b] - 1];
      metrics.RemoveElementEvent(lengths, b);
    }

    function NeedsResize(): bool
      reads this, metrics
    {
      metrics.loadFactorVal.Exceeds(loadFactorThreshold)
    }

    /** The test on the load factor is exactly the test on the number of stored keys. */
    lemma NeedsResizeIsExact()
      requires Counted() && loadFactorThreshold.den > 0
      ensures NeedsResize() <==> |index| * loadFactorThreshold.den > loadFactorThreshold.num * capacity
    {
    }

    /** All nodes, bucket by bucket and in chain order. */
    method CollectNodes() returns (nodes: seq<Node<K, V>>)
      requires Tabled()
      ensures Lists(nodes, index)
    {
      nodes := [];
      var i := 0;
      while i < capacity
        invariant 0 <= i <= capacity
        invariant forall x :: 0 <= x < |nodes| ==> InChain(nodes[x]) && nodes[x].home < i
        invariant forall x, y :: 0 <= x < y < |nodes| ==> nodes[x] != nodes[y]
        invariant forall k :: k in index && index[k].home < i ==> index[k] in nodes
      {
        ghost var c, j, before := chains[i], 0, |nodes|;
        assert BucketValid(i);
        var cur := bucketHeads[i];
        while cur != null
          invariant 0 <= j <= |c| && before <= |nodes|
          invariant cur == if j < |c| then c[j] else null
          invariant forall x :: 0 <= x < |nodes| ==> InChain(nodes[x])
          invariant forall x :: 0 <= x < |nodes| ==> nodes[x].home < i || (nodes[x].home == i && nodes[x].pos < j)
          invariant forall x, y :: 0 <= x < y < |nodes| ==> nodes[x] != nodes[y]
          invariant forall k :: k in index && index[k].home < i ==> index[k] in nodes
          invariant forall k :: k in index && index[k].home == i && index[k].pos < j ==> index[k] in nodes
          decreases |c| - j
        {
          assert NodeValid(c[j], i, j);
          nodes := nodes + [cur];
          cur := cur.next;
          j := j + 1;
        }
        i := i + 1;
      }
    }

    /** Grows the table and relinks the same nodes; the two exceptions leave everything as it was. */
    method Resize(newCapacity: int) returns (r: Outcome)
      requires Valid()
      modifies Repr()
      ensures Valid() && OnlyGrows()
      ensures r.Done? <==> newCapacity > old(capacity) && IsPow2(newCapacity)
      ensures r.Threw? ==> unchanged(this) && unchanged(metrics)
      ensures r.Done? ==> capacity == newCapacity && metrics.Exact(bucketChainLengths[..])
      ensures r.Done? ==> metrics.numResizes == old(metrics.numResizes) + 1
      ensures index == old(index) && Contents == old(Contents)
    {
      if newCapacity <= capacity {
        return Threw("New capacity must be greater than current capacity");
      }
      Pow2TestIsExact(newCapacity);
      if !PassesPow2Test(newCapacity) {
        return Threw("New capacity must be a power of 2");
      }
      Rehash(newCapacity);
      r := Done;
    }

    method Rehash(newCapacity: nat)
      requires Counted() && PassesPow2Test(newCapacity)
      modifies `capacity, `bucketHeads, `bucketTails, `bucketChainLengths, `chains, `index, metrics
      modifies Nodes`home, Nodes`pos, Nodes`next
      ensures Counted() && index == old(index) && capacity == newCapacity
      ensures fresh(bucketHeads) && fresh(bucketTails) && fresh(bucketChainLengths)
      ensures metrics.Exact(bucketChainLengths[..]) && metrics.numResizes == old(metrics.numResizes) + 1
    {
      ghost var stored := index;
      var nodes := CollectNodes();
      var matched := metrics.ResizeEventTriggered(capacity, newCapacity);
      assert matched;
      Pow2TestIsExact(newCapacity);
      var r := ResetToCapacity(newCapacity);
      EmptyTableIsValid();
      Reinsert(nodes, stored);
    }

    /** Puts detached nodes back, each in the bucket its stored hash now selects. */
    method Reinsert(nodes: seq<Node<K, V>>, ghost stored: map<K, Node<K, V>>)
      requires Counted() && index == map[] && metrics.Exact(bucketChainLengths[..])
      requires Lists(nodes, stored)
      modifies `chains, `index, metrics, bucketHeads, bucketTails, bucketChainLengths
      modifies Nodes`home, Nodes`pos, Nodes`next
      ensures Counted() && index == stored && metrics.Exact(bucketChainLengths[..])
      ensures metrics.numResizes == old(metrics.numResizes)
    {
      var m := 0;
      while m < |nodes|
        invariant 0 <= m <= |nodes|
        invariant Counted() && metrics.Exact(bucketChainLengths[..])
        invariant metrics.numResizes == old(metrics.numResizes)
        invariant index == Listed(nodes, stored, m)
      {
        ListedGrows(nodes, stored, m);
        Relink(nodes[m]);
        m := m + 1;
      }
      assert Listed(nodes, stored, m) == stored;
    }

    /** The sequence holds the table's nodes, one per stored key. */
    ghost predicate Lists(nodes: seq<Node<K, V>>, stored: map<K, Node<K, V>>)
      reads `Nodes
    {
      && (forall k :: k in stored ==> stored[k] in nodes && stored[k].key == k)
      && (forall x :: 0 <= x < |nodes| ==> Owned(nodes[x], stored))
      && (forall x, y :: 0 <= x < y < |nodes| ==> nodes[x].key != nodes[y].key)
    }

    ghost predicate Owned(n: Node<K, V>, stored: map<K, Node<K, V>>)
      reads `Nodes
    {
      n.key in stored && stored[n.key] == n && n in Nodes && n.hashedKey == hash(n.key)
    }

    /** The entries of `stored` whose nodes are among the first m. */
    ghost function Listed(nodes: seq<Node<K, V>>, stored: map<K, Node<K, V>>, m: nat): map<K, Node<K, V>>
      requires m <= |nodes|
    {
      map k | k in stored && stored[k] in nodes[..m] :: stored[k]
    }

    lemma ListedGrows(nodes: seq<Node<K, V>>, stored: map<K, Node<K, V>>, m: nat)
      requires Lists(nodes, stored) && m < |nodes|
      ensures Owned(nodes[m], stored) && nodes[m].key !in Listed(nodes, stored, m)
      ensures Listed(nodes, stored, m + 1) == Listed(nodes, stored, m)[nodes[m].key := nodes[m]]
    {
      assert Owned(nodes[m], stored);
      assert nodes[..m + 1] == nodes[..m] + [nodes[m]];
    }

    /** `clear_pointers`, then `insert_into_bucket`. */
    method Relink(node: Node<K, V>)
      requires Counted() && node in Nodes && node.key !in index && node.hashedKey == hash(node.key)
      modifies `chains, `index, metrics, bucketHeads, bucketTails, bucketChainLengths
      modifies Nodes`home, Nodes`pos, Nodes`next
      ensures Counted()
      ensures index == old(index)[node.key := node]
      ensures metrics.numResizes == old(metrics.numResizes)
      ensures old(metrics.Exact(bucketChainLengths[..])) ==> metrics.Exact(bucketChainLengths[..])
    {
      Detach(node);
      var b := ComputeBucketIndex(node.hashedKey);
      InsertIntoBucket(b, node);
    }

    method Detach(node: Node<K, V>)
      requires Counted() && node in Nodes && node.key !in index
      modifies node`next
      ensures Counted() && node.next == null
    {
      node.next := null;
      forall b | 0 <= b < capacity ensures BucketValid(b) {
        UntouchedBucket(b);
      }
    }
  }
}
