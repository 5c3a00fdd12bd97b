/** The per-client counters of client_table.c: 1024 hash buckets, each a singly linked chain. */
module ClientTable {
  import opened Words

  datatype Key = Key(ip: Word32, port: Word16)

  /** Bitwise exclusive or of two words of the given width. */
  function Xor(a: nat, b: nat, bits: nat): (r: nat)
    requires a < Pow2(bits) && b < Pow2(bits)
    ensures r < Pow2(bits)
  {
    if bits == 0 then 0
    else 2 * Xor(a / 2, b / 2, bits - 1) + if a % 2 == b % 2 then 0 else 1
  }

  function Bit(n: nat, i: nat): bool {
    if i == 0 then n % 2 == 1 else Bit(n / 2, i - 1)
  }

  /** A bit of the exclusive or is set exactly if the operands differ there. */
  lemma {:induction false} XorBits(a: nat, b: nat, bits: nat, i: nat)
    requires a < Pow2(bits) && b < Pow2(bits) && i < bits
    ensures Bit(Xor(a, b, bits), i) <==> Bit(a, i) != Bit(b, i)
  {
    if i > 0 {
      XorBits(a / 2, b / 2, bits - 1, i - 1);
    }
  }

  function Xor32(a: Word32, b: Word32): Word32 {
    assert Pow2(32) == U32 by {
      assert Pow2(8) == 0x100 && Pow2(16) == 0x1_0000 && Pow2(24) == 0x100_0000;
    }
    Xor(a, b, 32)
  }

  /** hash_key after some of its four steps; a division by a power of two is a right shift. */
  function Mix(k: Key, steps: nat): Word32 {
    if steps == 0 then
      Xor32(k.ip, Wrap32(k.port * 2654435761))
    else
      var x := Mix(k, steps - 1);
      if steps == 1 then Wrap32(Xor32(x, x / 0x1_0000) * 2246822519)
      else if steps == 2 then Wrap32(Xor32(x, x / 0x2000) * 3266489917)
      else Xor32(x, x / 0x1_0000)
  }

  function HashKey(k: Key): Word32 {
    Mix(k, 3)
  }

  const BUCKETS := 1024

  /** The bucket of a hash: its remainder by the number of buckets. */
  function Remainder(n: nat): (b: nat)
    ensures b < BUCKETS
  {
    if n < BUCKETS then n else Remainder(n - BUCKETS)
  }

  lemma {:induction false} RemainderIsModulo(n: nat)
    ensures Remainder(n) == n % BUCKETS
  {
    if n >= BUCKETS {
      RemainderIsModulo(n - BUCKETS);
    }
  }

  /** The bucket a key belongs to. */
  function Bucket(k: Key): (b: nat)
    ensures b < BUCKETS
  {
    Remainder(HashKey(k))
  }

  /** The counter after one more datagram, given the counters so far. */
  function Bumped(counters: map<Key, Word32>, key: Key): Word32 {
    var before: nat := if key in counters then counters[key] else 0;
    Wrap32(before + 1)
  }

  class Node {
    const key: Key
    var counter: Word32
    var next: Node?
    /** The bucket of the key. */
    ghost const home: nat
    /** How many nodes its table had allocated before it. */
    ghost const age: nat

    constructor (key: Key, next: Node?, ghost home: nat, ghost age: nat)
      ensures this.key == key && this.counter == 1 && this.next == next && this.home == home && this.age == age
    {
      this.key, this.counter, this.next, this.home, this.age := key, 1, next, home, age;
    }
  }

  ghost predicate Below(m: Node, b: nat, age: nat) {
    m.home == b && m.age < age
  }

  /** A pointer leads to the youngest node in a set that is in the given bucket and below the given age,
      or is null if there is none. */
  ghost predicate Youngest(all: set<Node>, p: Node?, b: nat, age: nat) {
    && (p != null ==> p in all && p.home == b && p.age < age)
    && (forall m {:trigger Below(m, b, age)} :: m in all && Below(m, b, age) ==> p != null && m.age <= p.age)
  }

  /** With the youngest node gone, the next one is the youngest. */
  lemma YoungestSkips(all: set<Node>, n: Node, next: Node?, b: nat, age: nat)
    requires Youngest(all, n, b, age) && Youngest(all, next, n.home, n.age)
    requires forall m :: m in all && m.age == n.age ==> m == n
    ensures Youngest(all - {n}, next, b, age)
  {
    forall m | m in all - {n} && Below(m, b, age)
      ensures next != null && m.age <= next.age
    {
      assert Below(m, n.home, n.age);
    }
  }

  /** A new node, younger than all others, leads its own bucket and leaves every other pointer as it was. */
  lemma YoungestAfter(all: set<Node>, n: Node, p: Node?, b: nat, age: nat)
    requires n !in all && age <= n.age + 1 && forall m :: m in all ==> m.age < n.age
    requires Youngest(all, p, b, if age <= n.age then age else n.age)
    ensures Youngest(all + {n}, if age > n.age && b == n.home then n else p, b, age)
  {
    forall m | m in all && Below(m, b, age)
      ensures p != null && m.age <= p.age
    {
      assert Below(m, b, if age <= n.age then age else n.age);
    }
  }

  /** No node of a bucket lies between a pointer and the youngest node it leads to. */
  lemma NoneBetween(all: set<Node>, p: Node, b: nat, age: nat, x: Node)
    requires Youngest(all, p, b, age) && x in all && x.home == b && p.age < x.age
    ensures x.age >= age
  {
    assert Below(x, b, age) <==> x.age < age;
  }

  class Table {
    var buckets: array<Node?>

    /** What the table means: the counter of each client that has one. */
    ghost var counters: map<Key, Word32>
    /** The node of each key. */
    ghost var nodes: map<Key, Node>
    /** The nodes allocated and not yet freed. */
    ghost var live: set<Node>
    /** All nodes ever allocated, in the order of their allocation. */
    ghost var allocs: seq<Node>

    /** Every chain runs through all the live nodes of its bucket and no others, from the youngest to the oldest;
        so chains are disjoint and free of cycles. */
    ghost predicate Linked()
      reads `buckets, `live, `allocs, buckets, live`next
    {
      && buckets.Length == BUCKETS
      && (forall b :: 0 <= b < BUCKETS ==> Youngest(live, buckets[b], b, |allocs|))
      && (forall n {:trigger n.next} :: n in live ==> Youngest(live, n.next, n.home, n.age))
      && (forall n :: n in live ==> n.age < |allocs| && allocs[n.age] == n)
    }

    /** No two live nodes have the same key, each is in the bucket of its key, and counters says what they hold. */
    ghost predicate Indexed()
      reads `live, `nodes, `counters, live`counter
    {
      && (forall n :: n in live ==> n.key in nodes && nodes[n.key] == n)
      && (forall k :: k in nodes ==> nodes[k] in live && nodes[k].key == k && nodes[k].home == Bucket(k))
      && counters.Keys == nodes.Keys
      && (forall n {:trigger n.counter} :: n in live ==> counters[n.key] == n.counter)
    }

    ghost predicate Valid()
      reads this, buckets, live
    {
      Linked() && Indexed()
    }

    /** rawudp_ct_create; each flag says whether a calloc succeeds. */
    static method Create(tableAlloc: bool, bucketsAlloc: bool) returns (t: Table?)
      ensures t == null <==> !(tableAlloc && bucketsAlloc)
      ensures t != null ==> fresh(t) && fresh(t.buckets) && t.Valid() && t.counters == map[] && t.live == {}
    {
      if !tableAlloc || !bucketsAlloc {
        return null;
      }
      t := new Table();
    }

    constructor ()
      ensures Valid() && fresh(buckets) && counters == map[] && live == {}
    {
      buckets := new Node?[BUCKETS](_ => null);
      nodes, counters, live, allocs := map[], map[], {}, [];
    }

    /** The walk of rawudp_ct_next and rawudp_ct_reset: the node of a key, and the node before it in the chain. */
    method Find(key: Key) returns (prev: Node?, n: Node?)
      requires Valid()
      ensures n == if key in nodes then nodes[key] else null
      ensures prev == null ==> n == buckets[Bucket(key)]
      ensures prev != null ==> prev in live && prev.next == n && prev.home == Bucket(key)
    {
      prev, n := null, buckets[Bucket(key)];
      ghost var age: nat := |allocs|;
      while n != null && n.key != key
        invariant prev == null ==> n == buckets[Bucket(key)]
        invariant prev != null ==> prev in live && prev.next == n && prev.home == Bucket(key)
        invariant Youngest(live, n, Bucket(key), age)
        invariant key in nodes ==> Below(nodes[key], Bucket(key), age)
        decreases age
      {
        age := n.age;
        prev, n := n, n.next;
      }
    }

    method Bump(n: Node)
      requires Valid() && n in live
      modifies `counters, n`counter
      ensures Valid() && n.counter == Bumped(old(counters), n.key)
      ensures counters == old(counters)[n.key := n.counter]
    {
      n.counter := Wrap32(n.counter + 1);
      counters := counters[n.key := n.counter];
    }

    /** Allocates the node of a key and puts it at the head of a chain. */
    method Prepend(key: Key, idx: nat) returns (n: Node)
      requires Linked() && idx < BUCKETS
      modifies buckets, `live, `allocs
      ensures Linked() && fresh(n) && live == old(live) + {n}
      ensures n.key == key && n.home == idx && n.counter == 1
    {
      n := new Node(key, buckets[idx], idx, |allocs|);
      forall b | 0 <= b < BUCKETS
        ensures Youngest(live + {n}, if b == idx then n else buckets[b], b, |allocs| + 1)
      {
        YoungestAfter(live, n, buckets[b], b, |allocs| + 1);
      }
      YoungestAfter(live, n, buckets[idx], idx, |allocs|);
      forall x {:trigger x.next} | x in live
        ensures Youngest(live + {n}, x.next, x.home, x.age)
      {
        YoungestAfter(live, n, x.next, x.home, x.age);
      }
      buckets[idx] := n;
      allocs, live := allocs + [n], live + {n};
    }

    /** The allocating half of rawudp_ct_next. */
    method Insert(key: Key) returns (n: Node)
      requires Valid() && key !in nodes
      modifies this, buckets
      ensures Valid() && buckets == old(buckets) && fresh(n) && live == old(live) + {n}
      ensures counters == old(counters)[key := 1]
    {
      n := Prepend(key, Bucket(key));
      nodes, counters := nodes[key := n], counters[key := 1];
    }

    /** rawudp_ct_next; alloc says whether a calloc succeeds. ok is false for the return value -1. */
    method Next(key: Key, alloc: bool) returns (ok: bool, counter: Word32)
      requires Valid()
      modifies this, buckets, live
      ensures Valid() && buckets == old(buckets) && fresh(live - old(live))
      ensures ok <==> key in old(counters) || alloc
      ensures ok ==> counter == Bumped(old(counters), key)
      ensures counters == if ok then old(counters)[key := counter] else old(counters)
      ensures if ok && key !in old(nodes) then |live| == |old(live)| + 1 else live == old(live)
    {
      var prev, n := Find(key);
      if n != null {
        Bump(n);
        return true, n.counter;
      }
      if !alloc {
        return false, 0;
      }
      n := Insert(key);
      return true, 1;
    }

    /** free of a node, which must be live. */
    ghost method Free(n: Node)
      requires n in live
      modifies `live
      ensures live == old(live) - {n}
    {
      live := live - {n};
    }

    /** Takes a node out of its chain, prev being the node before it or null, and frees it. */
    method Unlink(idx: nat, prev: Node?, n: Node)
      requires Linked() && n in live && idx == n.home < BUCKETS
      requires prev == null ==> buckets[idx] == n
      requires prev != null ==> prev in live && prev.next == n
      modifies buckets, live`next, `live
      ensures Linked() && live == old(live) - {n}
    {
      ghost var rest := live - {n};
      ghost var next := n.next;
      forall b | 0 <= b < BUCKETS
        ensures buckets[b] == n ==> b == idx && prev == null
        ensures Youngest(rest, if buckets[b] == n then next else buckets[b], b, |allocs|)
      {
        if buckets[b] == n {
          YoungestSkips(live, n, next, b, |allocs|);
          if prev != null {
            NoneBetween(live, n, b, |allocs|, prev);
          }
        }
      }
      forall x {:trigger x.next} | x in rest
        ensures x.next == n ==> x == prev
        ensures Youngest(rest, if x.next == n then next else x.next, x.home, x.age)
      {
        if x.next == n {
          YoungestSkips(live, n, next, x.home, x.age);
          if prev == null {
            NoneBetween(live, n, idx, |allocs|, x);
          } else if x != prev {
            NoneBetween(live, n, n.home, x.age, prev);
            NoneBetween(live, n, n.home, prev.age, x);
          }
        }
      }
      if prev != null {
        prev.next := n.next;
      } else {
        buckets[idx] := n.next;
      }
      Free(n);
    }

    /** rawudp_ct_reset */
    method Reset(key: Key)
      requires Valid()
      modifies this, buckets, live
      ensures Valid() && buckets == old(buckets)
      ensures counters == old(counters) - {key}
      ensures live == old(live) - if key in old(nodes) then {old(nodes)[key]} else {}
    {
      var prev, n := Find(key);
      if n != null {
        Unlink(Bucket(key), prev, n);
        nodes, counters := nodes - {key}, counters - {key};
      }
    }

    /** rawudp_ct_destroy: every node is freed once, and no freed node is read. */
    method Destroy()
      requires Valid()
      modifies this
      ensures live == {}
    {
      ghost var all := live;
      for i := 0 to BUCKETS
        invariant buckets == old(buckets) && allocs == old(allocs) && live <= all
        invariant forall x :: x in all ==> (x in live <==> x.home >= i)
      {
        var n := buckets[i];
        ghost var age: nat := |allocs|;
        while n != null
          invariant buckets == old(buckets) && allocs == old(allocs) && live <= all
          invariant Youngest(all, n, i, age)
          invariant forall x :: x in all ==> (x in live <==> x.home > i || Below(x, i, age))
          decreases age
        {
          var nx := n.next;
          Free(n);
          age := n.age;
          n := nx;
        }
      }
    }
  }
}
