/** The chained hash of live blocks: track_hash, allocated (here total) and inited of smartalloc.c. */
module TrackTable {
  import opened Collections
  import opened HeapSpec
  import opened Wrappers

  class Track {
    var data: nat
    var space: nat
    var needsFree: bool
    var margin: nat
    var next: Track?

    constructor (data: nat, space: nat, needsFree: bool, margin: nat)
      ensures Value() == Rec(data, space, needsFree, margin)
    {
      this.data, this.space, this.needsFree, this.margin := data, space, needsFree, margin;
      next := null;
    }

    function Value(): Rec
      reads this
    {
      Rec(data, space, needsFree, margin)
    }
  }

  /** One cell of track_hash, with the chain that starts there. */
  class Chain {
    var head: Track?
    ghost var nodes: seq<Track>
    ghost var recs: seq<Rec>

    ghost predicate Valid()
      reads this, nodes
    {
      && |nodes| == |recs| && head == At(nodes, 0, null)
      && (forall i {:trigger nodes[i].next} :: 0 <= i < |nodes| ==> nodes[i].next == At(nodes, i + 1, null))
      && (forall i :: 0 <= i < |nodes| ==> nodes[i].Value() == recs[i])
      && (forall i, j :: 0 <= i < j < |nodes| ==> nodes[i] != nodes[j])
    }

    constructor ()
      ensures Valid() && recs == [] && nodes == []
    {
      head, nodes, recs := null, [], [];
    }

    method PutFirst(temp: Track)
      requires Valid() && temp !in nodes
      modifies this, temp
      ensures Valid() && nodes == [temp] + old(nodes) && recs == [old(temp.Value())] + old(recs)
    {
      temp.next := head;
      head := temp;
      nodes, recs := [temp] + nodes, [temp.Value()] + recs;
    }

    /** The first node for the address leaves the chain, at its head or behind another node; every other node keeps its
        place. */
    method Take(address: nat) returns (node: Track?)
      requires Valid()
      modifies this, nodes
      ensures Valid() && (forall n :: n in nodes ==> n in old(nodes) && n != node)
      ensures recs == Remove(old(recs), address)
      ensures match First(old(recs), address)
              case None => node == null
              case Some(r) => node != null && node in old(nodes) && node.Value() == r
    {
      if head == null {
        return null;
      }
      ghost var k := 0;
      if head.data == address {
        node := head;
        Unlink(0, null, node);
      } else {
        var temp := head;
        while temp.next != null && temp.next.data != address
          invariant 0 <= k < |nodes| && temp == nodes[k]
          invariant forall i :: 0 <= i <= k ==> recs[i].data != address
          decreases |nodes| - k
        {
          temp := temp.next;
          k := k + 1;
        }
        if temp.next == null {
          NotThere(recs, address);
          return null;
        }
        node := temp.next;
        k := k + 1;
        Unlink(k, temp, node);
      }
      FirstAt(old(recs), address, k);
    }

    /** The pointer that led to the k-th node, be it the head or the next field of prev, now leads past it. */
    method Unlink(ghost k: nat, prev: Track?, node: Track)
      requires Valid() && k < |nodes| && node == nodes[k] && prev == if k == 0 then null else nodes[k - 1]
      modifies this, nodes
      ensures Valid() && node.Value() == old(node.Value()) && node !in nodes
      ensures nodes == old(nodes)[..k] + old(nodes)[k + 1..] && recs == old(recs)[..k] + old(recs)[k + 1..]
    {
      if prev == null {
        head := node.next;
      } else {
        prev.next := node.next;
      }
      nodes, recs := nodes[..k] + nodes[k + 1..], recs[..k] + recs[k + 1..];
    }
  }

  class TrackTable {
    const hash: array<Chain?>
    var total: nat
    var inited: bool
    ghost var live: seq<Rec>             // all records, newest first
    ghost var Repr: set<object>

    ghost predicate Valid()
      reads this, Repr
      ensures Valid() ==> this in Repr
    {
      && this in Repr && hash in Repr && hash.Length == HASH_SIZE
      && total == Sum(live)
      && (!inited ==> live == [])
      && (forall b :: 0 <= b < HASH_SIZE ==>
            hash[b] != null && hash[b] in Repr && (forall n :: n in hash[b].nodes ==> n in Repr))
      && (forall b, c :: 0 <= b < c < HASH_SIZE ==> hash[b] != hash[c])
      && (forall b :: 0 <= b < HASH_SIZE ==> hash[b].Valid() && hash[b].recs == InBucket(live, b))
    }

    constructor ()
      ensures Valid() && fresh(Repr) && live == [] && total == 0
    {
      var cells := new Chain?[HASH_SIZE];
      hash := cells;
      total, inited, live := 0, false, [];
      new;
      Repr := {this, hash};
      var b := 0;
      while b < HASH_SIZE
        invariant 0 <= b <= HASH_SIZE
        invariant this in Repr && hash in Repr && fresh(Repr)
        invariant live == [] && total == 0 && !inited
        invariant forall c :: 0 <= c < b ==>
                    hash[c] != null && hash[c] in Repr && hash[c].Valid() && hash[c].recs == [] && hash[c].nodes == []
        invariant forall c, d :: 0 <= c < d < b ==> hash[c] != hash[d]
      {
        hash[b] := new Chain();
        Repr := Repr + {hash[b]};
        b := b + 1;
      }
    }

    /** Different buckets have no node in common. */
    lemma ChainsAreApart(b: nat, c: nat)
      requires Valid() && b < HASH_SIZE && c < HASH_SIZE && b != c
      ensures forall n :: n in hash[b].nodes ==> n !in hash[c].nodes
    {
      forall n | n in hash[b].nodes ensures n !in hash[c].nodes {
        assert hash[b].Valid() && hash[c].Valid();
        var i :| 0 <= i < |hash[b].nodes| && hash[b].nodes[i] == n;
        assert Bucket(n.Value().data) == b;
      }
    }

    /** smartalloc_track. */
    method Track(data: nat, space: nat, needsFree: bool, margin: nat)
      requires Valid()
      modifies Repr
      ensures Valid() && fresh(Repr - old(Repr))
      ensures live == [Rec(data, space, needsFree, margin)] + old(live)
    {
      if !inited {
        EmptyTable();
      }
      var temp := new Track(data, space, needsFree, margin);
      PutFirst(temp);
    }

    /** What smartalloc_track does between taking and releasing its lock. */
    method PutFirst(temp: Track)
      requires Valid() && inited && temp !in Repr
      modifies Repr, temp
      ensures Valid() && Repr == old(Repr) + {temp}
      ensures live == [old(temp.Value())] + old(live)
    {
      var b := Bucket(temp.data);
      ghost var live' := [temp.Value()] + live;
      assert live'[1..] == live;
      forall c | 0 <= c < HASH_SIZE
        ensures InBucket(live', c) == if c == b then [temp.Value()] + InBucket(live, c) else InBucket(live, c)
      {
      }
      total := total + temp.space;
      PutInto(b, temp);
      live := live';
    }

    /** The chains after putting a node at the head of one of them. */
    method PutInto(b: nat, temp: Track)
      requires this in Repr && hash in Repr && hash.Length == HASH_SIZE && temp !in Repr && b < HASH_SIZE
      requires forall c :: 0 <= c < HASH_SIZE ==> hash[c] != null && hash[c] in Repr
      requires forall c :: 0 <= c < HASH_SIZE ==> hash[c].Valid() && (forall n :: n in hash[c].nodes ==> n in Repr)
      requires forall c, d :: 0 <= c < d < HASH_SIZE ==> hash[c] != hash[d]
      modifies hash[b], temp, this`Repr
      ensures Repr == old(Repr) + {temp}
      ensures forall c :: 0 <= c < HASH_SIZE ==> hash[c].Valid() && (forall n :: n in hash[c].nodes ==> n in Repr)
      ensures forall c :: 0 <= c < HASH_SIZE && c != b ==> hash[c].recs == old(hash[c].recs)
      ensures hash[b].recs == [old(temp.Value())] + old(hash[b].recs)
    {
      hash[b].PutFirst(temp);
      Repr := Repr + {temp};
    }

    /** memset(track_hash, 0, sizeof(track_hash)). */
    method EmptyTable()
      requires Valid() && !inited
      modifies Repr
      ensures Valid() && inited && Repr == old(Repr) && live == old(live)
    {
      var b := 0;
      while b < HASH_SIZE
        invariant 0 <= b <= HASH_SIZE
        invariant Valid() && !inited && Repr == old(Repr) && live == []
      {
        assert hash[b].Valid() && hash[b].recs == [];
        hash[b].head := null;
        b := b + 1;
      }
      inited := true;
    }

    /** removeTrackNode: the most recent record for the address leaves its chain, or null if there is none. */
    method RemoveTrackNode(address: nat) returns (node: Track?)
      requires Valid()
      modifies Repr
      ensures Valid() && Repr == old(Repr) - {node}
      ensures live == Remove(old(live), address)
      ensures match First(old(live), address)
              case None => node == null
              case Some(r) => node != null && node in old(Repr) && node.Value() == r
    {
      var b := Bucket(address);
      ghost var live' := Remove(live, address);
      InOneBucket(address);
      hide Valid, InBucket, Remove, First, Sum, Bucket, Chain.Valid;
      if hash[b].head == null {
        return null;
      }
      node := TakeFrom(b, address);
      if node != null {
        total, Repr := total - node.space, Repr - {node};
      }
      live := live';
      TakenOut(address, node);
    }

    /** The size of the record found for an address. */
    static function Freed(live: seq<Rec>, address: nat): nat {
      if First(live, address).Some? then First(live, address).value.space else 0
    }

    /** What is known about an address from its bucket alone. */
    lemma InOneBucket(address: nat)
      requires Valid()
      ensures First(hash[Bucket(address)].recs, address) == First(live, address)
      ensures Freed(live, address) <= total
      ensures hash[Bucket(address)].head == null ==> First(live, address).None? && Remove(live, address) == live
    {
      var b := Bucket(address);
      assert hash[b].Valid() && hash[b].recs == InBucket(live, b);
      hide Valid;
      RemoveFacts(live, address);
    }

    /** The table is in order again once a node has been taken out of the chain of the address. */
    twostate lemma TakenOut(address: nat, new node: Track?)
      requires old(Valid()) && Repr == old(Repr) - {node} && live == Remove(old(live), address)
      requires total + Freed(old(live), address) == old(total) && inited == old(inited)
      requires forall c :: 0 <= c < HASH_SIZE ==> hash[c] == old(hash[c])
      requires forall c :: 0 <= c < HASH_SIZE ==>
                 hash[c].Valid() && (forall n :: n in hash[c].nodes ==> n in old(Repr) && n != node)
      requires forall c :: 0 <= c < HASH_SIZE && c != Bucket(address) ==> hash[c].recs == old(hash[c].recs)
      requires hash[Bucket(address)].recs == Remove(old(hash[Bucket(address)].recs), address)
      ensures Valid()
    {
      RemoveFacts(old(live), address);
      hide InBucket, Remove, First, Sum, Bucket, Chain.Valid;
    }

    /** The chains after taking a node out of one of them. */
    method TakeFrom(b: nat, address: nat) returns (node: Track?)
      requires Valid() && b < HASH_SIZE
      modifies Repr
      ensures Repr == old(Repr) && total == old(total) && live == old(live) && inited == old(inited)
      ensures forall c :: 0 <= c < HASH_SIZE ==> hash[c] == old(hash[c])
      ensures forall c :: 0 <= c < HASH_SIZE ==>
                hash[c].Valid() && (forall n :: n in hash[c].nodes ==> n in Repr && n != node)
      ensures forall c :: 0 <= c < HASH_SIZE && c != b ==> hash[c].recs == old(hash[c].recs)
      ensures hash[b].recs == Remove(old(hash[b].recs), address)
      ensures match First(old(hash[b].recs), address)
              case None => node == null
              case Some(r) => node != null && node in Repr && node.Value() == r
    {
      forall c | 0 <= c < HASH_SIZE && c != b ensures forall n :: n in hash[b].nodes ==> n !in hash[c].nodes {
        ChainsAreApart(b, c);
      }
      node := hash[b].Take(address);
    }
  }

  lemma NotThere(recs: seq<Rec>, address: nat)
    requires forall i :: 0 <= i < |recs| ==> recs[i].data != address
    ensures First(recs, address) == None && Remove(recs, address) == recs
  {
    SumOfRemove(recs, address);
  }
}
