// nss/nss_mcdb_netdb_make.c: struct ngtable, which numbers byte strings in order of first use.  A
// chained hash table finds a string's number; an array of the same nodes finds a number's string.
module NgTables {
  import opened Wrappers
  import opened Bytes
  import opened Uint32

  class NgNode {
    var next: NgNode?
    const h: word
    const k: seq<byte>
    const v: nat

    constructor (h: word, k: seq<byte>, v: nat)
      ensures next == null && this.h == h && this.k == k && this.v == v
    {
      this.h, this.k, this.v := h, k, v;
      next := null;
    }
  }

  ghost predicate Linked(head: NgNode?, c: seq<NgNode>)
    reads c`next
  {
    && head == (if c == [] then null else c[0])
    && forall k {:trigger c[k].next} :: 0 <= k < |c| ==> c[k].next == if k + 1 < |c| then c[k + 1] else null
  }

  // The low bits of the hash: the remainder by the number of buckets, a power of two in the source
  function Bucket(h: word, nbkts: nat): (b: nat)
    requires nbkts > 0
    ensures b < nbkts
  {
    h as int % nbkts
  }

  // A list of distinct elements with one more, unless it is there already
  function With<T(==)>(s: seq<T>, x: T): seq<T> {
    if x in s then s else s + [x]
  }

  // Node i of the array holds key i.
  ghost predicate Numbered(all: seq<NgNode>, keys: seq<seq<byte>>) {
    && |all| == |keys|
    && forall i :: 0 <= i < |all| ==> all[i].v == i && all[i].k == keys[i] && all[i].h == Hash(keys[i])
  }

  // The chains hold the nodes, each in the chain of its hash.
  ghost predicate Sorted(chains: seq<seq<NgNode>>, all: seq<NgNode>) {
    && (forall b, k :: 0 <= b < |chains| && 0 <= k < |chains[b]| ==>
          var n := chains[b][k]; n.v < |all| && all[n.v] == n && Bucket(n.h, |chains|) == b)
    && (forall i :: 0 <= i < |all| ==> chains != [] && all[i] in chains[Bucket(all[i].h, |chains|)])
  }

  lemma SortedAppend(chains: seq<seq<NgNode>>, all: seq<NgNode>, n: NgNode)
    requires chains != [] && Sorted(chains, all) && n.v == |all|
    ensures var b := Bucket(n.h, |chains|); Sorted(chains[b := chains[b] + [n]], all + [n])
  {
    hide Bucket;
    var b := Bucket(n.h, |chains|);
    var now := chains[b := chains[b] + [n]];
    forall i | 0 <= i < |all| + 1
      ensures (all + [n])[i] in now[Bucket((all + [n])[i].h, |chains|)]
    {
      if i == |all| {
        assert now[b][|chains[b]|] == n;
      }
    }
  }

  lemma NumberedAppend(all: seq<NgNode>, keys: seq<seq<byte>>, n: NgNode)
    requires Numbered(all, keys) && n.v == |all| && n.h == Hash(n.k)
    ensures Numbered(all + [n], keys + [n.k])
  {
  }

  // A key that the table holds is in the chain of its hash.
  lemma InChain(chains: seq<seq<NgNode>>, all: seq<NgNode>, keys: seq<seq<byte>>, key: seq<byte>)
    requires chains != [] && Sorted(chains, all) && Numbered(all, keys)
    requires forall n :: n in chains[Bucket(Hash(key), |chains|)] ==> n.k != key
    ensures key !in keys
  {
    forall i | 0 <= i < |keys|
      ensures keys[i] != key
    {
      assert all[i] in chains[Bucket(all[i].h, |chains|)];
    }
  }

  class NgTable {
    var nodes: array<NgNode?>      // a.nodes, with room for a.sz
    var used: nat
    var bkts: array<NgNode?>
    ghost var all: seq<NgNode>
    ghost var chains: seq<seq<NgNode>>
    ghost var keys: seq<seq<byte>>
    ghost var Repr: set<NgNode>

    ghost predicate Links()
      reads `chains, `bkts, `Repr, bkts, Repr`next
    {
      && |chains| == bkts.Length > 0
      && forall b :: 0 <= b < |chains| ==>
           && (forall k :: 0 <= k < |chains[b]| ==> chains[b][k] in Repr)
           && Linked(bkts[b], chains[b])
    }

    ghost predicate Array()
      reads `used, `all, `nodes, nodes
    {
      && used == |all| <= nodes.Length && nodes.Length > 0
      && forall i :: 0 <= i < used ==> nodes[i] == all[i]
    }

    ghost predicate Valid()
      reads this, nodes, bkts, Repr`next
    {
      && nodes != bkts
      && Array() && Links() && Distinct(keys) && Numbered(all, keys) && Sorted(chains, all)
    }

    // netgroup_ngtable_init
    constructor (hint: nat)
      requires hint > 0
      ensures Valid() && fresh(nodes) && fresh(bkts) && Repr == {} && keys == []
    {
      var b := new NgNode?[hint * 2](_ => null);
      var a := new NgNode?[hint](_ => null);
      bkts, nodes, used := b, a, 0;
      all, keys, chains, Repr := [], [], seq(hint * 2, _ => []), {};
    }

    // The hash table lookup, and where its chain ends
    method Lookup(hash: word, vbuf: seq<byte>) returns (found: NgNode?, last: NgNode?)
      requires Valid() && hash == Hash(vbuf)
      ensures found != null <==> vbuf in keys
      ensures found != null ==> found.v < |keys| && keys[found.v] == vbuf
      ensures found == null ==>
        var c := chains[Bucket(hash, |chains|)]; last == if c == [] then null else c[|c| - 1]
    {
      hide Hash, Bucket;
      var b := Bucket(hash, bkts.Length);
      ghost var c := chains[b];
      ghost var k := 0;
      last := null;
      found := bkts[b];
      while found != null
        invariant 0 <= k <= |c|
        invariant found == if k < |c| then c[k] else null
        invariant last == if k > 0 then c[k - 1] else null
        invariant forall j :: 0 <= j < k ==> c[j].k != vbuf
        decreases |c| - k
      {
        if found.h == hash && |found.k| == |vbuf| && found.k == vbuf {
          assert chains[b][k] == found;
          assert keys[found.v] == vbuf;
          return;
        }
        last, found, k := found, found.next, k + 1;
      }
      InChain(chains, all, keys, vbuf);
    }

    // realloc of the array of nodes
    method Grow()
      requires Array()
      modifies this`nodes
      ensures fresh(nodes) && nodes.Length == 2 * old(nodes.Length)
      ensures Array()
    {
      var np := new NgNode?[nodes.Length * 2](_ => null);
      forall i | 0 <= i < used {
        np[i] := nodes[i];
      }
      nodes := np;
    }

    // The new node becomes the last of its chain.
    method Link(n: NgNode, last: NgNode?)
      requires Links() && Sorted(chains, all) && n.next == null && n !in Repr
      requires var c := chains[Bucket(n.h, |chains|)]; last == if c == [] then null else c[|c| - 1]
      modifies this`chains, this`Repr, bkts, Repr
      ensures Links() && Repr == old(Repr) + {n} && |chains| == |old(chains)|
      ensures var b := Bucket(n.h, |chains|); chains == old(chains)[b := old(chains)[b] + [n]]
    {
      hide Bucket;
      var b := Bucket(n.h, bkts.Length);
      ghost var c := chains[b];
      if last == null {
        bkts[b] := n;
      } else {
        assert chains[b][|c| - 1] == last;
        last.next := n;
      }
      forall d | 0 <= d < |chains| && d != b
        ensures Linked(bkts[d], chains[d])
      {
      }
      assert Linked(bkts[b], c + [n]);
      chains := chains[b := c + [n]];
      Repr := Repr + {n};
    }

    // array insert
    method Append(n: NgNode)
      requires Array()
      modifies this`nodes, this`used, this`all, nodes
      ensures Array() && all == old(all) + [n] && (nodes == old(nodes) || fresh(nodes))
    {
      if used == nodes.Length {
        Grow();
      }
      nodes[used] := n;
      used, all := used + 1, all + [n];
    }

    lemma UsedAll()
      requires Array() && Numbered(all, keys)
      ensures |all| == |keys| == used
    {
    }

    // a node for a key that the table does not hold
    method Insert(hash: word, vbuf: seq<byte>, last: NgNode?)
      requires hash == Hash(vbuf) && nodes != bkts && |chains| > 0
      requires Array() && Links() && Numbered(all, keys) && Sorted(chains, all)
      requires var c := chains[Bucket(hash, |chains|)]; last == if c == [] then null else c[|c| - 1]
      modifies this, nodes, bkts, Repr
      ensures Array() && Links() && Numbered(all, keys) && Sorted(chains, all)
      ensures fresh(Repr - old(Repr)) && bkts == old(bkts) && (nodes == old(nodes) || fresh(nodes))
      ensures keys == old(keys) + [vbuf]
    {
      hide NgTable.Array, NgTable.Links, Numbered, Sorted, Bucket, HashFold;
      UsedAll();
      var n := new NgNode(hash, vbuf, used);
      SortedAppend(chains, all, n);
      NumberedAppend(all, keys, n);
      ghost var was, b := chains, Bucket(n.h, |chains|);
      Link(n, last);
      assert chains == was[b := was[b] + [n]];
      Append(n);
      keys := keys + [vbuf];
    }

    // netgroup_node_insert_id
    method InsertId(vbuf: seq<byte>) returns (id: nat)
      requires Valid()
      modifies this, nodes, bkts, Repr
      ensures Valid() && fresh(Repr - old(Repr)) && bkts == old(bkts) && (nodes == old(nodes) || fresh(nodes))
      ensures keys == With(old(keys), vbuf)
      ensures id < |keys| && keys[id] == vbuf
    {
      hide HashFold, Bucket, Linked, Sorted, Numbered;
      var hash := HashDjb(HASH_DJB_INIT, vbuf);
      var found, last := Lookup(hash, vbuf);
      if found != null {
        return found.v;
      }
      UsedAll();
      id := used;
      Insert(hash, vbuf, last);
    }
  }
}
