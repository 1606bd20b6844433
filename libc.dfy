/**
 * The C side of interface enumeration: the singly linked, null-terminated list
 * of `struct ifaddrs` records that `getifaddrs` allocates, and the two libc
 * calls that create and release it.
 */
module Libc {
  import opened Wrappers
  import opened Sockaddr

  /**
   * The payload of one `struct ifaddrs`, everything except the forward link.
   * `ifu` is the slot Linux-like targets declare as the union `ifa_ifu`
   * (broadcast or point-to-point destination); `dstaddr` is the slot other
   * targets declare as `ifa_dstaddr`. A target has only one of the two.
   */
  datatype Entry = Entry(
    name: string,
    flags: bv32,
    addr: SockaddrPtr,
    netmask: SockaddrPtr,
    ifu: SockaddrPtr,
    dstaddr: SockaddrPtr)

  /** A `struct ifaddrs` copied out by value, its `ifa_next` link included. */
  datatype Ifaddrs = Ifaddrs(entry: Entry, next: Node?)

  /** One heap-allocated `struct ifaddrs` of a list built by `getifaddrs`. */
  class Node {
    var entry: Entry
    var next: Node?

    constructor (entry: Entry, next: Node?)
      ensures this.entry == entry && this.next == next
    {
      this.entry := entry;
      this.next := next;
    }

    /** `*p`: the record copied out of this node. */
    function Read(): (v: Ifaddrs)
      reads this
      ensures v.entry == entry && v.next == next
    {
      Ifaddrs(entry, next)
    }
  }

  /**
   * `nodes` is the whole list that starts at `head`: each node links to the
   * next one and the last one links to null (an empty list is a null head).
   */
  ghost predicate IsList(head: Node?, nodes: seq<Node>)
    reads nodes
    decreases |nodes|
  {
    if nodes == [] then head == null
    else head == nodes[0] && IsList(nodes[0].next, nodes[1..])
  }

  /** The cursor after `k` steps along `nodes`: the k-th node, or null past the end. */
  function At(nodes: seq<Node>, k: nat): Node?
  {
    if k < |nodes| then nodes[k] else null
  }

  /** The pointer reached from `p` by following `ifa_next` `k` times (null stays null). */
  ghost function Follow(p: Node?, k: nat): Node?
    reads *
    decreases k
  {
    if k == 0 || p == null then p else Follow(p.next, k - 1)
  }

  /** The records of `nodes`, each copied out by value, in list order. */
  ghost function Items(nodes: seq<Node>): (r: seq<Ifaddrs>)
    reads nodes
    ensures |r| == |nodes|
  {
    if nodes == [] then [] else [nodes[0].Read()] + Items(nodes[1..])
  }

  /** The k-th record of a list is the k-th node's record. */
  lemma {:induction false} ItemsAt(nodes: seq<Node>, k: nat)
    requires k < |nodes|
    ensures Items(nodes)[k] == nodes[k].Read()
    decreases k
  {
    if k > 0 {
      ItemsAt(nodes[1..], k - 1);
    }
  }

  /** The payloads of `nodes`, in list order. */
  ghost function Entries(nodes: seq<Node>): (r: seq<Entry>)
    reads nodes
    ensures |r| == |nodes|
    ensures forall k {:trigger r[k]} :: 0 <= k < |nodes| ==> r[k] == nodes[k].entry
  {
    if nodes == [] then [] else [nodes[0].entry] + Entries(nodes[1..])
  }

  /** The set holding `p` when it is not null, and nothing otherwise. */
  function Heads(p: Node?): set<Node>
  {
    if p == null then {} else {p}
  }

  /** Every suffix of a list is the list that starts at the cursor reached after `k` steps. */
  lemma {:induction false} ListSuffix(head: Node?, nodes: seq<Node>, k: nat)
    requires IsList(head, nodes) && k <= |nodes|
    ensures IsList(At(nodes, k), nodes[k..])
    decreases k
  {
    if k > 0 {
      ListSuffix(nodes[0].next, nodes[1..], k - 1);
      assert nodes[1..][k - 1..] == nodes[k..];
    }
  }

  /** One step along a list: the k-th node links to the cursor at `k + 1`. */
  lemma ListStep(head: Node?, nodes: seq<Node>, k: nat)
    requires IsList(head, nodes) && k < |nodes|
    ensures nodes[k].next == At(nodes, k + 1)
  {
    ListSuffix(head, nodes, k);
    assert nodes[k..][1..] == nodes[k + 1..];
  }

  /** The list is determined by its head: following the links admits only one node sequence. */
  lemma {:induction false} ListUnique(head: Node?, s: seq<Node>, t: seq<Node>)
    requires IsList(head, s) && IsList(head, t)
    ensures s == t
    decreases |s|
  {
    if s != [] {
      assert t != [] && t[0] == s[0];
      ListUnique(s[0].next, s[1..], t[1..]);
      assert s == [s[0]] + s[1..] && t == [t[0]] + t[1..];
    }
  }

  /** A list never visits a node twice, so it is acyclic and its length bounds every traversal. */
  lemma ListDistinct(head: Node?, nodes: seq<Node>)
    requires IsList(head, nodes)
    ensures forall i, j :: 0 <= i < j < |nodes| ==> nodes[i] != nodes[j]
  {
    forall i, j | 0 <= i < j < |nodes|
      ensures nodes[i] != nodes[j]
    {
      ListSuffix(head, nodes, i);
      ListSuffix(head, nodes, j);
      if nodes[i] == nodes[j] {
        ListUnique(nodes[i], nodes[i..], nodes[j..]);
      }
    }
  }

  /**
   * The list is exactly what following the links from `head` reaches before
   * null: `Follow(head, k)` is the k-th node, and the first null comes after
   * `|nodes|` steps.
   */
  lemma {:induction false} ListReachable(head: Node?, nodes: seq<Node>)
    requires IsList(head, nodes)
    ensures Follow(head, |nodes|) == null
    ensures forall k :: 0 <= k < |nodes| ==> Follow(head, k) == nodes[k]
    decreases |nodes|
  {
    if nodes != [] {
      ListReachable(nodes[0].next, nodes[1..]);
      forall k | 0 < k < |nodes|
        ensures Follow(head, k) == nodes[k]
      {
        assert Follow(head, k) == Follow(nodes[0].next, k - 1);
      }
    }
  }

  /** The cursor after `k` steps along a list is the pointer reached by following `k` links from its head. */
  lemma AtFollow(head: Node?, nodes: seq<Node>, k: nat)
    requires IsList(head, nodes) && k <= |nodes|
    ensures At(nodes, k) == Follow(head, k)
  {
    ListReachable(head, nodes);
  }

  /**
   * The records of a list, in order, are the records read at the pointers
   * reached by following the links from `head`, up to the first null; a null
   * head has no records.
   */
  lemma ItemsAlongLinks(head: Node?, nodes: seq<Node>)
    requires IsList(head, nodes)
    ensures head == null ==> Items(nodes) == []
    ensures Follow(head, |Items(nodes)|) == null
    ensures forall k :: 0 <= k < |Items(nodes)| ==> Follow(head, k) != null && Items(nodes)[k] == Follow(head, k).Read()
  {
    ListReachable(head, nodes);
    forall k | 0 <= k < |nodes|
      ensures Items(nodes)[k] == Follow(head, k).Read()
    {
      ItemsAt(nodes, k);
    }
  }

  /** The records of a suffix: the record under the cursor, then the rest. */
  lemma ItemsSuffix(nodes: seq<Node>, k: nat)
    requires k < |nodes|
    ensures Items(nodes[k..]) == [nodes[k].Read()] + Items(nodes[k + 1..])
  {
  }

  /** The state of the C library this model touches. */
  class CLibrary {
    /** The thread's `errno`, read by `io::Error::last_os_error`. */
    var errno: int
    /** Heads of the lists `getifaddrs` has handed out and `freeifaddrs` has not yet taken back. */
    ghost var live: set<Node>
    /** Every pointer passed to `freeifaddrs`, in call order. */
    ghost var freeLog: seq<Node?>

    constructor ()
      ensures errno == 0 && live == {} && freeLog == []
    {
      errno := 0;
      live := {};
      freeLog := [];
    }

    /**
     * `getifaddrs(&ifap)`. What the kernel reports is a parameter: `failure`
     * is `Some(e)` when the call fails with `errno` set to `e`, and otherwise
     * `interfaces` are the entries the new list holds, in order. On success
     * the list is freshly allocated and its head becomes live; on failure
     * nothing is allocated and `ifap` is left unset (modelled as null).
     */
    method GetIfAddrs(interfaces: seq<Entry>, failure: Option<int>)
      returns (rc: int, ifap: Node?, ghost nodes: seq<Node>)
      modifies this
      ensures freeLog == old(freeLog)
      ensures failure.Some? ==> rc == -1 && errno == failure.value && live == old(live)
      ensures failure.None? ==> rc == 0 && errno == old(errno)
      ensures failure.None? ==> IsList(ifap, nodes) && Entries(nodes) == interfaces
      ensures failure.None? ==> (forall n :: n in nodes ==> fresh(n)) && live == old(live) + Heads(ifap)
    {
      if failure.Some? {
        errno := failure.value;
        return -1, null, [];
      }
      ifap, nodes := null, [];
      var i := |interfaces|;
      while i > 0
        invariant 0 <= i <= |interfaces|
        invariant IsList(ifap, nodes) && Entries(nodes) == interfaces[i..]
        invariant forall n :: n in nodes ==> fresh(n)
        invariant unchanged(this)
      {
        i := i - 1;
        var n := new Node(interfaces[i], ifap);
        ifap, nodes := n, [n] + nodes;
      }
      rc := 0;
      live := live + Heads(ifap);
    }

    /**
     * `freeifaddrs(ifa)`: releases the list whose head is `ifa`. Its caller
     * must pass a head still live (or null): a second release of the same
     * list is excluded.
     */
    method FreeIfAddrs(ifa: Node?)
      requires ifa == null || ifa in live
      modifies this
      ensures errno == old(errno)
      ensures live == old(live) - Heads(ifa)
      ensures freeLog == old(freeLog) + [ifa]
    {
      live := live - Heads(ifa);
      freeLog := freeLog + [ifa];
    }
  }
}
