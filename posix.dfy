/**
 * The interface-list handle of `src/posix.rs`, its iterator, and the helper
 * that reads an interface's broadcast or destination address.
 */
module Posix {
  import opened Wrappers
  import opened Sockaddr
  import opened Libc

  /** An `io::Error` built from the OS error code (`errno`). */
  datatype OsError = OsError(code: int)

  /**
   * The `target_os` values whose `struct ifaddrs` declares the union field
   * `ifa_ifu`. The build target is fixed at compile time, so operations that
   * depend on it take it as a constant parameter.
   */
  const LinuxLike: set<string> := {"linux", "android", "l4re", "emscripten", "fuchsia", "hurd", "nacl"}

  /**
   * `do_broadcast`: the broadcast (or point-to-point destination) address of
   * one record, as translated by `toIpAddr` (the source's `sockaddr::to_ipaddr`).
   */
  function DoBroadcast(targetOs: string, ifaddr: Ifaddrs, toIpAddr: SockaddrPtr -> Option<IpAddr>): (r: Option<IpAddr>)
    ensures targetOs in LinuxLike ==> r == toIpAddr(ifaddr.entry.ifu)
    ensures targetOs !in LinuxLike ==> r == toIpAddr(ifaddr.entry.dstaddr)
  {
    var sockaddr := if targetOs in LinuxLike then ifaddr.entry.ifu else ifaddr.entry.dstaddr;
    toIpAddr(sockaddr)
  }

  /**
   * A translation that maps the null pointer to `None` makes `DoBroadcast`
   * answer `None` for a record whose selected slot is null, whatever the
   * other slot holds.
   */
  lemma DoBroadcastNullSlot(targetOs: string, ifaddr: Ifaddrs, toIpAddr: SockaddrPtr -> Option<IpAddr>)
    requires toIpAddr(None) == None
    requires (if targetOs in LinuxLike then ifaddr.entry.ifu else ifaddr.entry.dstaddr) == None
    ensures DoBroadcast(targetOs, ifaddr, toIpAddr) == None
  {
  }

  /**
   * Only the slot the build target declares is read: two records that agree
   * on it have the same broadcast address, whatever the other slot holds.
   */
  lemma DoBroadcastReadsOneSlot(targetOs: string, a: Ifaddrs, b: Ifaddrs, toIpAddr: SockaddrPtr -> Option<IpAddr>)
    requires targetOs in LinuxLike ==> a.entry.ifu == b.entry.ifu
    requires targetOs !in LinuxLike ==> a.entry.dstaddr == b.entry.dstaddr
    ensures DoBroadcast(targetOs, a, toIpAddr) == DoBroadcast(targetOs, b, toIpAddr)
  {
  }

  /**
   * `IfAddrs`: owns the list `getifaddrs` returned, through its head `inner`.
   * `nodes` is the list, `os` the C library it came from, and `freed` records
   * that `drop` has run.
   */
  class IfAddrs {
    var inner: Node?
    ghost var nodes: seq<Node>
    ghost var freed: bool
    ghost const os: CLibrary

    /** `inner` heads `nodes`, and until the handle is dropped its list is still allocated. */
    ghost predicate Valid()
      reads this, nodes, os
    {
      IsList(inner, nodes) && (!freed && inner != null ==> inner in os.live)
    }

    /** The struct literal `IfAddrs { inner }`. */
    constructor Wrap(inner: Node?, ghost nodes: seq<Node>, ghost os: CLibrary)
      requires IsList(inner, nodes) && (inner != null ==> inner in os.live)
      ensures Valid() && !freed
      ensures this.inner == inner && this.nodes == nodes && this.os == os
    {
      this.inner := inner;
      this.nodes := nodes;
      this.freed := false;
      this.os := os;
    }

    /**
     * `IfAddrs::new`: one `getifaddrs` call. A `-1` return becomes the OS
     * error and no handle; otherwise the handle owns the list just allocated.
     */
    static method New(libc: CLibrary, interfaces: seq<Entry>, failure: Option<int>)
      returns (r: Result<IfAddrs, OsError>)
      modifies libc
      ensures libc.freeLog == old(libc.freeLog)
      ensures failure.Some? ==> libc.errno == failure.value
      ensures failure.None? ==> libc.errno == old(libc.errno)
      ensures failure.Some? ==> r == Err(OsError(failure.value)) && libc.live == old(libc.live)
      ensures failure.None? ==> r.Ok? && fresh(r.value) && r.value.Valid() && !r.value.freed && r.value.os == libc
      ensures failure.None? ==> Entries(r.value.nodes) == interfaces && (forall n :: n in r.value.nodes ==> fresh(n))
      ensures failure.None? ==> libc.live == old(libc.live) + Heads(r.value.inner)
    {
      var rc: int, ifap: Node?;
      ghost var nodes: seq<Node>;
      rc, ifap, nodes := libc.GetIfAddrs(interfaces, failure);
      if -1 == rc {
        return Err(OsError(libc.errno));
      }
      var handle := new IfAddrs.Wrap(ifap, nodes, libc);
      return Ok(handle);
    }

    /** `iter`: a new cursor at the stored head; the handle is left as it was. */
    method Iter() returns (it: IfAddrsIterator)
      requires Valid()
      ensures fresh(it) && it.Valid() && it.owner == this
      ensures it.next == inner && it.pos == 0 && it.Remaining() == Items(nodes)
    {
      it := new IfAddrsIterator.Start(inner, this);
    }

    /** `Drop::drop`: one `freeifaddrs` call on exactly the stored head. */
    method Drop(libc: CLibrary)
      requires Valid() && !freed && libc == os
      modifies this, libc
      ensures Valid() && freed && inner == old(inner) && nodes == old(nodes)
      ensures libc.freeLog == old(libc.freeLog) + [inner]
      ensures libc.live == old(libc.live) - Heads(inner)
      ensures libc.errno == old(libc.errno)
    {
      libc.FreeIfAddrs(inner);
      freed := true;
    }
  }

  /**
   * `IfAddrsIterator`: a cursor into a handle's list. `owner` is the handle
   * the cursor was taken from and `pos` how many records it has yielded; the
   * Rust type holds only the raw pointer and no borrow of the handle, so
   * `Next` requires the handle not to have been dropped.
   */
  class IfAddrsIterator {
    var next: Node?
    ghost const owner: IfAddrs
    ghost var pos: nat

    /** The cursor is the `pos`-th node of its owner's list, or null once past the end. */
    ghost predicate Valid()
      reads this, owner, owner.nodes, owner.os
    {
      owner.Valid() && pos <= |owner.nodes| && next == At(owner.nodes, pos)
    }

    /** The records still to be yielded. */
    ghost function Remaining(): seq<Ifaddrs>
      reads this, owner, owner.nodes
      requires pos <= |owner.nodes|
    {
      Items(owner.nodes[pos..])
    }

    /** The struct literal `IfAddrsIterator { next: head }`. */
    constructor Start(head: Node?, ghost owner: IfAddrs)
      requires owner.Valid() && head == owner.inner
      ensures Valid() && this.owner == owner && next == head && pos == 0
    {
      this.next := head;
      this.owner := owner;
      this.pos := 0;
    }

    /**
     * `Iterator::next`: on a null cursor, `None` and the cursor stays null;
     * otherwise the record under the cursor, copied out, and the cursor
     * moves to that record's `ifa_next`. No list node is written.
     */
    method Next() returns (item: Option<Ifaddrs>)
      requires Valid() && !owner.freed
      modifies this
      ensures Valid() && pos <= |owner.nodes|
      ensures old(next) == null ==> item == None && next == null && pos == old(pos)
      ensures old(next) != null ==> item == Some(old(next.Read())) && next == old(next.next) && pos == old(pos) + 1
      ensures item.None? <==> old(Remaining()) == []
      ensures item.Some? ==> item.value == old(Remaining())[0] && Remaining() == old(Remaining())[1..]
    {
      if next == null {
        return None;
      }
      ListStep(owner.inner, owner.nodes, pos);
      ItemsSuffix(owner.nodes, pos);
      var result := next.Read();
      next := next.next;
      pos := pos + 1;
      return Some(result);
    }
  }

  /**
   * A full traversal `handle.iter()` driven to its end. It yields the records
   * in link order, as many as there are nodes before the first null link,
   * and leaves the handle untouched, so every traversal of one handle yields
   * the same records.
   */
  method Collect(h: IfAddrs) returns (items: seq<Ifaddrs>)
    requires h.Valid() && !h.freed
    ensures items == Items(h.nodes)
    ensures h.inner == null ==> items == []
    ensures Follow(h.inner, |items|) == null
    ensures forall k :: 0 <= k < |items| ==> Follow(h.inner, k) != null && items[k] == Follow(h.inner, k).Read()
  {
    var it := h.Iter();
    assert h.nodes[0..] == h.nodes;
    items := Drain(it);
    ItemsAlongLinks(h.inner, h.nodes);
  }

  /**
   * The `for` loop over an iterator: calls `next` until it yields `None`.
   * The records collected are exactly those the cursor still had to yield,
   * in order, and the cursor ends null, past the last node.
   */
  method Drain(it: IfAddrsIterator) returns (items: seq<Ifaddrs>)
    requires it.Valid() && !it.owner.freed
    modifies it
    ensures it.Valid() && it.next == null && it.pos == |it.owner.nodes|
    ensures items == old(it.Remaining())
  {
    ghost var all := it.Remaining();
    items := [];
    while true
      invariant it.Valid() && items + it.Remaining() == all
      decreases |it.owner.nodes| - it.pos
    {
      ghost var rest := it.Remaining();
      var item := it.Next();
      if item.None? {
        break;
      }
      ShiftOne(items, rest, it.Remaining(), all);
      items := items + [item.value];
    }
  }

  /** Moving the first record still to come onto the end of those taken keeps their concatenation. */
  lemma ShiftOne<T>(taken: seq<T>, rest: seq<T>, tail: seq<T>, all: seq<T>)
    requires taken + rest == all && rest != [] && tail == rest[1..]
    ensures (taken + [rest[0]]) + tail == all
  {
    assert rest == [rest[0]] + tail;
    assert (taken + [rest[0]]) + tail == taken + rest;
  }

  /**
   * Acquire, traverse and release, as a scope that owns an `IfAddrs` does:
   * on failure the OS error and nothing allocated; on success one record per
   * interface, and the list freed exactly once, so no list is leaked.
   */
  method Snapshot(libc: CLibrary, interfaces: seq<Entry>, failure: Option<int>)
    returns (r: Result<seq<Ifaddrs>, OsError>)
    modifies libc
    ensures libc.live == old(libc.live)
    ensures failure.Some? ==> libc.errno == failure.value
    ensures failure.None? ==> libc.errno == old(libc.errno)
    ensures failure.Some? ==> r == Err(OsError(failure.value)) && libc.freeLog == old(libc.freeLog)
    ensures failure.None? ==> r.Ok? && |r.value| == |interfaces|
    ensures failure.None? ==> forall k :: 0 <= k < |interfaces| ==> r.value[k].entry == interfaces[k]
    ensures failure.None? ==> |libc.freeLog| == |old(libc.freeLog)| + 1
    ensures failure.None? ==> libc.freeLog[..|old(libc.freeLog)|] == old(libc.freeLog)
    ensures failure.None? ==> (libc.freeLog[|old(libc.freeLog)|] == null <==> interfaces == [])
    ensures failure.None? ==> libc.freeLog[|old(libc.freeLog)|] !in old(libc.live)
    ensures failure.None? ==> libc.freeLog[|old(libc.freeLog)|] == null || libc.freeLog[|old(libc.freeLog)|] !in old(libc.freeLog)
  {
    var handle := IfAddrs.New(libc, interfaces, failure);
    if handle.Err? {
      return Err(handle.error);
    }
    var h := handle.value;
    ghost var added := Heads(h.inner);
    assert h.inner != null ==> h.inner == h.nodes[0] && h.nodes[0] in h.nodes;
    assert h.inner != null ==> h.inner !in old(libc.live);
    assert added !! old(libc.live);
    var items := Collect(h);
    forall k | 0 <= k < |items|
      ensures items[k].entry == interfaces[k]
    {
      ItemsAt(h.nodes, k);
    }
    h.Drop(libc);
    assert libc.freeLog[..|old(libc.freeLog)|] == old(libc.freeLog);
    assert libc.live == old(libc.live) + added - added;
    return Ok(items);
  }
}
