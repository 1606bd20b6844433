# if-addrs: the POSIX interface-list handle, modelled in Dafny

`src/posix.rs` wraps the C call `getifaddrs`. That call allocates a singly
linked, null-terminated list of `struct ifaddrs` records, one per
(interface, address) pair. The wrapper has three parts:

- `IfAddrs` is a handle that owns the list through its head pointer. It is built
  only when the call succeeds, and its `Drop` hands exactly that pointer to
  `freeifaddrs`.
- `IfAddrsIterator` is a cursor that copies out one record per `next` and moves
  along `ifa_next` until it reaches null.
- `do_broadcast` reads an interface's broadcast or destination address from
  the record slot that the build target declares.

The model has four modules:

- `Wrappers` (`wrappers.dfy`): `Option` and `Result`.
- `Sockaddr` (`sockaddr.dfy`): raw socket addresses (a null pointer is `None`)
  and IP addresses.
- `Libc` (`libc.dfy`): the C side. `Node` is one heap-allocated
  `struct ifaddrs` with a mutable `next` field. `IsList(head, nodes)` says that
  the ghost sequence `nodes` is the list that starts at `head`. The lemmas show
  that a list is determined by its head, visits no node twice and is exactly
  what following `ifa_next` reaches before null. The class `CLibrary` models the
  two foreign calls. `GetIfAddrs` either fails with an `errno` or builds a
  fresh list. `FreeIfAddrs` takes back a list that is still live and records
  each call.
- `Posix` (`posix.dfy`): the code of `src/posix.rs`. `IfAddrs` and
  `IfAddrsIterator` are classes with the source's fields (`inner`, `next`).
  Ghost state (`nodes`, `freed`, `owner`, `pos`) gives their meaning. `Collect`
  drives a fresh iterator to its end, and `Snapshot` runs the handle's whole
  life: acquire, traverse, release.

Parameters stand in for what the OS decides. For `getifaddrs` these are the
entries of the list it returns, or the `errno` it fails with. For
`do_broadcast` they are the build target's `target_os` and the address
translation `sockaddr::to_ipaddr`, which is not part of this model.

## Model

| member | source | states |
|---|---|---|
| `Posix.DoBroadcast` | src/posix.rs:19-45 | The result is the translation of `ifa_ifu` on the seven Linux-like targets. On every other target it is the translation of `ifa_dstaddr`. |
| `Posix.DoBroadcastReadsOneSlot` | src/posix.rs:20-44 | Only the slot the target declares matters: records that agree on it give the same address. |
| `Posix.DoBroadcastNullSlot` | src/posix.rs:30-44 | A null selected slot gives `None`, provided the translation maps null to `None`. |
| `Posix.IfAddrs.New` | src/posix.rs:53-64 | A `-1` from `getifaddrs` gives `Err` carrying `errno`, and no handle or list; `errno` is then the reported error, and on success it is unchanged. Otherwise the result is a fresh, valid, unfreed handle. Its list holds the reported entries in order, and its head is the one pointer that became live. |
| `Posix.IfAddrs.Wrap` | src/posix.rs:60-62 | Builds the handle around the head `getifaddrs` wrote. The handle's `inner` is that head, it owns the list that starts there, and it is not yet freed. |
| `Posix.IfAddrs.Iter` | src/posix.rs:66-68 | Returns a fresh cursor at the stored head, with all of the handle's records still to come. The handle is not modified. |
| `Posix.IfAddrs.Drop` | src/posix.rs:71-78 | Calls `freeifaddrs` exactly once, on exactly the stored head. That list stops being live and the handle is marked freed. A second drop is excluded. |
| `Posix.IfAddrsIterator.Start` | src/posix.rs:67 | The new cursor is the handle's stored head, at position 0 of its list, with nothing yielded yet. |
| `Posix.IfAddrsIterator.Next` | src/posix.rs:88-99 | On a null cursor: `None`, and the cursor stays null. Otherwise it returns the record under the cursor and moves the cursor to that record's `ifa_next`. It returns `None` exactly when no records remain, and each call consumes exactly the first remaining record. Only the cursor changes. |
| `Posix.Collect` | src/posix.rs:84-99 | Driving `iter()` to its end yields the handle's records in link order. Their count is the number of links followed before null. The handle is untouched, so every traversal yields the same records. An empty list yields none. |
| `Posix.Drain` | src/posix.rs:84-99 | Calling `next` until it yields `None` collects exactly the records the cursor still had to yield, in order. The iterator ends valid, with a null cursor past the last node: it is exhausted. |
| `Posix.Snapshot` | src/posix.rs:47-99 | Acquire, traverse, drop. On failure: the OS error, with `errno` set to it and nothing allocated or freed; on success `errno` is unchanged. On success: one record per interface, in order, and exactly one `freeifaddrs` appended to the earlier log. The pointer freed was not live before the call, is not one the earlier log already freed, and is null exactly when there are no interfaces. The set of live lists ends as it began, so nothing leaks and nothing is freed twice. |
| `Libc.CLibrary.GetIfAddrs` | src/posix.rs:57-59 | The foreign call returns `-1` with `errno` set and allocates nothing, or returns `0` with a fresh list of the reported entries whose head becomes live. |
| `Libc.CLibrary.FreeIfAddrs` | src/posix.rs:75 | The foreign call accepts only a live head or null, releases that list and records the pointer. |
| `Libc.Node.Read` | src/posix.rs:94 | Dereferencing a node copies out its payload and its `ifa_next` link. |
| `Libc.AtFollow` | src/posix.rs:93-95 | The cursor after `k` steps is the pointer reached by following `ifa_next` `k` times from the head. |
| `Libc.ListSuffix` | src/posix.rs:93-95 | After `k` steps the cursor heads the list of the remaining nodes. |
| `Libc.ListStep` | src/posix.rs:95 | The `ifa_next` of the k-th node is the cursor position `k + 1`. |
| `Libc.ListUnique` | src/posix.rs:66-68 | A head determines its node sequence, so every traversal started from the stored head meets the same nodes. |
| `Libc.ListDistinct` | src/posix.rs:84-99 | No node occurs twice in a list. The list is therefore acyclic and iteration terminates. |
| `Libc.ListReachable` | src/posix.rs:84-99 | The k-th node is what `k` follows of `ifa_next` reach from the head. Null is reached after exactly as many steps as the list has nodes. |
| `Libc.ItemsAlongLinks` | src/posix.rs:84-99 | The records of a list, in order, are the records read at the pointers reached by following `ifa_next` from the head. Their number is the number of steps to the first null, and a null head has none. |
| `Libc.ItemsAt` | src/posix.rs:94 | The k-th record of a list is the copy of its k-th node. |
| `Libc.ItemsSuffix` | src/posix.rs:93-97 | The records still to come are the record under the cursor followed by those after it. |

## Left out

- `detect_interface_changes` (src/posix.rs:102-136) is left out. It opens a
  netlink socket, binds it, sets a read timeout and does one blocking receive.
  All of it is kernel and socket plumbing with nothing to compute.
- `sockaddr::to_ipaddr` is not part of this model. It is a function parameter
  of `DoBroadcast`, so the byte-level translation of an address is not modelled.
- The real behaviour of `getifaddrs` and `freeifaddrs` is not modelled. What the
  kernel reports is a parameter. `freeifaddrs` only changes the set of live
  heads and the log of calls.
- The layout of `struct ifaddrs` is reduced to the fields that matter. The model
  omits `ifa_data`, treats the `ifa_ifu` union as one slot, and keeps both the
  `ifa_ifu` slot and the `ifa_dstaddr` slot in one record, although a real
  target declares only one of them.
- `MaybeUninit`, the `unsafe` blocks and Rust moves are not modelled, and the
  model does not check that a dereferenced pointer is valid. The copy that a
  dereference makes (`*self.next`) is modelled by `Libc.Node.Read`. `Drop` runs
  at most once because its precondition requires an unfreed handle, not
  because of ownership tracking.
- Posix.Snapshot, Posix.DoBroadcast: a record's payload is held by value. In
  the source, a record that `next` copies out (src/posix.rs:85, 94) keeps
  `ifa_name`, `ifa_addr`, `ifa_netmask`, `ifa_ifu`/`ifa_dstaddr` and
  `ifa_next` as pointers into the list, and `Drop` frees that list
  (src/posix.rs:75). Those pointers are valid only until the handle is
  dropped. The model does not capture this, so it allows reading a record's
  fields after `Drop`, as `Snapshot` returns its records after it and
  `DoBroadcast` may then be applied to them.
- `io::Error` is reduced to the `errno` it carries.
- Libc.CLibrary.GetIfAddrs: the model assumes that a successful call leaves
  `errno` unchanged. C does not guarantee this, because after a successful
  library call the value of `errno` is unspecified. The source never reads
  `errno` on the success path (src/posix.rs:57-62). The success-path `errno`
  clauses of `Posix.IfAddrs.New` and `Posix.Snapshot` rest on this assumption.
- The iterator has no separate exhausted state. Its cursor is the nullable
  `next` pointer, and null is the exhausted state.
- Posix.IfAddrsIterator.Next: the requirement that the handle has not been
  dropped is a caller obligation. The Rust iterator holds a bare pointer with no
  lifetime tied to the handle (src/posix.rs:66-68, 80-82), so nothing in the
  source enforces it, and the model claims no borrow bound.
- Posix.Snapshot: it says nothing about other handles that are live at the same
  time. The handle invariant covers one handle's list and does not cover
  several handles sharing one `CLibrary`.
