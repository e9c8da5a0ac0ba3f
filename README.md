# Segment-chain byte store of the `inverter` device, in Dafny

This project models the storage engine of the `inverter` character device and
of its prototype `hello`. Each device keeps its bytes in a doubly linked chain
of fixed-size nodes. The first node, the root, is embedded in the device and
is never freed. A device also keeps a logical `size` and a view flag, and the
view flag is chosen at open time by the minor number. In `inverter`:

- in the plain view, reads return the stored bytes in order;
- in the inverted view, reads return them back to front, and writes are
  refused.

In `hello` the flag is set at open but has no effect: `hello_write` never
checks it, and `hello_read` (not modelled) never reads it.

The model has four modules, one file each:

- `segments.dfy` (module `Segments`) holds the value-level vocabulary:
  - `Concat` joins node blocks into one byte sequence;
  - `Splice` writes bytes over a sequence at an offset;
  - `Pad` grows a sequence with the `'e'` sentinel;
  - `Reversed` and `Filled`;
  - the errno and `whence` constants;
  - the lemmas that relate these.
- `list.dfy` (module `List`) is list.h and list.c. The class `Chain` is an
  arena of node blocks (`data`) with explicit `next` and `prev` index links.
  `Valid()` says the root is at index 0, node i links to i + 1 and back, and
  the tail's `next` is `Null`. `Content()` is the node blocks concatenated in
  chain order. `list_extend` and `list_trunc` are methods that rewire the links
  in place. Their contracts are stated against `Content()` and the links.
- `inverter.dfy` (module `Inverter`) is inverter_core.c:
  - the read helpers and the write walk are methods over a `Chain`, with the
    source's loops;
  - `Store` is `struct inverter_dev`: the chain, `size`, `invert`, and the
    `_written` and `_new_nodes` counters;
  - `PlainView` and `MirroredView` specify what each view shows;
  - each operation is proved against `Content()` and these views.
- `hello.dfy` (module `Hello`) is hello.c. It has its own chain class
  `HelloChain`, with 4-cell nodes and an `'x'`-filled root, and the device
  `HelloDev`. Its `hello_list_extend` orphans successors and its
  `hello_list_trunc` leaves a dangling link. The model keeps both, and
  `orphans` records the cut-off node data as ghost state.

The caller's buffer is a parameter: `room` accessible bytes for a read, or the
sequence `u` of readable bytes for a write. A copy call faults exactly when it
reaches past those bytes. The faulting call copies nothing, and the copies
before it stay done. The open flags (`O_APPEND`, `O_TRUNC`) and the minor
number are parameters. A file position is a parameter and a result.

## Model

| member | source | states |
|---|---|---|
| List.Chain.constructor | inverter_core.c:334-337 | the root alone: both links `Null`, one zero-filled node, so `Valid()` holds |
| List.Chain.Extend | list.c:11-26 | returns `Null` exactly when `pnode` already has a successor or the allocation fails, and then nothing changes; otherwise `pnode` is the tail, the new node is the new tail with `prev == pnode` and `next == Null`, it is filled with `'e'`, the content grows by 1008 sentinels, and the chain stays doubly linked |
| List.Chain.Trunc | list.c:29-41 | every node after `pnode` is freed, and `freed` counts exactly the nodes that followed it; `pnode`'s data and `prev` and every node before it are unchanged; `pnode`'s `next` becomes `Null`; the content is its old prefix up to the end of `pnode`; the chain stays doubly linked; with no successor it is a no-op |
| List.Chain.ContentAt | inverter_core.c:135-145 | offset resolution: content byte q is cell q % 1008 of the node q / 1008 links from the root, and that node exists |
| List.Chain.Put | inverter_core.c:277-279 | a copy into node j from cell a changes only content bytes [j * 1008 + a, j * 1008 + a + \|b\|), and these become b; links unchanged |
| Inverter.MirroredIsReversedPlain | inverter_core.c:179-181 | the inverted view of [pos, pos + n) is the plain view of [size - pos - n, size - pos) reversed |
| Inverter.WrittenReadsBackPlain | inverter_core.c:129-172 | after a write of w at p leaves the store as bytes b[..p] + w, the plain view of \|w\| bytes at p is w |
| Inverter.WrittenReadsBackInverted | inverter_core.c:174-234 | the inverted view of a store holding b[..p] + w, read from 0 for \|w\| bytes, is w reversed |
| Inverter.WriteThenReadPlain | inverter_core.c:236-304 | on the device in the plain view, the min(\|u\|, 128 KiB) bytes of u written at p <= size are exactly what a read of that many bytes at p returns |
| Inverter.WriteThenReadInverted | inverter_core.c:65-90 | after that write and a reopen on the inverted minor without `O_TRUNC`, a read from 0 of that many bytes returns the written bytes reversed |
| Inverter.Delivered | inverter_core.c:146-168 | the bytes a run of block copies delivers into a room of `room` bytes, a first block of `first` bytes and then whole nodes: at most `room`, and when the first block fits, within one node of `room` |
| Inverter.Skip | inverter_core.c:138-145 | walking k `next` links from the root reaches node k when it exists, and otherwise `Null` (the -1 branch) |
| Inverter.ReadPlain | inverter_core.c:129-172 | returns s, -1 or -EFAULT; -1 exactly when the start node is missing, or when a `next` is `Null` before s bytes are covered and no copy has faulted first; -EFAULT exactly when the caller has fewer than s bytes of room; on success the output is the content slice [pos, pos + s) and the position moves by s; on failure the position is kept and the bytes already copied are a prefix of that slice; on -EFAULT they are exactly the blocks before the faulting one, `Delivered(min(s, 1008 - pos % 1008), room)`; on -1 after the start node is found they are every byte from pos to the end of the chain |
| Inverter.CopyForward | inverter_core.c:154-168 | the forward copy loop: each step follows one `next` link and copies up to 1008 bytes; -1 when a `next` is `Null` too early, with every byte from pos to the end of the chain delivered; -EFAULT when a copy reaches past the room, with exactly the blocks before it delivered; the output is always the content slice starting at pos |
| Inverter.CopyDown | inverter_core.c:199-208 | the downward cell-by-cell copy from cell hi down to lo: output byte t is content byte top - t; it fails exactly when the room runs out, and then the output is cut at the room |
| Inverter.ReadInverted | inverter_core.c:174-234 | returns s, -1 or -EFAULT; -1 exactly when the node of byte devSize - pos - 1 is missing; -EFAULT exactly when the room is below s; otherwise the output is the inverted view (byte t is stored byte devSize - 1 - pos - t), in full on success and cut at the room on a fault; the walk back through `prev` never meets `Null` |
| Inverter.Store.constructor | inverter_core.c:334-337 | the device starts with a lone zero-filled root, size 0, the plain view and zero counters |
| Inverter.Store.Open | inverter_core.c:65-90 | resets both counters; under `O_TRUNC` it truncates the chain to the root with its data and sets size 0; otherwise it leaves the chain and size alone; `invert == (minor != 0)` |
| Inverter.Store.Read | inverter_core.c:100-127 | -1 with nothing copied when pos > size; the length is clamped to size - pos; a clamped length of 0 returns 0 and keeps the position; otherwise it returns the clamped length n and the view's n bytes, or -EFAULT exactly when the room is below n, with a prefix of them: `room` bytes in the inverted view, which copies byte by byte, and the whole blocks that fit (`Delivered`) in the plain view; the "Something's wrong" -1 branches are never taken |
| Inverter.Store.Write | inverter_core.c:236-304 | -EACCES in the inverted view and -EFBIG when the position (after `O_APPEND` moves it to size) is past size, both with no state change; otherwise n = min(s, 128 KiB) bytes are spliced into the content at p over the old bytes padded with sentinels, and every other byte is unchanged; on success size = newPos = p + n, `_written` grows by n, the bytes are the old bytes before p followed by the input, and the chain has max(old node count, index of the node of the last written byte + 1) nodes, so existing nodes are never replaced; `_new_nodes` counts exactly the added nodes; -EFAULT exactly when fewer than n bytes are readable, keeping size and `_written` and the copied prefix, which is exactly the blocks before the faulting copy (`Delivered(min(n, 1008 - p % 1008), \|u\|)`), with the chain ending at the node of byte p + copied: max(old node count, (p + copied) / 1008 + 1) nodes |
| Inverter.Store.WriteAt | inverter_core.c:263-298 | the accepted part of the write at p <= size: the same splice, growth, counter, size and fault facts as Write, including the node count after a fault |
| Inverter.WalkExtend | inverter_core.c:267-273 | walking k links from the root, extending one sentinel node whenever `next` is `Null`, reaches node k; the chain has max(old count, k + 1) nodes and the old content followed by sentinels |
| Inverter.CopyIn | inverter_core.c:274-295 | the first partial-node copy and then whole nodes: the content is the splice of the first `done` input bytes at p, and done == n exactly when the input has n bytes, otherwise done is the whole blocks that fit in \|u\| and the walk stopped at the node holding byte p + done; a missing successor is added before each step, and existing nodes are kept |
| Inverter.CopyBlocks | inverter_core.c:282-295 | the whole-node loop keeps the content equal to the splice of the bytes copied so far, and grows the chain one node at a time up to the node of the last byte; a fault leaves exactly the whole blocks that fit in \|u\| copied, with the walk at the node that starts at byte p + done, the last one linked |
| Inverter.Step | inverter_core.c:282-294 | one turn of that loop: move to the next node, extending when `next` is `Null`, then copy min(left, 1008) bytes into its first cells exactly when they are readable, counting them off; the content stays the splice of the bytes copied so far, and the position facts the loop needs hold again |
| Inverter.Advance | inverter_core.c:283-287 | links a sentinel node after `pnode` only when it has no successor, then moves to the successor; the chain has max(count, pnode + 2) nodes, `grew` counts the added node, and the bytes written so far stay |
| Inverter.CopyBlock | inverter_core.c:277-280 | one `copy_from_user` of m bytes of u into node j from cell off, where byte p + done lives: the content becomes the splice of u[..done + m] at p, with the node count unchanged (also the copy at 288-293) |
| Inverter.Store.Llseek | inverter_core.c:307-329 | for SEEK_SET, SEEK_CUR and SEEK_END the target is l, f_pos + l or size + l; it returns -1 and keeps the position exactly when the target is negative or at least size; otherwise the position becomes the target, which is below size; SEEK_END succeeds only for -size <= l < 0; an unknown whence keeps the position |
| Hello.HelloChain.constructor | hello.c:240-243 | the root alone, both links `Null`, filled with `'x'` |
| Hello.HelloChain.Extend | hello.c:33-43 | returns `Null` and changes nothing exactly when the allocation fails; otherwise the new `'e'` node becomes `pnode`'s successor and the tail, with `prev == pnode`, whatever followed `pnode`; the old successors move to `orphans` and the content is cut after `pnode` before the new sentinels are added |
| Hello.HelloChain.Trunc | hello.c:46-54 | frees every node after `pnode` and keeps `pnode` and the nodes before it as they were; with no successor it is a no-op; with one, `pnode`'s `next` still names the freed node, so the chain is no longer well formed |
| Hello.HelloChain.SetCell | hello.c:190 | writing cell i of node j changes exactly content byte j * 4 + i |
| Hello.HelloDev.constructor | hello.c:240-245 | the 'x'-filled root, size 0, no stored bytes |
| Hello.HelloDev.Open | hello.c:83-101 | `invert == (minor != 0)`; `O_TRUNC` changes nothing, so the chain and size are unchanged |
| Hello.HelloDev.Write | hello.c:150-212 | -EFBIG with no change when the position is past size (after `O_APPEND` moves it to size); -EFAULT with no change when fewer than s bytes are readable; there is no view check and no length cap; otherwise it returns s, size = newPos = p + s, and the bytes are the old bytes before p followed by the input; when the write stays inside one node, the node count and the bytes after p + s are unchanged; when it crosses a node end the chain ends with a fresh sentinel node after the last written node and everything after p + s is sentinels, replacing any old successors; a write that ends exactly on a node boundary still gets a fresh sentinel node |
| Hello.Walk | hello.c:178-185 | walking k nodes from the root, extending whenever `next` is `Null`, reaches node k; the old content is kept and padded with sentinels |
| Hello.Fill | hello.c:186-202 | the cell-by-cell copy loop: the content before p + \|buf\| is the old bytes before p followed by buf; the node of p + \|buf\| is reached; bytes after it are untouched when no node end was crossed and are the fresh sentinel node otherwise |
| Hello.FillStep | hello.c:187-201 | one turn of the write loop: fill the current node from cell o up to stop, count the bytes off, and when the node is filled to its last cell link a fresh sentinel node and move to it; the content stays the old bytes before p, then the bytes written so far, then the old bytes or sentinels, and the loop's position facts hold again |
| Hello.FillNode | hello.c:189-193 | writing cells [off, stop) of one node from buf puts exactly those bytes of buf into the matching content positions |
| Hello.LinkFresh | hello.c:194-198 | after a node is filled to its last cell, a fresh sentinel node becomes its successor and the tail, and the content after it is 4 sentinels |
| Hello.HelloDev.Llseek | hello.c:215-235 | for SEEK_SET, SEEK_CUR and SEEK_END the target is l, f_pos + l or size + l; it is refused with -1, keeping the position, exactly when the target is at least 50 (not the stored size), and otherwise becomes the position, negative targets included; an unknown whence keeps the position |

## Left out

- Device registration and the module lifecycle are not modelled: the cdev setup, chrdev region allocation, `module_init`/`module_exit`, and the final `list_trunc` of `inverter_exit`. They are kernel plumbing. The constructors model only the root and size initialisation.
- `printk`/`pr_devel` logging and `inverter_release`/`hello_release` are not modelled, because they only log.
- `container_of`/`private_data`: the device is the receiver of each method.
- The kernel's copy routines can copy part of a request and then fault. The model transfers a faulting copy not at all, because the number of bytes copied before the fault is not determined by the code.
- kmalloc failure inside the writes is not modelled: `inverter_write` and `hello_write` ignore the extension's `Null` result, so the walks call `Extend` with a successful allocation. `hello_write`'s unchecked `kmalloc(s)` of its buffer is also not modelled.
- kfree is not modelled as memory: freeing drops the arena's last entry, and nodes orphaned by `hello_list_extend` are kept only as ghost data.
- `hello_read` (hello.c:107-148) is not modelled. It ignores the position and copies whole nodes into a buffer of only s bytes, and its `size_t` counter can wrap. Those out-of-bounds writes have no faithful model.
- Bit widths are not modelled: positions, sizes and counts are unbounded integers. The `size_t` and `loff_t` mixing in `inverter_llseek` is read under 64-bit rules, so a negative target is refused like one at or past size. Wrap-around beyond 2^63 is not modelled, nor are the `(int)` casts of `hello_write` and the `(int) s` casts of `__read_inverted` (inverter_core.c:202, 217, 222), which go wrong for lengths of 2^31 bytes or more.
- Inverter.Store.Read, Inverter.Store.Write and Hello.HelloDev.Write take the position as a natural number, because the kernel refuses negative file positions before read and write reach the driver. Hello.HelloDev.Llseek can produce a negative position, but no write is modelled from one.
- Hello.HelloChain.Trunc: when `pnode` had a successor, the contract states the resulting arrays only; `Content()` is defined only for a well-formed chain.
- List.Chain.Trunc returns the freed count, which `list_trunc` only logs.
- The node sizes are fixed per module: 1008 cells in `List` and 4 in `Hello`, each a literal so that division and remainder by it stay linear for the solver. The inverter engine is therefore not instantiated with 4-cell nodes; the 4-cell behaviour is that of `Hello`.
- Concurrency is not modelled: the source has no locking, and the model is single-threaded.

## Findings

| source | as written | input that shows it | evidently intended | confidence | as-written member | corrected member |
|---|---|---|---|---|---|---|
| hello.c:46-54 | `hello_list_trunc` frees the successors of `pnode` but leaves `pnode->next` pointing at the freed node | a chain of root plus one node, truncated at the root; the root's `next` still names the freed node | clear `pnode->next` after freeing, as list.c:40 does | high, not executed | Hello.HelloChain.Trunc | List.Chain.Trunc |
| hello.c:33-43 | `hello_list_extend` overwrites `pnode->next` whatever followed, so the old successors become unreachable and are never freed | from a device of size 8 (three nodes), write 4 bytes at position 0: the root is filled, a fresh node replaces node 1, and the old nodes 1 and 2 leak | refuse to extend a node that has a successor, as list.c:14-17 does | medium, not executed | Hello.HelloChain.Extend | List.Chain.Extend |
