/**
 * The storage engine of the `inverter` device (inverter_core.c): a store made
 * of a segment chain, a logical size, a view flag and two diagnostic counters.
 * Minor 0 is the plain view; any other minor is the inverted (mirrored) view,
 * which serves the stored bytes back to front and refuses writes.
 *
 * The caller's buffer is modelled by how many of its bytes are accessible: a
 * copy to or from it faults when it reaches past that many bytes, and the
 * faulting copy transfers nothing while earlier copies stay done.
 */
module Inverter {
  import opened Segments
  import opened List

  /** Largest number of bytes one write accepts (MAX_WRITE_SIZE). */
  const MaxWriteSize: nat := 128 * 1024

  /** What the plain view shows at [pos, pos + n): the stored bytes in order. */
  ghost function PlainView(content: seq<char>, pos: nat, n: nat): seq<char>
    requires pos + n <= |content|
  {
    content[pos..pos + n]
  }

  /** What the inverted view of a store of `size` bytes shows at [pos, pos + n): byte t is stored byte size - 1 - pos - t. */
  ghost function MirroredView(content: seq<char>, size: nat, pos: nat, n: nat): (r: seq<char>)
    requires pos + n <= size && size - pos <= |content|
    ensures |r| == n
  {
    seq(n, t requires 0 <= t < n => content[size - 1 - pos - t])
  }

  /** The inverted view is the plain view of the mirrored range, reversed. */
  lemma MirroredIsReversedPlain(content: seq<char>, size: nat, pos: nat, n: nat)
    requires pos + n <= size && size - pos <= |content|
    ensures MirroredView(content, size, pos, n) == Reversed(PlainView(content, size - pos - n, n))
  {
    var m, p := MirroredView(content, size, pos, n), PlainView(content, size - pos - n, n);
    forall t | 0 <= t < n ensures m[t] == Reversed(p)[t] {
      assert Reversed(p)[t] == p[n - 1 - t];
    }
  }

  /** Index of the last node a write of `n` bytes at `p` reaches (the walk alone reaches p / NodeSize). */
  function LastNode(p: nat, n: nat): nat
  {
    LastByte(p, n) / NodeSize
  }

  /** The position that decides the last node a write of `n` bytes at `p` reaches: its last byte, or p itself when n == 0. */
  function LastByte(p: nat, n: nat): nat
  {
    if n == 0 then p else p + n - 1
  }

  /**
   * How many bytes a run of block copies delivers when the caller's buffer
   * holds only `room` bytes: a first block of `first` bytes, then whole nodes,
   * each copy either done in full or faulting with nothing copied, so the
   * run stops at the last block end within `room`.
   */
  function Delivered(first: nat, room: nat): (r: nat)
    ensures r <= room && (first <= room ==> first <= r && room < r + NodeSize)
  {
    if room < first then 0 else first + (room - first) / NodeSize * NodeSize
  }


  /**
   * The walk both reads begin with: follow `next` from the root `k` times,
   * stopping with Null as soon as a link is missing.
   */
  method Skip(c: Chain, k: nat) returns (pnode: int)
    requires c.Valid()
    ensures pnode == if k < |c.data| then k else Null
  {
    pnode := 0;
    var i := 0;
    while i < k
      invariant 0 <= i <= k && i < |c.data| && pnode == i
    {
      if c.next[pnode] == Null {
        return Null;
      }
      pnode := c.next[pnode];
      i := i + 1;
    }
  }

  /**
   * __read_plain: skip pos / NodeSize links from the root, then copy forward a
   * first block from cell pos % NodeSize and whole blocks after it. Returns -1
   * when a `next` link is Null before the range is covered, -EFAULT when a
   * copy to the caller's `room`-byte buffer faults, and otherwise `s`.
   */
  method ReadPlain(c: Chain, room: nat, s: nat, pos: nat) returns (r: int, out: seq<char>, newPos: nat)
    requires c.Valid()
    ensures r == s || r == -1 || r == -EFAULT
    ensures r == -1 <==> |c.data| <= pos / NodeSize || (c.Capacity() < pos + s && c.Capacity() - pos <= room)
    ensures r == -EFAULT <==> r != -1 && room < s
    ensures r == s ==> newPos == pos + s && pos + s <= c.Capacity() && out == PlainView(c.Content(), pos, s)
    ensures r != s ==> newPos == pos
    ensures |out| <= s && |out| <= room
    ensures out == [] || (pos + |out| <= c.Capacity() && out == c.Content()[pos..pos + |out|])
    ensures r == -EFAULT ==> |out| == Delivered(Min(s, NodeSize - pos % NodeSize), room)
    ensures r == -1 && pos / NodeSize < |c.data| ==> |out| == c.Capacity() - pos
  {
    out, newPos := [], pos;
    var nodesSkip := pos / NodeSize;
    var off := pos % NodeSize;
    var pnode := Skip(c, nodesSkip);
    if pnode == Null {
      return -1, out, newPos;
    }
    var m := Min(s, NodeSize - off);
    if m > room {
      return -EFAULT, out, newPos;
    }
    c.Block(pnode, off, off + m);
    out := c.data[pnode][off..off + m];
    r, out := CopyForward(c, pnode, pos, s, room, out);
    if r == s {
      newPos := pos + s;
    }
  }

  /**
   * The copying loop of __read_plain: `out0` holds the first |out0| requested
   * bytes, ending at the end of node j when more are wanted; copy whole blocks
   * from the nodes after j until `s` bytes are out.
   */
  method CopyForward(c: Chain, j: nat, pos: nat, s: nat, room: nat, out0: seq<char>) returns (r: int, out: seq<char>)
    requires c.Valid() && j < |c.data| && |out0| <= s && |out0| <= room
    requires pos + |out0| <= (j + 1) * NodeSize && (|out0| < s ==> pos + |out0| == (j + 1) * NodeSize)
    requires out0 == c.Content()[pos..pos + |out0|]
    ensures r == s || r == -1 || r == -EFAULT
    ensures r == -1 <==> c.Capacity() < pos + s && c.Capacity() - pos <= room
    ensures r == -EFAULT <==> r != -1 && room < s
    ensures r == s ==> pos + s <= c.Capacity() && |out| == s
    ensures |out| <= s && |out| <= room && pos + |out| <= c.Capacity() && out == c.Content()[pos..pos + |out|]
    ensures r == -EFAULT ==> |out| == Delivered(|out0|, room)
    ensures r == -1 ==> |out| == c.Capacity() - pos
  {
    out := out0;
    var pnode := j;
    var left: nat := s - |out|;
    while left > 0
      invariant j <= pnode < |c.data| && |out| + left == s && |out| <= room
      invariant pos + |out| <= (pnode + 1) * NodeSize <= c.Capacity()
      invariant left > 0 ==> pos + |out| == (pnode + 1) * NodeSize
      invariant out == c.Content()[pos..pos + |out|]
    {
      if c.next[pnode] == Null {
        assert c.Capacity() == pos + |out| < pos + s;
        return -1, out;
      }
      pnode := c.next[pnode];
      var m := Min(left, NodeSize);
      if |out| + m > room {
        assert pos + |out| + m <= c.Capacity();
        DivModUnique(room - |out0|, NodeSize, pnode - 1 - j, room - |out|);
        return -EFAULT, out;
      }
      c.BlockAfter(pos, out, pnode, m);
      out := out + c.data[pnode][..m];
      left := left - m;
    }
    r := s;
  }

  /**
   * The byte loop of __read_inverted: copy cells hi, hi - 1, ..., lo of node j
   * one at a time after `out0`, stopping at the first copy that would reach
   * past the caller's `room` bytes; `ok` says whether every copy succeeded.
   * Output byte t holds stored byte top - t.
   */
  method CopyDown(c: Chain, j: nat, hi: int, lo: int, room: nat, out0: seq<char>, ghost top: int) returns (ok: bool, out: seq<char>)
    requires c.Valid() && j < |c.data| && 0 <= lo && lo - 1 <= hi < NodeSize && |out0| <= room
    requires top < c.Capacity() && top - |out0| == j * NodeSize + hi
    requires forall t :: 0 <= t < |out0| ==> out0[t] == c.Content()[top - t]
    ensures ok <==> |out0| + (hi - lo + 1) <= room
    ensures |out| == Min(|out0| + (hi - lo + 1), room) && out[..|out0|] == out0
    ensures forall t :: 0 <= t < |out| ==> out[t] == c.Content()[top - t]
  {
    out := out0;
    var i := hi;
    while i >= lo
      invariant lo - 1 <= i <= hi && |out| <= room && |out| == |out0| + (hi - i)
      invariant top - |out| == j * NodeSize + i && out[..|out0|] == out0
      invariant forall t :: 0 <= t < |out| ==> out[t] == c.Content()[top - t]
    {
      if |out| + 1 > room {
        return false, out;
      }
      c.Cell(j, i);
      out := out + [c.data[j][i]];
      i := i - 1;
    }
    ok := true;
  }

  /**
   * __read_inverted: output byte t is stored byte devSize - 1 - pos - t. Skip
   * (devSize - pos - 1) / NodeSize links from the root, copy that node's cells
   * downward one byte at a time, then walk back through `prev` copying whole
   * nodes from their last cell down. The caller (Read) passes 0 < s and
   * pos + s <= devSize, so the walk back never meets a Null `prev`.
   */
  method ReadInverted(c: Chain, room: nat, s: nat, devSize: nat, pos: nat) returns (r: int, out: seq<char>, newPos: nat)
    requires c.Valid() && 0 < s && pos + s <= devSize
    ensures r == s || r == -1 || r == -EFAULT
    ensures r == -1 <==> |c.data| <= (devSize - pos - 1) / NodeSize
    ensures r == -EFAULT <==> r != -1 && room < s
    ensures r == s ==> newPos == pos + s
    ensures r != s ==> newPos == pos
    ensures r == -1 ==> out == []
    ensures r != -1 ==> && devSize <= c.Capacity() + pos
                        && |out| == Min(s, room)
                        && out == MirroredView(c.Content(), devSize, pos, s)[..|out|]
  {
    out, newPos := [], pos;
    var fPosInv := devSize - pos - 1;
    var nodesSkip := fPosInv / NodeSize;
    var off := fPosInv % NodeSize;
    var pnode := Skip(c, nodesSkip);
    if pnode == Null {
      return -1, out, newPos;
    }
    var ok;
    ok, out := CopyDown(c, pnode, off, Max(off - s + 1, 0), room, [], fPosInv);
    if !ok {
      return -EFAULT, out, newPos;
    }
    var left: nat := s - |out|;
    while left > 0
      invariant pnode < |c.data| && |out| + left == s && |out| <= room && |out| <= fPosInv + 1 < c.Capacity() + 1
      invariant left > 0 ==> fPosInv - |out| + 1 == pnode * NodeSize
      invariant forall t :: 0 <= t < |out| ==> out[t] == c.Content()[fPosInv - t]
    {
      // The source returns -1 here when `prev` is Null; pos + s <= devSize rules that out.
      assert c.prev[pnode] != Null;
      pnode := c.prev[pnode];
      ok, out := CopyDown(c, pnode, NodeSize - 1, Max(NodeSize - left, 0), room, out, fPosInv);
      if !ok {
        return -EFAULT, out, newPos;
      }
      left := s - |out|;
    }
    assert |out| == s && s <= room;
    newPos := pos + s;
    r := s;
  }

  /**
   * The device (struct inverter_dev): the chain, the logical size, the view
   * flag of the last open, and the counters of bytes written and nodes added
   * since that open.
   */
  class Store {
    const chain: Chain
    var size: nat
    var invert: bool
    var written: nat
    var newNodes: nat

    /** The chain is well formed and holds at least `size` bytes. */
    ghost predicate Valid()
      reads this, chain
    {
      chain.Valid() && size <= chain.Capacity()
    }

    /** The logical content: the first `size` stored bytes. */
    ghost function Bytes(): (r: seq<char>)
      reads this, chain
      requires Valid()
      ensures |r| == size
    {
      chain.Content()[..size]
    }

    /** What a reader at `pos` is shown for `n` bytes in the current view. */
    ghost function Shown(pos: nat, n: nat): (r: seq<char>)
      reads this, chain
      requires Valid() && pos + n <= size
      ensures |r| == n
    {
      if invert then MirroredView(Bytes(), size, pos, n) else PlainView(Bytes(), pos, n)
    }

    /** inverter_init's part on the store: a lone root, size 0. */
    constructor ()
      ensures Valid() && fresh(chain) && chain.data == [Filled('\0', NodeSize)]
      ensures size == 0 && !invert && written == 0 && newNodes == 0
    {
      chain := new Chain();
      size := 0;
      invert := false;
      written := 0;
      newNodes := 0;
    }

    /**
     * inverter_open on the store: reset the counters, under O_TRUNC free every
     * node after the root and empty the store, and pick the view by minor.
     */
    method Open(trunc: bool, minor: nat) returns (r: int)
      requires Valid()
      modifies this, chain
      ensures Valid() && r == 0
      ensures written == 0 && newNodes == 0 && invert == (minor != 0)
      ensures trunc ==> size == 0 && chain.data == [old(chain.data[0])] && chain.next == [Null] && chain.prev == [Null]
      ensures !trunc ==> size == old(size) && unchanged(chain)
    {
      written := 0;
      newNodes := 0;
      if trunc {
        var freed := chain.Trunc(0);
        size := 0;
      }
      invert := minor != 0;
      r := 0;
    }

    /**
     * inverter_read: -1 past the end, otherwise the request is clamped to the
     * bytes left, an empty request returns 0, and the view's helper does the
     * copy. Its "Something's wrong" branches are never taken: Valid() keeps
     * `size` within the chain's capacity.
     */
    method Read(room: nat, s: nat, pos: nat) returns (r: int, out: seq<char>, newPos: nat)
      requires Valid()
      ensures pos > size ==> r == -1 && out == [] && newPos == pos
      ensures pos <= size && Min(s, size - pos) == 0 ==> r == 0 && out == [] && newPos == pos
      ensures pos <= size && 0 < Min(s, size - pos) ==>
                var n := Min(s, size - pos);
                && (r == n || r == -EFAULT)
                && (r == -EFAULT <==> room < n)
                && (r == n ==> newPos == pos + n && out == Shown(pos, n))
                && (r == -EFAULT ==> newPos == pos && |out| <= room && out == Shown(pos, n)[..|out|])
                && (r == -EFAULT ==> |out| == if invert then room else Delivered(Min(n, NodeSize - pos % NodeSize), room))
    {
      if pos > size {
        return -1, [], pos;
      }
      var n := s;
      if pos + n > size {
        n := size - pos;
      }
      if n == 0 {
        return 0, [], pos;
      }
      if invert {
        r, out, newPos := ReadInverted(chain, room, n, size, pos);
        assert r != -1;
        MirroredOfPrefix(chain.Content(), size, pos, n);
      } else {
        r, out, newPos := ReadPlain(chain, room, n, pos);
        assert r != -1;
        PlainOfPrefix(chain.Content(), size, pos, n, |out|);
      }
    }

    /**
     * inverter_write: refused with -EACCES in the inverted view and with
     * -EFBIG past the end (after O_APPEND has moved the position to the end);
     * otherwise at most MaxWriteSize bytes of `u` are copied in from position p,
     * extending the chain as needed, and the size becomes p + n. A copy that
     * reaches past the caller's |u| readable bytes fails with -EFAULT; the
     * copies before it (`copied` bytes) and the nodes added stay.
     */
    method Write(u: seq<char>, s: nat, pos: nat, append: bool) returns (r: int, newPos: nat, ghost copied: nat)
      requires Valid()
      modifies this, chain
      ensures Valid() && invert == old(invert)
      ensures old(invert) ==> r == -EACCES && newPos == pos && unchanged(this) && unchanged(chain)
      ensures !old(invert) && !append && pos > old(size) ==> r == -EFBIG && newPos == pos && unchanged(this) && unchanged(chain)
      ensures !old(invert) && (append || pos <= old(size)) ==>
                var p := if append then old(size) else pos;
                var n := Min(s, MaxWriteSize);
                && (r == n || r == -EFAULT)
                && (r == -EFAULT <==> |u| < n)
                && copied <= n && copied <= |u| && (r == n ==> copied == n)
                && old(|chain.data|) <= |chain.data| && p + copied <= chain.Capacity()
                && chain.Content() == Splice(Pad(old(chain.Content()), chain.Capacity()), p, u[..copied])
                && newNodes == old(newNodes) + |chain.data| - old(|chain.data|)
                && (r == n ==> && |chain.data| == Max(old(|chain.data|), LastNode(p, n) + 1)
                               && size == p + n && newPos == p + n && written == old(written) + n
                               && Bytes() == old(Bytes()[..p]) + u[..n])
                && (r == -EFAULT ==> && size == old(size) && written == old(written) && newPos == p
                                     && copied == Delivered(Min(n, NodeSize - p % NodeSize), |u|)
                                     && |chain.data| == Max(old(|chain.data|), (p + copied) / NodeSize + 1))
    {
      copied := 0;
      if invert {
        return -EACCES, pos, copied;
      }
      var p := pos;
      if append {
        p := size;
      }
      if p > size {
        return -EFBIG, p, copied;
      }
      var n := Min(s, MaxWriteSize);
      r, copied := WriteAt(u, n, p);
      newPos := if r == n then p + n else p;
    }

    /**
     * inverter_llseek: the target is l (SEEK_SET), f_pos + l (SEEK_CUR) or
     * size + l (SEEK_END); a target outside [0, size) is refused with -1 and
     * the position kept, and an unknown `whence` keeps the position. The C
     * comparisons mix loff_t with size_t; under the 64-bit reading a negative
     * target compares as a huge unsigned value and is refused with the rest.
     */
    method Llseek(fpos: int, l: int, whence: int) returns (r: int, newPos: int)
      ensures whence !in {SeekSet, SeekCur, SeekEnd} ==> r == fpos && newPos == fpos
      ensures whence in {SeekSet, SeekCur, SeekEnd} ==>
                var target := SeekTarget(fpos, l, whence, size);
                && (r == -1 <==> target < 0 || size <= target)
                && (r == -1 ==> newPos == fpos)
                && (r != -1 ==> r == newPos == target && 0 <= newPos < size)
      ensures whence == SeekEnd ==> (r != -1 <==> -(size as int) <= l < 0)
    {
      r, newPos := fpos, fpos;
      if whence == SeekSet {
        if l < 0 || l >= size {
          return -1, fpos;
        }
        newPos := l;
      } else if whence == SeekCur {
        if fpos + l < 0 || fpos + l >= size {
          return -1, fpos;
        }
        newPos := fpos + l;
      } else if whence == SeekEnd {
        if l + size < 0 || l + size >= size {
          return -1, fpos;
        }
        newPos := l + size;
      }
      r := newPos;
    }

    /**
     * The accepted part of inverter_write, for n = min(s, MaxWriteSize) bytes
     * at p <= size: walk to node p / NodeSize extending as needed, copy the
     * first block from cell p % NodeSize, then whole blocks.
     */
    method WriteAt(u: seq<char>, n: nat, p: nat) returns (r: int, ghost copied: nat)
      requires Valid() && p <= size
      modifies this, chain
      ensures Valid() && invert == old(invert)
      ensures (r == n || r == -EFAULT) && (r == -EFAULT <==> |u| < n)
      ensures copied <= n && copied <= |u| && (r == n ==> copied == n)
      ensures old(|chain.data|) <= |chain.data| && p + copied <= chain.Capacity()
      ensures chain.Content() == Splice(Pad(old(chain.Content()), chain.Capacity()), p, u[..copied])
      ensures newNodes == old(newNodes) + |chain.data| - old(|chain.data|)
      ensures r == n ==> && |chain.data| == Max(old(|chain.data|), LastNode(p, n) + 1)
                         && size == p + n && written == old(written) + n
                         && Bytes() == old(Bytes()[..p]) + u[..n]
      ensures r == -EFAULT ==> size == old(size) && written == old(written)
      ensures r == -EFAULT ==> copied == Delivered(Min(n, NodeSize - p % NodeSize), |u|)
      ensures r == -EFAULT ==> |chain.data| == Max(old(|chain.data|), (p + copied) / NodeSize + 1)
    {
      ghost var c0 := chain.Content();
      var off := p % NodeSize;
      var pnode, walked := WalkExtend(chain, p / NodeSize);
      newNodes := newNodes + walked;
      var done, last, grown := CopyIn(chain, u, n, p, pnode, off, c0, old(|chain.data|));
      newNodes := newNodes + grown;
      copied := done;
      if done < n {
        DivModUnique(p + done, NodeSize, last, p + done - last * NodeSize);
        r := -EFAULT;
      } else {
        DivModUnique(LastByte(p, n), NodeSize, last, LastByte(p, n) - last * NodeSize);
        SplicedPrefix(c0, chain.Capacity(), p, u[..n], size);
        size := p + n;
        written := written + n;
        r := n;
      }
    }
  }

  /**
   * Write-then-read on the device, plain view: min(|u|, MaxWriteSize) bytes
   * of u written at p <= size are what a read of that many bytes at p returns.
   */
  method WriteThenReadPlain(st: Store, u: seq<char>, p: nat) returns (out: seq<char>)
    requires st.Valid() && !st.invert && p <= st.size
    modifies st, st.chain
    ensures out == u[..Min(|u|, MaxWriteSize)]
  {
    var n := Min(|u|, MaxWriteSize);
    var r, newPos, copied := st.Write(u, |u|, p, false);
    var r2, pos2;
    r2, out, pos2 := st.Read(n, n, p);
    WrittenReadsBackPlain(st.Bytes(), p, u[..n]);
  }

  /**
   * Write-then-read across views: after a write at p <= size and a reopen on
   * the inverted minor, a read from 0 returns the written bytes back to front.
   */
  method WriteThenReadInverted(st: Store, u: seq<char>, p: nat) returns (out: seq<char>)
    requires st.Valid() && !st.invert && p <= st.size
    modifies st, st.chain
    ensures out == Reversed(u[..Min(|u|, MaxWriteSize)])
  {
    var n := Min(|u|, MaxWriteSize);
    var r, newPos, copied := st.Write(u, |u|, p, false);
    ghost var b := st.Bytes();
    var r1 := st.Open(false, 1);
    var r2, pos2;
    r2, out, pos2 := st.Read(n, n, 0);
    WrittenReadsBackInverted(b, p, u[..n]);
  }

  /**
   * The walk of inverter_write: follow `next` from the root `k` times, linking
   * a sentinel node first whenever the current node has none. Allocation is
   * taken to succeed. `added` counts the linked nodes (the caller adds it to
   * the device's counter, as the source does node by node).
   */
  method WalkExtend(c: Chain, k: nat) returns (pnode: nat, added: nat)
    requires c.Valid()
    modifies c
    ensures c.Valid() && pnode == k
    ensures |c.data| == Max(old(|c.data|), k + 1) && added == |c.data| - old(|c.data|)
    ensures c.Content() == Pad(old(c.Content()), c.Capacity())
  {
    ghost var c0 := c.Content();
    pnode, added := 0, 0;
    while pnode < k
      invariant c.Valid() && pnode <= k && pnode < |c.data|
      invariant |c.data| == Max(old(|c.data|), pnode + 1) && added == |c.data| - old(|c.data|)
      invariant c.Content() == Pad(c0, c.Capacity())
    {
      if c.next[pnode] == Null {
        ghost var before := c.Capacity();
        var r := c.Extend(pnode, true);
        added := added + 1;
        PadGrow(c0, before, NodeSize);
      }
      pnode := c.next[pnode];
    }
  }

  /**
   * The copies of inverter_write, from node j on, where byte p lives at cell
   * off: a first block up to the end of node j, then whole blocks (CopyBlocks),
   * until n bytes are in or a copy reaches past the caller's |u| readable
   * bytes. c0 is the content before the write, d0 its node count.
   */
  method CopyIn(c: Chain, u: seq<char>, n: nat, p: nat, j: nat, off: nat, ghost c0: seq<char>, ghost d0: nat)
    returns (done: nat, pnode: nat, added: nat)
    requires c.Valid() && j < |c.data| && p == j * NodeSize + off && off < NodeSize
    requires |c0| <= c.Capacity() && d0 <= |c.data| == Max(d0, j + 1)
    requires c.Content() == Pad(c0, c.Capacity())
    modifies c
    ensures c.Valid() && done <= n && done <= |u| && (done == n <==> n <= |u|)
    ensures old(|c.data|) <= |c.data| && p + done <= c.Capacity() && added == |c.data| - old(|c.data|)
    ensures c.Content() == Splice(Pad(c0, c.Capacity()), p, u[..done])
    ensures |c.data| == Max(d0, pnode + 1)
    ensures done == n ==> pnode * NodeSize <= LastByte(p, n) < (pnode + 1) * NodeSize
    ensures done < n ==> done == Delivered(Min(n, NodeSize - off), |u|)
    ensures done < n ==> pnode * NodeSize <= p + done < (pnode + 1) * NodeSize
  {
    pnode := j;
    var m := Min(n, NodeSize - off);
    SpliceEmpty(Pad(c0, c.Capacity()), p);
    assert u[..0] == [];
    if m > |u| {
      return 0, j, 0;
    }
    CopyBlock(c, j, off, u, 0, m, c0, p);
    done, pnode, added := CopyBlocks(c, u, n, p, j, m, c0, d0);
  }

  /**
   * The copying loop of inverter_write: `done0` bytes of u are in place,
   * ending at the end of node j when more are wanted; move to the next node,
   * extending the chain if `next` is Null, and copy the next block, until n
   * bytes are in or a copy reaches past the caller's |u| readable bytes.
   */
  method CopyBlocks(c: Chain, u: seq<char>, n: nat, p: nat, j: nat, done0: nat, ghost c0: seq<char>, ghost d0: nat)
    returns (done: nat, pnode: nat, added: nat)
    requires c.Valid() && j < |c.data| && done0 <= n && done0 <= |u| && |c0| <= c.Capacity()
    requires d0 <= |c.data| == Max(d0, j + 1) && j * NodeSize <= LastByte(p, done0) < (j + 1) * NodeSize
    requires p + done0 <= (j + 1) * NodeSize && (done0 < n ==> p + done0 == (j + 1) * NodeSize)
    requires c.Content() == Splice(Pad(c0, c.Capacity()), p, u[..done0])
    modifies c
    ensures c.Valid() && done0 <= done <= n && done <= |u| && (done == n <==> n <= |u|)
    ensures old(|c.data|) <= |c.data| && p + done <= c.Capacity() && added == |c.data| - old(|c.data|)
    ensures c.Content() == Splice(Pad(c0, c.Capacity()), p, u[..done])
    ensures |c.data| == Max(d0, pnode + 1)
    ensures done == n ==> pnode * NodeSize <= LastByte(p, n) < (pnode + 1) * NodeSize
    ensures done < n ==> done == Delivered(done0, |u|) && p + done == pnode * NodeSize
  {
    pnode, done, added := j, done0, 0;
    var left: nat := n - done;
    while left > 0
      invariant c.Valid() && pnode < |c.data| && done0 <= done && done + left == n && done <= |u|
      invariant j <= pnode && |c.data| == Max(d0, pnode + 1) && added == |c.data| - old(|c.data|)
      invariant |c0| <= c.Capacity() && p + done <= (pnode + 1) * NodeSize
      invariant left > 0 ==> p + done == (pnode + 1) * NodeSize
      invariant pnode * NodeSize <= LastByte(p, done) < (pnode + 1) * NodeSize
      invariant c.Content() == Splice(Pad(c0, c.Capacity()), p, u[..done])
    {
      var grew, ok;
      pnode, grew, done, left, ok := Step(c, pnode, u, done, left, c0, p, d0);
      added := added + grew;
      if !ok {
        DivModUnique(|u| - done0, NodeSize, pnode - 1 - j, |u| - done);
        return;
      }
    }
  }

  /**
   * One turn of the copying loop: advance to the next node (Advance), then
   * copy the next min(left, NodeSize) bytes into its first cells and count
   * them off, unless that copy reaches past |u| (ok is then false and
   * nothing is copied).
   */
  method Step(c: Chain, pnode: nat, u: seq<char>, done: nat, left: nat, ghost c0: seq<char>, ghost p: nat, ghost d0: nat)
    returns (nx: nat, grew: nat, done': nat, left': nat, ok: bool)
    requires c.Valid() && pnode < |c.data| == Max(d0, pnode + 1) && |c0| <= c.Capacity() && done <= |u| && left > 0
    requires p + done == (pnode + 1) * NodeSize
    requires c.Content() == Splice(Pad(c0, c.Capacity()), p, u[..done])
    modifies c
    ensures c.Valid() && nx == pnode + 1 && |c.data| == Max(d0, nx + 1) && |c0| <= c.Capacity()
    ensures grew == |c.data| - old(|c.data|) && (ok <==> done + Min(left, NodeSize) <= |u|)
    ensures ok ==> done' == done + Min(left, NodeSize) && left' == left - Min(left, NodeSize)
    ensures !ok ==> done' == done && left' == left
    ensures done' <= |u| && p + done' <= (nx + 1) * NodeSize
    ensures ok && left' > 0 ==> p + done' == (nx + 1) * NodeSize
    ensures ok ==> nx * NodeSize <= LastByte(p, done') < (nx + 1) * NodeSize
    ensures c.Content() == Splice(Pad(c0, c.Capacity()), p, u[..done'])
  {
    nx, grew := Advance(c, pnode, c0, p, u[..done]);
    var m := Min(left, NodeSize);
    ok := done + m <= |u|;
    done', left' := done, left;
    if ok {
      CopyBlock(c, nx, 0, u, done, m, c0, p);
      done', left' := done + m, left - m;
    }
  }

  /**
   * One step of the write walk: link a sentinel node after `pnode` when it has
   * no successor (grew is then 1), then move to the successor. The bytes
   * already written (w at p over the padded old content c0) stay.
   */
  method Advance(c: Chain, pnode: nat, ghost c0: seq<char>, ghost p: nat, ghost w: seq<char>) returns (nx: nat, grew: nat)
    requires c.Valid() && pnode < |c.data| && |c0| <= c.Capacity() && p + |w| <= c.Capacity()
    requires c.Content() == Splice(Pad(c0, c.Capacity()), p, w)
    modifies c
    ensures c.Valid() && nx == pnode + 1 && |c.data| == Max(old(|c.data|), pnode + 2)
    ensures grew == |c.data| - old(|c.data|)
    ensures c.Content() == Splice(Pad(c0, c.Capacity()), p, w)
  {
    grew := 0;
    if c.next[pnode] == Null {
      ghost var before := c.Capacity();
      var r := c.Extend(pnode, true);
      grew := 1;
      PadGrow(c0, before, NodeSize);
      SpliceAppend(Pad(c0, before), p, w, Filled(Sentinel, NodeSize));
    }
    nx := c.next[pnode];
  }

  /**
   * A copy_from_user of inverter_write: bytes u[done..done + m] go to cells
   * off, ..., off + m - 1 of node j, which is where byte p + done lives.
   */
  method CopyBlock(c: Chain, j: nat, off: nat, u: seq<char>, done: nat, m: nat, ghost c0: seq<char>, ghost p: nat)
    requires c.Valid() && j < |c.data| && p + done == j * NodeSize + off && off + m <= NodeSize && done + m <= |u|
    requires |c0| <= c.Capacity() && c.Content() == Splice(Pad(c0, c.Capacity()), p, u[..done])
    modifies c
    ensures c.Valid() && |c.data| == old(|c.data|)
    ensures c.Content() == Splice(Pad(c0, c.Capacity()), p, u[..done + m])
  {
    ghost var pad := Pad(c0, c.Capacity());
    c.Put(j, off, u[done..done + m]);
    SpliceStep(pad, p, u, done, m);
  }

  /** Write-then-read, plain view: after a write of w at p the store holds b[..p] + w, and |w| bytes read at p are w. */
  lemma WrittenReadsBackPlain(b: seq<char>, p: nat, w: seq<char>)
    requires p <= |b|
    ensures PlainView(b[..p] + w, p, |w|) == w
  {
    assert (b[..p] + w)[p..p + |w|] == w;
  }

  /** Write-then-read, inverted view: reading the store b[..p] + w from the start shows w back to front. */
  lemma WrittenReadsBackInverted(b: seq<char>, p: nat, w: seq<char>)
    requires p <= |b|
    ensures MirroredView(b[..p] + w, p + |w|, 0, |w|) == Reversed(w)
  {
    var c := b[..p] + w;
    var m, r := MirroredView(c, p + |w|, 0, |w|), Reversed(w);
    forall t | 0 <= t < |w| ensures m[t] == r[t] {
      assert c[p + |w| - 1 - t] == w[|w| - 1 - t];
    }
  }

  /** The inverted view of the first `size` stored bytes reads only those bytes. */
  lemma MirroredOfPrefix(content: seq<char>, size: nat, pos: nat, n: nat)
    requires pos + n <= size <= |content|
    ensures MirroredView(content[..size], size, pos, n) == MirroredView(content, size, pos, n)
  {
  }

  /** The first k bytes of the plain view of the first `size` stored bytes are the stored bytes at pos. */
  lemma PlainOfPrefix(content: seq<char>, size: nat, pos: nat, n: nat, k: nat)
    requires pos + n <= size <= |content| && k <= n
    ensures PlainView(content[..size], pos, n)[..k] == content[pos..pos + k]
  {
    SliceOfPrefix(content, size, pos, pos + n);
    assert content[pos..pos + n][..k] == content[pos..pos + k];
  }

  /** After a write of w at p <= size, the first p + |w| bytes are the old bytes before p, then w. */
  lemma SplicedPrefix(c: seq<char>, len: nat, p: nat, w: seq<char>, size: nat)
    requires p <= size <= |c| <= len && p + |w| <= len
    ensures Splice(Pad(c, len), p, w)[..p + |w|] == c[..size][..p] + w
  {
    var lhs, rhs := Splice(Pad(c, len), p, w)[..p + |w|], c[..size][..p] + w;
    assert |lhs| == |rhs|;
    forall i | 0 <= i < |lhs| ensures lhs[i] == rhs[i] {
      if i >= p {
        assert rhs[i] == w[i - p];
      }
    }
  }
}
