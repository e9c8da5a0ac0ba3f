/**
 * The prototype of the device (hello.c): the same segment-chain store with
 * 4-cell nodes, a signed size, no O_TRUNC handling, no write refusal in the
 * inverted view, no length cap, and a seek bounded by a fixed 50 bytes.
 *
 * hello_list_extend links the new node after `pnode` whatever followed it, so
 * the nodes that followed become unreachable from the root (they are never
 * freed). The arena below keeps only the nodes reachable from the root, in
 * chain order; `orphans` records the data of the ones cut off.
 */
module Hello {
  import opened Segments

  /** Cells per node (HELLO_NODE_SIZE). */
  const HelloNodeSize: nat := 4

  /** The fixed bound of hello_llseek (HELLO_DATA_SIZE). */
  const HelloDataSize: int := 50

  /** The byte hello_init fills the root with. */
  const RootFill: char := 'x'

  class HelloChain {
    var data: seq<seq<char>>
    var next: seq<int>
    var prev: seq<int>
    /** Data of the nodes hello_list_extend cut off the chain. */
    ghost var orphans: seq<seq<char>>

    /** Well-formed: root at 0, each node linked to its neighbours, the tail's `next` is Null. */
    ghost predicate Valid()
      reads this
    {
      && |data| >= 1 && |next| == |data| && |prev| == |data|
      && Uniform(data, HelloNodeSize)
      && (forall i :: 0 <= i < |data| ==> next[i] == if i + 1 < |data| then i + 1 else Null)
      && (forall i :: 0 <= i < |data| ==> prev[i] == if i == 0 then Null else i - 1)
    }

    ghost function Capacity(): nat
      reads this
    {
      |data| * HelloNodeSize
    }

    /** The stored bytes: the node blocks concatenated in chain order. */
    ghost function Content(): (r: seq<char>)
      reads this
      requires Valid()
      ensures |r| == Capacity()
    {
      ConcatLength(data, HelloNodeSize);
      Concat(data)
    }

    /** Cell i of node j is content byte j * HelloNodeSize + i. */
    lemma Cell(j: nat, i: nat)
      requires Valid() && j < |data| && i < HelloNodeSize
      ensures j * HelloNodeSize + i < Capacity() && Content()[j * HelloNodeSize + i] == data[j][i]
    {
      ConcatAt(data, j, i);
      ConcatLength(data[..j], HelloNodeSize);
    }

    /** hello_init's root: both links Null, every cell 'x'. */
    constructor ()
      ensures Valid() && data == [Filled(RootFill, HelloNodeSize)] && orphans == []
      ensures Content() == Filled(RootFill, HelloNodeSize)
    {
      data := [Filled('\0', HelloNodeSize)];
      next := [Null];
      prev := [Null];
      orphans := [];
      new;
      var i := 0;
      while i < HelloNodeSize
        invariant 0 <= i <= HelloNodeSize && |data| == 1 && |data[0]| == HelloNodeSize
        invariant next == [Null] && prev == [Null] && orphans == []
        invariant forall k :: 0 <= k < i ==> data[0][k] == RootFill
      {
        data := data[0 := data[0][i := RootFill]];
        i := i + 1;
      }
      assert data[0] == Filled(RootFill, HelloNodeSize);
      assert [data[0]][1..] == [];
    }

    /**
     * hello_list_extend: on a successful allocation, link a sentinel-filled
     * node as `pnode`'s successor and as the new tail, without looking at
     * what followed `pnode`; those nodes are cut off. A failed allocation
     * returns Null and changes nothing.
     */
    method Extend(pnode: nat, allocOk: bool) returns (r: int)
      requires Valid() && pnode < |data|
      modifies this
      ensures Valid()
      ensures r == Null <==> !allocOk
      ensures r == Null ==> data == old(data) && next == old(next) && prev == old(prev) && orphans == old(orphans)
      ensures r != Null ==> && r == pnode + 1
                            && data == old(data[..pnode + 1]) + [Filled(Sentinel, HelloNodeSize)]
                            && next == old(next[..pnode + 1])[pnode := r] + [Null]
                            && prev == old(prev[..pnode + 1]) + [pnode]
                            && orphans == old(orphans) + old(data[pnode + 1..])
      ensures r != Null ==> Content() == old(Content()[..(pnode + 1) * HelloNodeSize]) + Filled(Sentinel, HelloNodeSize)
    {
      if !allocOk {
        return Null;
      }
      ghost var d0 := data;
      r := pnode + 1;
      orphans := orphans + data[r..];
      data := data[..r] + [Filled('\0', HelloNodeSize)];
      next := next[..r][pnode := r] + [Null];
      prev := prev[..r] + [pnode];
      var i := 0;
      while i < HelloNodeSize
        invariant 0 <= i <= HelloNodeSize
        invariant |data| == r + 1 && data[..r] == d0[..r] && |data[r]| == HelloNodeSize
        invariant next == old(next[..pnode + 1])[pnode := r] + [Null] && prev == old(prev[..pnode + 1]) + [pnode]
        invariant orphans == old(orphans) + old(data[pnode + 1..])
        invariant forall k :: 0 <= k < i ==> data[r][k] == Sentinel
      {
        data := data[r := data[r][i := Sentinel]];
        i := i + 1;
      }
      assert data[r] == Filled(Sentinel, HelloNodeSize);
      assert data == d0[..r] + [Filled(Sentinel, HelloNodeSize)];
      ConcatAppend(d0[..r], Filled(Sentinel, HelloNodeSize));
      ConcatPrefix(d0, r);
      ConcatLength(d0[..r], HelloNodeSize);
    }

    /**
     * hello_list_trunc: walk to the tail, then free backward through `prev`
     * until `pnode` is reached. `pnode`'s `next` is left as it was, so when
     * `pnode` had a successor its link now names a freed node and the chain
     * is no longer well formed.
     */
    method Trunc(pnode: nat)
      requires Valid() && pnode < |data|
      modifies this
      ensures data == old(data[..pnode + 1]) && prev == old(prev[..pnode + 1]) && next == old(next[..pnode + 1])
      ensures orphans == old(orphans)
      ensures old(next[pnode]) == Null ==> Valid() && Content() == old(Content())
      ensures old(next[pnode]) != Null ==> next[pnode] == |data| && !Valid()
    {
      var tmp := pnode;
      while next[tmp] != Null
        invariant pnode <= tmp < |data|
        decreases |data| - tmp
      {
        tmp := next[tmp];
      }
      while tmp != pnode
        invariant pnode <= tmp < old(|data|)
        invariant data == old(data[..tmp + 1]) && next == old(next[..tmp + 1]) && prev == old(prev[..tmp + 1])
        invariant orphans == old(orphans)
        decreases tmp
      {
        tmp := prev[tmp];
        // kfree(tmp->next): tmp->next is the last node of the arena.
        var victim := next[tmp];
        data, next, prev := data[..victim], next[..victim], prev[..victim];
      }
      assert data == old(data[..pnode + 1]);
    }

    /** One cell of a node assigned, as hello_write copies byte by byte. */
    method SetCell(j: nat, i: nat, x: char)
      requires Valid() && j < |data| && i < HelloNodeSize
      modifies this
      ensures Valid() && |data| == old(|data|) && next == old(next) && prev == old(prev) && orphans == old(orphans)
      ensures data == old(data)[j := old(data[j])[i := x]]
      ensures j * HelloNodeSize + i < Capacity() && Content() == old(Content())[j * HelloNodeSize + i := x]
    {
      ghost var c0 := Content();
      assert data[j][i := x] == Splice(data[j], i, [x]);
      ConcatUpdate(data, j, i, [x]);
      ConcatLength(data[..j], HelloNodeSize);
      data := data[j := data[j][i := x]];
      assert Content() == Splice(c0, j * HelloNodeSize + i, [x]);
    }
  }

  /**
   * The device (struct hello_dev): the chain, a signed size and the view flag.
   * More cells always follow the stored bytes: every write that fills a node
   * to its end links a fresh node after it.
   */
  class HelloDev {
    const chain: HelloChain
    var size: int
    var invert: bool

    ghost predicate Valid()
      reads this, chain
    {
      chain.Valid() && 0 <= size < chain.Capacity()
    }

    /** The logical content: the first `size` stored bytes. */
    ghost function Bytes(): (r: seq<char>)
      reads this, chain
      requires Valid()
      ensures |r| == size
    {
      chain.Content()[..size]
    }

    /** hello_init on the store: the 'x'-filled root, size 0. */
    constructor ()
      ensures Valid() && fresh(chain) && chain.data == [Filled(RootFill, HelloNodeSize)]
      ensures size == 0 && !invert && Bytes() == []
    {
      chain := new HelloChain();
      size := 0;
      invert := false;
    }

    /** hello_open on the store: the view follows the minor; O_TRUNC is only logged. */
    method Open(trunc: bool, minor: nat) returns (r: int)
      requires Valid()
      modifies this
      ensures Valid() && r == 0 && invert == (minor != 0)
      ensures size == old(size) && unchanged(chain)
    {
      invert := minor != 0;
      r := 0;
    }

    /**
     * hello_write: O_APPEND moves the position to the end, a position past the
     * end is refused with -EFBIG, and all `s` bytes are copied from the caller
     * at once (-EFAULT, nothing changed, when fewer are readable). Then the
     * bytes go in cell by cell from position p; each node filled through its
     * last cell gets a fresh sentinel node linked after it, replacing its
     * successor, even when the write ends there. Neither the view nor the
     * length is checked.
     */
    method Write(u: seq<char>, s: nat, pos: nat, append: bool) returns (r: int, newPos: int)
      requires Valid()
      modifies this, chain
      ensures Valid() && invert == old(invert)
      ensures !append && pos > old(size) ==> r == -EFBIG && newPos == pos && unchanged(this) && unchanged(chain)
      ensures (append || pos <= old(size)) && |u| < s ==>
                r == -EFAULT && newPos == (if append then old(size) else pos) && unchanged(this) && unchanged(chain)
      ensures (append || pos <= old(size)) && s <= |u| ==>
                var p := if append then old(size) else pos;
                var q := (p + s) / HelloNodeSize;
                && r == s && newPos == p + s && size == p + s
                && Bytes() == old(Bytes()[..p]) + u[..s]
                && (q == p / HelloNodeSize ==> |chain.data| == old(|chain.data|)
                                               && chain.Content()[p + s..] == old(chain.Content())[p + s..])
                && (q > p / HelloNodeSize ==> |chain.data| == q + 1
                                              && chain.Content()[p + s..] == Filled(Sentinel, (q + 1) * HelloNodeSize - (p + s)))
      ensures (append || pos <= old(size)) && 0 < s <= |u| && newPos % HelloNodeSize == 0 ==>
                |chain.data| == newPos / HelloNodeSize + 1 && chain.Content()[newPos..] == Filled(Sentinel, HelloNodeSize)
    {
      var p: int := pos;
      if append {
        p := size;
      }
      if p > size {
        return -EFBIG, p;
      }
      if |u| < s {
        return -EFAULT, p;
      }
      var buf := u[..s];
      ghost var c0 := chain.Content();
      var off := p % HelloNodeSize;
      var pnode := Walk(chain, p / HelloNodeSize);
      assert chain.Content() == c0;
      pnode := Fill(chain, buf, p, pnode, off, c0);
      assert old(Bytes())[..p] == c0[..p];
      size := p + s;
      r, newPos := s, p + s;
    }

    /**
     * hello_llseek: the target is l (SEEK_SET), f_pos + l (SEEK_CUR) or
     * size + l (SEEK_END), refused with -1 when it is at least the fixed bound
     * of 50 bytes rather than the stored size; the comparisons are signed, so
     * negative targets are accepted. An unknown `whence` keeps the position.
     */
    method Llseek(fpos: int, l: int, whence: int) returns (r: int, newPos: int)
      ensures whence !in {SeekSet, SeekCur, SeekEnd} ==> r == fpos && newPos == fpos
      ensures whence in {SeekSet, SeekCur, SeekEnd} ==>
                var target := SeekTarget(fpos, l, whence, size);
                && (target >= HelloDataSize ==> r == -1 && newPos == fpos)
                && (target < HelloDataSize ==> newPos == target && r == target)
    {
      r, newPos := fpos, fpos;
      if whence == SeekSet {
        if l >= HelloDataSize {
          return -1, fpos;
        }
        newPos := l;
      } else if whence == SeekCur {
        if fpos + l >= HelloDataSize {
          return -1, fpos;
        }
        newPos := fpos + l;
      } else if whence == SeekEnd {
        if l + size >= HelloDataSize {
          return -1, fpos;
        }
        newPos := l + size;
      }
      r := newPos;
    }
  }

  /**
   * The walk of hello_write: follow `next` from the root `k` times, linking a
   * sentinel node first whenever the current node has none.
   */
  method Walk(c: HelloChain, k: nat) returns (pnode: nat)
    requires c.Valid()
    modifies c
    ensures c.Valid() && pnode == k
    ensures |c.data| == Max(old(|c.data|), k + 1) && c.Content() == Pad(old(c.Content()), c.Capacity())
  {
    ghost var c0 := c.Content();
    pnode := 0;
    while pnode < k
      invariant c.Valid() && pnode <= k && pnode < |c.data|
      invariant |c.data| == Max(old(|c.data|), pnode + 1) && c.Content() == Pad(c0, c.Capacity())
    {
      if c.next[pnode] == Null {
        ghost var before := c.Capacity();
        var r := c.Extend(pnode, true);
        PadGrow(c0, before, HelloNodeSize);
      }
      pnode := c.next[pnode];
    }
  }

  /**
   * The copying loop of hello_write, from cell `off` of node j (where byte p
   * lives): fill the node up to its end or to the last byte, link a fresh
   * node after it when it was filled to the end and move on, until all of
   * `buf` is in. Returns the node holding position p + |buf|.
   */
  method Fill(c: HelloChain, buf: seq<char>, p: nat, j: nat, off: nat, ghost c0: seq<char>) returns (pnode: nat)
    requires c.Valid() && j < |c.data| && off < HelloNodeSize && p == j * HelloNodeSize + off
    requires c.Content() == c0
    modifies c
    ensures c.Valid() && pnode == (p + |buf|) / HelloNodeSize && p + |buf| < c.Capacity()
    ensures c.Content()[..p + |buf|] == c0[..p] + buf
    ensures pnode == j ==> |c.data| == old(|c.data|) && c.Content()[p + |buf|..] == c0[p + |buf|..]
    ensures pnode > j ==> |c.data| == pnode + 1 && c.Content()[p + |buf|..] == Filled(Sentinel, c.Capacity() - (p + |buf|))
  {
    pnode := j;
    var o := off;
    var left: nat := |buf|;
    var done: nat := 0;
    ghost var tail := c0[p..];
    while left > 0
      invariant c.Valid() && j <= pnode < |c.data| && done + left == |buf| && o < HelloNodeSize
      invariant p <= |c0| == old(|c.data|) * HelloNodeSize
      invariant left > 0 ==> p + done == pnode * HelloNodeSize + o
      invariant o > 0 ==> done == 0 && pnode == j
      invariant pnode * HelloNodeSize <= p + done < (pnode + 1) * HelloNodeSize
      invariant c.Content() == c0[..p] + buf[..done] + tail
      invariant pnode == j ==> |c.data| == old(|c.data|) && tail == c0[p + done..]
      invariant pnode > j ==> |c.data| == pnode + 1 && tail == Filled(Sentinel, |tail|)
    {
      pnode, done, left, tail := FillStep(c, buf, p, j, pnode, o, done, left, c0, old(|c.data|), tail);
      o := 0;
    }
    DivModUnique(p + |buf|, HelloNodeSize, pnode, p + |buf| - pnode * HelloNodeSize);
    assert buf[..|buf|] == buf;
    assert c.Content() == (c0[..p] + buf) + tail;
  }

  /**
   * One turn of hello_write's copying loop: fill node pnode from cell o up to
   * its end or the last byte, and when it was filled to the end link a fresh
   * node after it (replacing its successor) and move to it.
   */
  method FillStep(c: HelloChain, buf: seq<char>, p: nat, j: nat, pnode: nat, o: nat, done: nat, left: nat,
                  ghost c0: seq<char>, ghost d0: nat, ghost tail: seq<char>)
    returns (pnode': nat, done': nat, left': nat, ghost tail': seq<char>)
    requires c.Valid() && j <= pnode < |c.data| && done + left == |buf| && left > 0 && o < HelloNodeSize
    requires p <= |c0| == d0 * HelloNodeSize
    requires p + done == pnode * HelloNodeSize + o && (o > 0 ==> done == 0 && pnode == j)
    requires c.Content() == c0[..p] + buf[..done] + tail
    requires pnode == j ==> |c.data| == d0 && tail == c0[p + done..]
    requires pnode > j ==> |c.data| == pnode + 1 && tail == Filled(Sentinel, |tail|)
    modifies c
    ensures c.Valid() && j <= pnode' < |c.data| && done' + left' == |buf| && left' < left
    ensures left' > 0 ==> p + done' == pnode' * HelloNodeSize
    ensures pnode' * HelloNodeSize <= p + done' < (pnode' + 1) * HelloNodeSize
    ensures c.Content() == c0[..p] + buf[..done'] + tail'
    ensures pnode' == j ==> |c.data| == d0 && tail' == c0[p + done'..]
    ensures pnode' > j ==> |c.data| == pnode' + 1 && tail' == Filled(Sentinel, |tail'|)
  {
    var stop := Min(left + o, HelloNodeSize);
    var k := stop - o;
    FillNode(c, pnode, o, stop, buf, done, c0[..p] + buf[..done], tail);
    Regroup(c0[..p], buf, done, k, tail[k..]);
    tail' := tail[k..];
    done', left', pnode' := done + k, left - k, pnode;
    if stop == HelloNodeSize {
      pnode' := LinkFresh(c, pnode, c0[..p] + buf[..done'], tail');
      tail' := Filled(Sentinel, HelloNodeSize);
    }
  }

  /**
   * The end of a filled node in hello_write: link a fresh sentinel node after
   * it, replacing its successor, and move to it. `head` is the content up to
   * the end of the node.
   */
  method LinkFresh(c: HelloChain, pnode: nat, ghost head: seq<char>, ghost tail: seq<char>) returns (nx: nat)
    requires c.Valid() && pnode < |c.data| && |head| == (pnode + 1) * HelloNodeSize && c.Content() == head + tail
    modifies c
    ensures c.Valid() && nx == pnode + 1 && |c.data| == pnode + 2
    ensures c.Content() == head + Filled(Sentinel, HelloNodeSize)
  {
    HeadOf(head, tail);
    var r := c.Extend(pnode, true);
    nx := c.next[pnode];
  }

  /**
   * The inner loop of hello_write: cells off, ..., stop - 1 of node j get
   * buf[done], buf[done + 1], ...; `pre` is what precedes cell off in the
   * content and `tail` what follows it.
   */
  method FillNode(c: HelloChain, j: nat, off: nat, stop: nat, buf: seq<char>, done: nat, ghost pre: seq<char>, ghost tail: seq<char>)
    requires c.Valid() && j < |c.data| && off <= stop <= HelloNodeSize && done + (stop - off) <= |buf|
    requires |pre| == j * HelloNodeSize + off && c.Content() == pre + tail
    modifies c
    ensures c.Valid() && |c.data| == old(|c.data|) && c.next == old(c.next) && c.prev == old(c.prev)
    ensures c.orphans == old(c.orphans)
    ensures stop - off <= |tail| && c.Content() == pre + buf[done..done + (stop - off)] + tail[stop - off..]
  {
    var i := off;
    while i < stop
      invariant off <= i <= stop && c.Valid() && |c.data| == old(|c.data|) && c.next == old(c.next) && c.prev == old(c.prev)
      invariant c.orphans == old(c.orphans)
      invariant i - off <= |tail| && c.Content() == pre + buf[done..done + (i - off)] + tail[i - off..]
    {
      SetNext(pre, buf[done..done + (i - off)], tail[i - off..], buf[done + (i - off)]);
      c.SetCell(j, i, buf[done + (i - off)]);
      assert buf[done..done + (i - off)] + [buf[done + (i - off)]] == buf[done..done + (i + 1 - off)];
      assert tail[i - off..][1..] == tail[i + 1 - off..];
      i := i + 1;
    }
  }

  /** Bytes u[d..d + k] right after u[..d] make u[..d + k]. */
  lemma Regroup(a: seq<char>, u: seq<char>, d: nat, k: nat, t: seq<char>)
    requires d + k <= |u|
    ensures a + u[..d] + u[d..d + k] + t == a + u[..d + k] + t
  {
    TakeJoin(u, d, d + k);
    assert a + u[..d] + u[d..d + k] == a + (u[..d] + u[d..d + k]);
  }

  /** The first |x| bytes of x + t are x. */
  lemma HeadOf(x: seq<char>, t: seq<char>)
    ensures (x + t)[..|x|] == x
  {
  }

  /** Assigning the first byte after a + b replaces the first byte of the rest. */
  lemma SetNext(a: seq<char>, b: seq<char>, t: seq<char>, x: char)
    requires |t| > 0
    ensures (a + b + t)[|a| + |b| := x] == a + (b + [x]) + t[1..]
  {
    var lhs, rhs := (a + b + t)[|a| + |b| := x], a + (b + [x]) + t[1..];
    assert |lhs| == |rhs|;
    forall i | 0 <= i < |lhs| ensures lhs[i] == rhs[i] {
    }
  }
}
