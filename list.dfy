/**
 * The segment chain of list.h and list.c: a doubly linked chain of fixed-size
 * nodes whose first node (the root) is embedded in its owner and never freed.
 *
 * Nodes live in an arena indexed from 0 (the root). `list_extend` only ever
 * links a node after the tail and `list_trunc` frees everything after a node,
 * so the arena stays in chain order: node i links to i + 1, freeing drops the
 * last arena entry, and the content is the arena's blocks concatenated.
 */
module List {
  import opened Segments

  /** Cells per node (INVERTER_NODE_SIZE). */
  const NodeSize: nat := 1008

  class Chain {
    /** data[i] holds the cells of arena node i. */
    var data: seq<seq<char>>
    /** next[i] and prev[i] are node i's links: an arena index or Null. */
    var next: seq<int>
    var prev: seq<int>

    /** Well-formed: root at 0, each node linked to its neighbours, the tail's `next` is Null. */
    ghost predicate Valid()
      reads this
    {
      && |data| >= 1 && |next| == |data| && |prev| == |data|
      && Uniform(data, NodeSize)
      && (forall i :: 0 <= i < |data| ==> next[i] == if i + 1 < |data| then i + 1 else Null)
      && (forall i :: 0 <= i < |data| ==> prev[i] == if i == 0 then Null else i - 1)
    }

    /** Every non-null link is answered by the opposite link of its target. */
    ghost predicate DoublyLinked()
      reads this
      requires |next| == |data| && |prev| == |data|
    {
      && (forall i :: 0 <= i < |data| && next[i] != Null ==> 0 <= next[i] < |data| && prev[next[i]] == i)
      && (forall i :: 0 <= i < |data| && prev[i] != Null ==> 0 <= prev[i] < |data| && next[prev[i]] == i)
    }

    /** Number of bytes the chain can hold. */
    ghost function Capacity(): nat
      reads this
    {
      |data| * NodeSize
    }

    /** The stored bytes: the node blocks concatenated in chain order. */
    ghost function Content(): (r: seq<char>)
      reads this
      requires Valid()
      ensures |r| == Capacity()
    {
      ConcatLength(data, NodeSize);
      Concat(data)
    }

    /**
     * Offset resolution: byte q of the content is cell q % NodeSize of the
     * node reached after q / NodeSize `next` links from the root.
     */
    lemma ContentAt(q: nat)
      requires Valid() && q < Capacity()
      ensures q / NodeSize < |data| && Content()[q] == data[q / NodeSize][q % NodeSize]
    {
      Cell(q / NodeSize, q % NodeSize);
    }

    /** Cell i of node j is content byte j * NodeSize + i. */
    lemma Cell(j: nat, i: nat)
      requires Valid() && j < |data| && i < NodeSize
      ensures j * NodeSize + i < Capacity() && Content()[j * NodeSize + i] == data[j][i]
    {
      ConcatAt(data, j, i);
      ConcatLength(data[..j], NodeSize);
    }

    /** Cells [a, b) of node j are the content bytes [j * NodeSize + a, j * NodeSize + b). */
    lemma Block(j: nat, a: nat, b: nat)
      requires Valid() && j < |data| && a <= b <= NodeSize
      ensures data[j][a..b] == Content()[j * NodeSize + a..j * NodeSize + b]
    {
      Cell(j, 0);
      forall i | a <= i < b ensures Content()[j * NodeSize + i] == data[j][i] {
        Cell(j, i);
      }
    }

    /** A prefix of the content that ends on a node boundary, followed by that node's first m cells, is again a slice of the content. */
    lemma BlockAfter(from: nat, got: seq<char>, j: nat, m: nat)
      requires Valid() && j < |data| && m <= NodeSize
      requires from + |got| == j * NodeSize && got == Content()[from..j * NodeSize]
      ensures got + data[j][..m] == Content()[from..j * NodeSize + m]
    {
      Block(j, 0, m);
      var w := Content();
      assert w[from..j * NodeSize] + w[j * NodeSize..j * NodeSize + m] == w[from..j * NodeSize + m];
    }

    /** The root node alone: both links Null, cells zero (the owner is static storage). */
    constructor ()
      ensures Valid() && |data| == 1
      ensures data[0] == Filled('\0', NodeSize)
    {
      data := [Filled('\0', NodeSize)];
      next := [Null];
      prev := [Null];
    }

    /**
     * list_extend: link one sentinel-filled node after `pnode`. Refused (Null,
     * nothing changed) when `pnode` already has a successor or the allocation
     * fails; otherwise the new node is the new tail and its index is returned.
     */
    method Extend(pnode: nat, allocOk: bool) returns (r: int)
      requires Valid() && pnode < |data|
      modifies this
      ensures Valid() && DoublyLinked()
      ensures r == Null <==> old(next[pnode]) != Null || !allocOk
      ensures r == Null ==> data == old(data) && next == old(next) && prev == old(prev)
      ensures r != Null ==> && pnode == old(|data|) - 1 && r == old(|data|)
                            && data == old(data) + [Filled(Sentinel, NodeSize)]
                            && next == old(next)[pnode := r] + [Null]
                            && prev == old(prev) + [pnode]
      ensures r != Null ==> Content() == old(Content()) + Filled(Sentinel, NodeSize)
    {
      if next[pnode] != Null {
        return Null;
      }
      if !allocOk {
        return Null;
      }
      // kmalloc hands out a node whose cells hold whatever was there before.
      var garbage: seq<char> := Filled('\0', NodeSize);
      r := |data|;
      data := data + [garbage];
      next := next[pnode := r] + [Null];
      prev := prev + [pnode];
      var i := 0;
      while i < NodeSize
        invariant 0 <= i <= NodeSize
        invariant |data| == r + 1 && data[..r] == old(data) && |data[r]| == NodeSize
        invariant next == old(next)[pnode := r] + [Null] && prev == old(prev) + [pnode]
        invariant forall k :: 0 <= k < i ==> data[r][k] == Sentinel
      {
        data := data[r := data[r][i := Sentinel]];
        i := i + 1;
      }
      assert data[r] == Filled(Sentinel, NodeSize);
      assert data == old(data) + [Filled(Sentinel, NodeSize)];
      ConcatAppend(old(data), Filled(Sentinel, NodeSize));
    }

    /**
     * A copy into node j's cells from cell a on (the copy_from_user of a
     * write): only those cells change, so only the matching bytes of the
     * content change.
     */
    method Put(j: nat, a: nat, b: seq<char>)
      requires Valid() && j < |data| && a + |b| <= NodeSize
      modifies this
      ensures Valid() && |data| == old(|data|) && next == old(next) && prev == old(prev)
      ensures data == old(data)[j := Splice(old(data[j]), a, b)]
      ensures Content() == Splice(old(Content()), j * NodeSize + a, b)
    {
      ConcatUpdate(data, j, a, b);
      ConcatLength(data[..j], NodeSize);
      data := data[j := Splice(data[j], a, b)];
    }

    /**
     * list_trunc: walk to the tail, then free backward through `prev` until
     * `pnode` is reached, and finally clear `pnode`'s `next`. Returns the count
     * of freed nodes, which is the number of nodes that followed `pnode`.
     */
    method Trunc(pnode: nat) returns (freed: nat)
      requires Valid() && pnode < |data|
      modifies this
      ensures Valid() && DoublyLinked()
      ensures data == old(data[..pnode + 1]) && prev == old(prev[..pnode + 1])
      ensures next == old(next[..pnode]) + [Null]
      ensures freed == old(|data|) - pnode - 1
      ensures Content() == old(Content()[..(pnode + 1) * NodeSize])
      ensures old(next[pnode]) == Null ==> freed == 0 && data == old(data) && next == old(next) && prev == old(prev)
    {
      var tmp := pnode;
      while next[tmp] != Null
        invariant pnode <= tmp < |data|
        decreases |data| - tmp
      {
        tmp := next[tmp];
      }
      freed := 0;
      while tmp != pnode
        invariant pnode <= tmp < old(|data|)
        invariant data == old(data[..tmp + 1]) && next == old(next[..tmp + 1]) && prev == old(prev[..tmp + 1])
        invariant freed == old(|data|) - 1 - tmp
        decreases tmp
      {
        tmp := prev[tmp];
        freed := freed + 1;
        // kfree(tmp->next): tmp->next is the last node of the arena.
        var victim := next[tmp];
        data, next, prev := data[..victim], next[..victim], prev[..victim];
      }
      next := next[pnode := Null];
      ConcatPrefix(old(data), pnode + 1);
      ConcatLength(old(data)[..pnode + 1], NodeSize);
    }
  }
}
