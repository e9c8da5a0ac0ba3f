/**
 * Value-level vocabulary shared by both generations of the segment-chain store:
 * the kernel constants they use, the content of a chain as the concatenation
 * of its nodes, the splice a write performs on that content, the sentinel
 * padding a freshly allocated node adds, and the byte reversal the inverted
 * view applies.
 */
module Segments {

  /** The NULL link of a node. Arena indices are non-negative. */
  const Null: int := -1

  /** The byte a freshly allocated node is filled with before it is linked in. */
  const Sentinel: char := 'e'

  /** Linux errno values; the driver returns them negated. */
  const EACCES: int := 13
  const EFAULT: int := 14
  const EFBIG: int := 27

  /** `whence` values of llseek. */
  const SeekSet: int := 0
  const SeekCur: int := 1
  const SeekEnd: int := 2

  function Min(a: int, b: int): int { if a < b then a else b }
  function Max(a: int, b: int): int { if a < b then b else a }

  /** The position an llseek with a known `whence` aims at, for a store of `size` bytes. */
  function SeekTarget(fpos: int, l: int, whence: int, size: int): int
  {
    if whence == SeekSet then l else if whence == SeekCur then fpos + l else size + l
  }

  /** A block of `n` copies of `c`. */
  function Filled(c: char, n: nat): (r: seq<char>)
    ensures |r| == n
    ensures forall i :: 0 <= i < n ==> r[i] == c
  {
    seq(n, _ => c)
  }

  /** Every node of `nodes` holds exactly `n` cells. */
  ghost predicate Uniform(nodes: seq<seq<char>>, n: nat)
  {
    forall j :: 0 <= j < |nodes| ==> |nodes[j]| == n
  }

  /** The bytes of a chain: its node blocks, one after another, in chain order. */
  function Concat(nodes: seq<seq<char>>): seq<char>
  {
    if nodes == [] then [] else nodes[0] + Concat(nodes[1..])
  }

  /** A chain of `k` nodes of `n` cells holds `k * n` bytes. */
  lemma {:induction false} ConcatLength(nodes: seq<seq<char>>, n: nat)
    requires Uniform(nodes, n)
    ensures |Concat(nodes)| == |nodes| * n
  {
    if nodes != [] {
      ConcatLength(nodes[1..], n);
    }
  }

  /** Division by `n` is determined by any decomposition `q == j * n + c` with `c < n`. */
  lemma DivModUnique(q: int, n: int, j: int, c: int)
    requires n > 0 && 0 <= c < n && q == j * n + c
    ensures q / n == j && q % n == c
  {
    var d, r := q / n, q % n;
    assert q == d * n + r && 0 <= r < n;
    if d > j {
      MulAtLeast(d - j, n);
    } else if d < j {
      MulAtLeast(j - d, n);
    }
  }

  lemma {:induction false} MulAtLeast(k: int, n: int)
    requires k >= 1 && n > 0
    ensures k * n >= n
  {
    if k > 1 {
      MulAtLeast(k - 1, n);
      assert k * n == (k - 1) * n + n;
    }
  }

  /** The bytes of two chains joined are the bytes of the first, then those of the second. */
  lemma {:induction false} ConcatJoin(xs: seq<seq<char>>, ys: seq<seq<char>>)
    ensures Concat(xs + ys) == Concat(xs) + Concat(ys)
  {
    if xs == [] {
      assert xs + ys == ys;
    } else {
      assert (xs + ys)[1..] == xs[1..] + ys;
      ConcatJoin(xs[1..], ys);
    }
  }

  /** The bytes of a chain are those of the nodes before node j, then node j, then the rest. */
  lemma ConcatSplit(nodes: seq<seq<char>>, j: nat)
    requires j < |nodes|
    ensures Concat(nodes) == Concat(nodes[..j]) + nodes[j] + Concat(nodes[j + 1..])
  {
    var pre, post := nodes[..j], nodes[j..];
    assert nodes == pre + post;
    ConcatJoin(pre, post);
    assert post[1..] == nodes[j + 1..];
  }

  /** Cell c of node j is the byte that follows the bytes of the nodes before j by c. */
  lemma ConcatAt(nodes: seq<seq<char>>, j: nat, c: nat)
    requires j < |nodes| && c < |nodes[j]|
    ensures |Concat(nodes[..j])| + c < |Concat(nodes)|
    ensures Concat(nodes)[|Concat(nodes[..j])| + c] == nodes[j][c]
  {
    ConcatSplit(nodes, j);
  }

  /** Linking one more node after the last appends its cells to the bytes. */
  lemma ConcatAppend(nodes: seq<seq<char>>, b: seq<char>)
    ensures Concat(nodes + [b]) == Concat(nodes) + b
  {
    ConcatJoin(nodes, [b]);
    assert Concat([b]) == b + Concat([]);
  }

  /** The first k nodes hold a prefix of the bytes. */
  lemma ConcatPrefix(nodes: seq<seq<char>>, k: nat)
    requires k <= |nodes|
    ensures |Concat(nodes[..k])| <= |Concat(nodes)|
    ensures Concat(nodes[..k]) == Concat(nodes)[..|Concat(nodes[..k])|]
  {
    assert nodes == nodes[..k] + nodes[k..];
    ConcatJoin(nodes[..k], nodes[k..]);
  }

  /** Overwriting cells of node j overwrites the matching range of the bytes. */
  lemma ConcatUpdate(nodes: seq<seq<char>>, j: nat, a: nat, b: seq<char>)
    requires j < |nodes| && a + |b| <= |nodes[j]|
    ensures |Concat(nodes[..j])| + a + |b| <= |Concat(nodes)|
    ensures Concat(nodes[j := Splice(nodes[j], a, b)]) == Splice(Concat(nodes), |Concat(nodes[..j])| + a, b)
  {
    var upd := nodes[j := Splice(nodes[j], a, b)];
    ConcatSplit(nodes, j);
    ConcatSplit(upd, j);
    assert upd[..j] == nodes[..j] && upd[j + 1..] == nodes[j + 1..];
    SpliceMiddle(Concat(nodes[..j]), nodes[j], Concat(nodes[j + 1..]), a, b);
  }

  /** `b` written over `c` starting at `at`. */
  function Splice(c: seq<char>, at: nat, b: seq<char>): (r: seq<char>)
    requires at + |b| <= |c|
    ensures |r| == |c|
  {
    c[..at] + b + c[at + |b|..]
  }

  /** `c` grown to `len` bytes with sentinel filler, as fresh nodes add it. */
  function Pad(c: seq<char>, len: nat): (r: seq<char>)
    ensures |r| == if len <= |c| then |c| else len
  {
    if len <= |c| then c else c + Filled(Sentinel, len - |c|)
  }

  /** `s` back to front. */
  function Reversed(s: seq<char>): (r: seq<char>)
    ensures |r| == |s|
    ensures forall k :: 0 <= k < |s| ==> r[k] == s[|s| - 1 - k]
  {
    if s == [] then [] else Reversed(s[1..]) + [s[0]]
  }

  /** Splicing the empty sequence changes nothing. */
  lemma SpliceEmpty(c: seq<char>, at: nat)
    requires at <= |c|
    ensures Splice(c, at, []) == c
  {
  }

  /** Sentinel filler added in two steps is the same as added at once. */
  lemma PadGrow(c: seq<char>, len: nat, k: nat)
    requires |c| <= len
    ensures Pad(c, len) + Filled(Sentinel, k) == Pad(c, len + k)
  {
    var lhs, rhs := Pad(c, len) + Filled(Sentinel, k), Pad(c, len + k);
    assert |lhs| == |rhs|;
    forall i | 0 <= i < |lhs| ensures lhs[i] == rhs[i] {
      if i >= len {
        assert lhs[i] == Filled(Sentinel, k)[i - len];
      }
    }
  }

  /** Bytes appended after a splice are untouched by it. */
  lemma SpliceAppend(c: seq<char>, at: nat, b: seq<char>, tail: seq<char>)
    requires at + |b| <= |c|
    ensures Splice(c, at, b) + tail == Splice(c + tail, at, b)
  {
    var lhs, rhs := Splice(c, at, b) + tail, Splice(c + tail, at, b);
    assert |lhs| == |rhs|;
    forall i | 0 <= i < |lhs| ensures lhs[i] == rhs[i] {
    }
  }

  /** A splice inside the middle part leaves the parts around it alone. */
  lemma SpliceMiddle(pre: seq<char>, mid: seq<char>, post: seq<char>, a: nat, b: seq<char>)
    requires a + |b| <= |mid|
    ensures pre + Splice(mid, a, b) + post == Splice(pre + mid + post, |pre| + a, b)
  {
    var lhs, rhs := pre + Splice(mid, a, b) + post, Splice(pre + mid + post, |pre| + a, b);
    assert |lhs| == |rhs|;
    forall i | 0 <= i < |lhs| ensures lhs[i] == rhs[i] {
    }
  }

  /** Two adjacent splices are one splice of the joined bytes. */
  lemma SpliceJoin(c: seq<char>, at: nat, b1: seq<char>, b2: seq<char>)
    requires at + |b1| + |b2| <= |c|
    ensures Splice(Splice(c, at, b1), at + |b1|, b2) == Splice(c, at, b1 + b2)
  {
    var lhs, rhs := Splice(Splice(c, at, b1), at + |b1|, b2), Splice(c, at, b1 + b2);
    forall i | 0 <= i < |c| ensures lhs[i] == rhs[i] {
      if at <= i < at + |b1| {
        assert (b1 + b2)[i - at] == b1[i - at];
      } else if at + |b1| <= i < at + |b1| + |b2| {
        assert (b1 + b2)[i - at] == b2[i - at - |b1|];
      }
    }
  }

  /** A slice of a prefix is the same slice of the whole. */
  lemma SliceOfPrefix(c: seq<char>, k: nat, a: nat, b: nat)
    requires a <= b <= k <= |c|
    ensures c[..k][a..b] == c[a..b]
  {
    assert |c[..k][a..b]| == b - a;
    forall i | 0 <= i < b - a ensures c[..k][a..b][i] == c[a..b][i] {
    }
  }

  /** The first a bytes followed by bytes [a, b) are the first b bytes. */
  lemma TakeJoin(u: seq<char>, a: nat, b: nat)
    requires a <= b <= |u|
    ensures u[..a] + u[a..b] == u[..b]
  {
  }

  /** Writing u[done..done + m] right after a splice of u[..done] extends it to a splice of u[..done + m]. */
  lemma SpliceStep(c: seq<char>, at: nat, u: seq<char>, done: nat, m: nat)
    requires done + m <= |u| && at + done + m <= |c|
    ensures Splice(Splice(c, at, u[..done]), at + done, u[done..done + m]) == Splice(c, at, u[..done + m])
  {
    SpliceJoin(c, at, u[..done], u[done..done + m]);
    TakeJoin(u, done, done + m);
  }
}
