/** The in-place heapsort over the rows of one byte buffer. */
module ChunkHeap {
  import opened Bytes
  import opened ChunkRows

  // ── Heap order ──

  /** Node `p` is not below either of its children among the first `hi` cells. */
  predicate NodeOk(ks: seq<nat>, hi: nat, p: nat)
    requires hi <= |ks|
  {
    (2 * p + 1 < hi ==> ks[2 * p + 1] <= ks[p]) &&
    (2 * p + 2 < hi ==> ks[2 * p + 2] <= ks[p])
  }

  ghost predicate HeapFrom(ks: seq<nat>, lo: nat, hi: nat)
    requires hi <= |ks|
  {
    forall p :: lo <= p < hi ==> NodeOk(ks, hi, p)
  }

  /** A heap but for `hole`, whose children are still below its parent. */
  ghost predicate HeapBut(ks: seq<nat>, lo: nat, hi: nat, hole: nat)
    requires hi <= |ks|
  {
    (forall p :: lo <= p < hi && p != hole ==> NodeOk(ks, hi, p)) &&
    (hole > 0 && lo <= (hole - 1) / 2 < hi ==>
      var up := (hole - 1) / 2;
      (2 * hole + 1 < hi ==> ks[2 * hole + 1] <= ks[up]) &&
      (2 * hole + 2 < hi ==> ks[2 * hole + 2] <= ks[up]))
  }

  lemma SiftStep(ks: seq<nat>, lo: nat, hi: nat, hole: nat, child: nat)
    requires hi <= |ks| && lo <= hole < child < hi && HeapBut(ks, lo, hi, hole)
    requires child == 2 * hole + 1 || child == 2 * hole + 2
    requires 2 * hole + 1 < hi ==> ks[2 * hole + 1] <= ks[child]
    requires 2 * hole + 2 < hi ==> ks[2 * hole + 2] <= ks[child]
    requires ks[hole] < ks[child]
    ensures HeapBut(Swapped(ks, hole, child), lo, hi, child)
  {
    var ks' := Swapped(ks, hole, child);
    assert (child - 1) / 2 == hole;
    forall p | lo <= p < hi && p != child
      ensures NodeOk(ks', hi, p)
    {
      if p != hole {
        assert NodeOk(ks, hi, p);
        assert 2 * p + 1 != child && 2 * p + 2 != child;
        if 2 * p + 1 == hole || 2 * p + 2 == hole { assert p == (hole - 1) / 2; }
      }
    }
    assert NodeOk(ks, hi, child);
  }

  lemma {:induction false} HeapTop(ks: seq<nat>, hi: nat, i: nat)
    requires i < hi <= |ks| && HeapFrom(ks, 0, hi)
    ensures ks[i] <= ks[0]
  {
    if i > 0 {
      var p := (i - 1) / 2;
      HeapTop(ks, hi, p);
      assert NodeOk(ks, hi, p);
    }
  }

  /** Only the first `hi` cells move, and they only trade places. */
  ghost predicate Shuffled<T>(before: seq<T>, after: seq<T>, hi: nat) {
    |before| == |after| && hi <= |before| &&
    multiset(after[..hi]) == multiset(before[..hi]) && after[hi..] == before[hi..]
  }

  lemma SwapShuffles<T>(s: seq<T>, a: nat, b: nat, hi: nat)
    requires a < hi <= |s| && b < hi
    ensures Shuffled(s, Swapped(s, a, b), hi)
  {
    assert Swapped(s, a, b)[..hi] == Swapped(s[..hi], a, b);
  }

  lemma NumbersSwapped(cs: seq<Bytes>, a: nat, b: nat)
    requires a < |cs| && b < |cs|
    ensures Numbers(Swapped(cs, a, b)) == Swapped(Numbers(cs), a, b)
  {
  }

  lemma ShufflesCompose<T>(s: seq<T>, t: seq<T>, u: seq<T>, hi: nat)
    requires Shuffled(s, t, hi) && Shuffled(t, u, hi)
    ensures Shuffled(s, u, hi)
  {
  }

  lemma ShuffleKeepsElements<T>(s: seq<T>, t: seq<T>, hi: nat)
    requires Shuffled(s, t, hi)
    ensures multiset(s) == multiset(t)
    ensures forall i :: 0 <= i < hi ==> t[i] in s[..hi]
  {
    assert s == s[..hi] + s[hi..] && t == t[..hi] + t[hi..];
    forall i | 0 <= i < hi
      ensures t[i] in s[..hi]
    {
      assert t[..hi][i] in multiset(t[..hi]);
    }
  }

  /** The loop invariant of the sift: a shuffle of the start that is a heap but for `hole`. */
  ghost predicate Sinking(cs0: seq<Bytes>, cs: seq<Bytes>, lo: nat, hi: nat, hole: nat) {
    lo <= hole < hi <= |cs| && Shuffled(cs0, cs, hi) && HeapBut(Numbers(cs), lo, hi, hole)
  }

  /** `child` is the greatest child of `hole`. */
  ghost predicate TopChild(cs: seq<Bytes>, hi: nat, hole: nat, child: nat) {
    hole < child < hi <= |cs| && (child == 2 * hole + 1 || child == 2 * hole + 2) &&
    Numbers(cs)[2 * hole + 1] <= Numbers(cs)[child] &&
    (2 * hole + 2 < hi ==> Numbers(cs)[2 * hole + 2] <= Numbers(cs)[child])
  }

  lemma HoleSinks(cs0: seq<Bytes>, cs: seq<Bytes>, lo: nat, hi: nat, hole: nat, child: nat)
    requires Sinking(cs0, cs, lo, hi, hole) && TopChild(cs, hi, hole, child)
    requires Numbers(cs)[hole] < Numbers(cs)[child]
    ensures Sinking(cs0, Swapped(cs, hole, child), lo, hi, child)
  {
    SiftStep(Numbers(cs), lo, hi, hole, child);
    NumbersSwapped(cs, hole, child);
    SwapShuffles(cs, hole, child, hi);
    ShufflesCompose(cs0, cs, Swapped(cs, hole, child), hi);
  }

  lemma HoleRests(cs0: seq<Bytes>, cs: seq<Bytes>, lo: nat, hi: nat, hole: nat)
    requires Sinking(cs0, cs, lo, hi, hole)
    requires 2 * hole + 1 < hi ==>
               exists child: nat :: TopChild(cs, hi, hole, child) && Numbers(cs)[child] <= Numbers(cs)[hole]
    ensures HeapFrom(Numbers(cs), lo, hi)
  {
    assert NodeOk(Numbers(cs), hi, hole);
  }

  /** The greater of the cells `child` and `child + 1`, the second one if it is inside the heap. */
  method GreaterChild(buf: array<Byte>, stride: nat, child: nat, end: nat, ghost n: nat) returns (greater: nat)
    requires stride > 0 && buf.Length == n * stride && child < end <= n
    ensures |Keys(buf[..], stride)| == n
    ensures greater == child || (greater == child + 1 && greater < end)
    ensures Keys(buf[..], stride)[child] <= Keys(buf[..], stride)[greater]
    ensures child + 1 < end ==> Keys(buf[..], stride)[child + 1] <= Keys(buf[..], stride)[greater]
  {
    ChunkCount(buf[..], stride, n);
    greater := child;
    if child + 1 < end {
      var goRight := ChunkLess(buf, stride, child, child + 1, n);
      if goRight { greater := child + 1; }
    }
  }

  method HeapSiftDown(buf: array<Byte>, stride: nat, start: nat, end: nat, tmp: array<Byte>, ghost n: nat)
    requires 0 < stride <= tmp.Length && tmp != buf
    requires buf.Length == n * stride && start < end <= n
    requires |Keys(buf[..], stride)| == n && HeapBut(Keys(buf[..], stride), start, end, start)
    modifies buf, tmp
    ensures |Keys(buf[..], stride)| == n && HeapFrom(Keys(buf[..], stride), start, end)
    ensures Shuffled(old(Chunks(buf[..], stride)), Chunks(buf[..], stride), end)
  {
    var root := start;
    ghost var cs0 := Chunks(buf[..], stride);
    while true
      invariant |Chunks(buf[..], stride)| == n && Sinking(cs0, Chunks(buf[..], stride), start, end, root)
      decreases end - root
    {
      ghost var cs := Chunks(buf[..], stride);
      var child := 2 * root + 1;
      if child >= end {
        HoleRests(cs0, cs, start, end, root);
        break;
      }
      child := GreaterChild(buf, stride, child, end, n);
      assert TopChild(cs, end, root, child);
      var needSwap := ChunkLess(buf, stride, root, child, n);
      if needSwap {
        HoleSinks(cs0, cs, start, end, root, child);
        ChunkSwapAt(buf, stride, root, child, tmp, n);
        root := child;
      } else {
        HoleRests(cs0, cs, start, end, root);
        break;
      }
    }
  }

  // ── Heapsort ──

  ghost predicate Ascending(ks: seq<nat>) {
    forall i, j :: 0 <= i < j < |ks| ==> ks[i] <= ks[j]
  }

  /** A heap in front of a sorted tail that is nowhere below it. */
  ghost predicate HeapAndTail(ks: seq<nat>, end: nat) {
    end <= |ks| && HeapFrom(ks, 0, end) && Ascending(ks[end..]) &&
    forall i, j :: 0 <= i < end <= j < |ks| ==> ks[i] <= ks[j]
  }

  lemma TopMoved(ks: seq<nat>, end: nat)
    requires HeapAndTail(ks, end + 1)
    ensures var ks' := Swapped(ks, 0, end);
            HeapBut(ks', 0, end, 0) && Ascending(ks'[end..]) &&
            forall i, j :: 0 <= i < end <= j < |ks'| ==> ks'[i] <= ks'[j]
  {
    var ks' := Swapped(ks, 0, end);
    forall i | 0 <= i <= end
      ensures ks[i] <= ks[0]
    {
      HeapTop(ks, end + 1, i);
    }
    forall p | 0 <= p < end && p != 0
      ensures NodeOk(ks', end, p)
    {
      assert NodeOk(ks, end + 1, p);
    }
    forall i, j | 0 <= i < j < |ks'[end..]|
      ensures ks'[end..][i] <= ks'[end..][j]
    {
      assert ks'[end..][j] == ks[end + 1..][j - 1];
      if i > 0 { assert ks'[end..][i] == ks[end + 1..][i - 1]; }
    }
  }

  lemma TailKept(cs: seq<Bytes>, cs': seq<Bytes>, end: nat)
    requires Shuffled(cs, cs', end) && HeapFrom(Numbers(cs'), 0, end)
    requires Ascending(Numbers(cs)[end..])
    requires forall i, j :: 0 <= i < end <= j < |cs| ==> Numbers(cs)[i] <= Numbers(cs)[j]
    ensures HeapAndTail(Numbers(cs'), end)
  {
    var ks, ks' := Numbers(cs), Numbers(cs');
    ShuffleKeepsElements(cs, cs', end);
    forall j | end <= j < |cs'|
      ensures cs'[j] == cs[j]
    {
      assert cs'[j] == cs'[end..][j - end] == cs[end..][j - end];
    }
    assert ks'[end..] == ks[end..];
    forall i, j | 0 <= i < end <= j < |ks'|
      ensures ks'[i] <= ks'[j]
    {
      var m :| 0 <= m < end && cs[..end][m] == cs'[i];
      assert ks[m] == ks'[i] && ks[j] == ks'[j];
    }
  }

  method HeapSort(buf: array<Byte>, stride: nat, tmp: array<Byte>, n: nat)
    requires 0 < stride <= tmp.Length && tmp != buf
    requires buf.Length == n * stride && n >= 2
    modifies buf, tmp
    ensures |Keys(buf[..], stride)| == n && Ascending(Keys(buf[..], stride))
    ensures multiset(Chunks(buf[..], stride)) == multiset(old(Chunks(buf[..], stride)))
  {
    hide Chunks;
    ChunkCount(buf[..], stride, n);
    var i := n / 2;
    forall p | i <= p < n
      ensures NodeOk(Keys(buf[..], stride), n, p)
    {
    }
    while i > 0
      invariant 0 <= i <= n / 2
      invariant |Keys(buf[..], stride)| == n && HeapFrom(Keys(buf[..], stride), i, n)
      invariant multiset(Chunks(buf[..], stride)) == multiset(old(Chunks(buf[..], stride)))
    {
      i := i - 1;
      ghost var cs := Chunks(buf[..], stride);
      HeapSiftDown(buf, stride, i, n, tmp, n);
      ShuffleKeepsElements(cs, Chunks(buf[..], stride), n);
    }
    var end := n;
    while end > 1
      invariant 1 <= end <= n
      invariant |Keys(buf[..], stride)| == n && HeapAndTail(Keys(buf[..], stride), end)
      invariant multiset(Chunks(buf[..], stride)) == multiset(old(Chunks(buf[..], stride)))
    {
      end := end - 1;
      ghost var cs := Chunks(buf[..], stride);
      TopMoved(Numbers(cs), end);
      NumbersSwapped(cs, 0, end);
      ChunkSwapAt(buf, stride, 0, end, tmp, n);
      ghost var cs' := Chunks(buf[..], stride);
      HeapSiftDown(buf, stride, 0, end, tmp, n);
      ShuffleKeepsElements(cs', Chunks(buf[..], stride), end);
      TailKept(cs', Chunks(buf[..], stride), end);
    }
    HeapOfOne(Keys(buf[..], stride));
  }

  lemma HeapOfOne(ks: seq<nat>)
    requires HeapAndTail(ks, 1)
    ensures Ascending(ks)
  {
    forall i, j | 0 <= i < j < |ks|
      ensures ks[i] <= ks[j]
    {
      if i > 0 { assert ks[i] == ks[1..][i - 1] && ks[j] == ks[1..][j - 1]; }
    }
  }
}
