/**
 One byte buffer read as rows of a fixed stride. Rows of one length are compared as
 big-endian numbers (`LessIsNumeric`), so an ordering argument is one about naturals.
 */
module ChunkRows {
  import opened Arith
  import opened Bytes

  // ── Lexicographic order on byte strings ──

  predicate Less(a: Bytes, b: Bytes) {
    b != [] && (a == [] || a[0] < b[0] || (a[0] == b[0] && Less(a[1..], b[1..])))
  }

  lemma {:induction false} FromBeFront(b: Bytes)
    requires b != []
    ensures FromBe(b) == b[0] as int * Pow256(|b| - 1) + FromBe(b[1..])
  {
    if |b| > 1 {
      var init := b[..|b|-1];
      FromBeFront(init);
      assert b[1..][..|b|-2] == init[1..];
      MulShift(b[0] as int, 256, Pow256(|b| - 2));
    }
  }

  lemma {:induction false} LessIsNumeric(a: Bytes, b: Bytes)
    requires |a| == |b|
    ensures Less(a, b) <==> FromBe(a) < FromBe(b)
    ensures a == b <==> FromBe(a) == FromBe(b)
  {
    if a != [] {
      FromBeFront(a);
      FromBeFront(b);
      LessIsNumeric(a[1..], b[1..]);
      assert a == [a[0]] + a[1..] && b == [b[0]] + b[1..];
      if a[0] < b[0] {
        LeadingDigitDecides(a[0] as int, b[0] as int, FromBe(a[1..]), FromBe(b[1..]), Pow256(|a| - 1));
      } else if b[0] < a[0] {
        LeadingDigitDecides(b[0] as int, a[0] as int, FromBe(b[1..]), FromBe(a[1..]), Pow256(|a| - 1));
      }
    }
  }

  // ── Chunk views ──

  /** The buffer cut into whole chunks, a shorter remainder dropped. */
  function Chunks(flat: Bytes, stride: nat): (cs: seq<Bytes>)
    requires stride > 0
  {
    if |flat| < stride then [] else [flat[..stride]] + Chunks(flat[stride..], stride)
  }

  function Join(cs: seq<Bytes>): Bytes {
    if cs == [] then [] else cs[0] + Join(cs[1..])
  }

  lemma SliceOfDrop(flat: Bytes, k: nat, j: nat, stride: nat)
    requires j + k + stride <= |flat|
    ensures flat[k..][j..j + stride] == flat[j + k..j + k + stride]
  {
  }

  lemma {:induction false} ChunkAt(flat: Bytes, stride: nat, n: nat, i: nat)
    requires stride > 0 && |flat| == n * stride && i < n
    ensures 0 <= i * stride <= i * stride + stride <= |flat|
    ensures i < |Chunks(flat, stride)| && Chunks(flat, stride)[i] == flat[i * stride..i * stride + stride]
  {
    MulNonNegative(i, stride);
    RowsApart(i, n, stride);
    if i == 0 {
      assert i * stride == 0;
    } else {
      MulSucc(n - 1, stride);
      MulNonNegative(n - 1, stride);
      ChunkAt(flat[stride..], stride, n - 1, i - 1);
      MulSucc(i - 1, stride);
      SliceOfDrop(flat, stride, (i - 1) * stride, stride);
    }
  }

  lemma {:induction false} ChunkCount(flat: Bytes, stride: nat, n: nat)
    requires stride > 0 && |flat| == n * stride
    ensures |Chunks(flat, stride)| == n
  {
    if n > 0 {
      MulSucc(n - 1, stride);
      MulNonNegative(n - 1, stride);
      ChunkCount(flat[stride..], stride, n - 1);
    }
  }

  lemma ChunksAt(flat: Bytes, stride: nat, n: nat)
    requires stride > 0 && |flat| == n * stride
    ensures |Chunks(flat, stride)| == n
    ensures forall i :: 0 <= i < n ==>
              0 <= i * stride <= i * stride + stride <= |flat| &&
              Chunks(flat, stride)[i] == flat[i * stride..i * stride + stride]
  {
    ChunkCount(flat, stride, n);
    forall i | 0 <= i < n
      ensures 0 <= i * stride <= i * stride + stride <= |flat|
      ensures Chunks(flat, stride)[i] == flat[i * stride..i * stride + stride]
    {
      ChunkAt(flat, stride, n, i);
    }
  }

  lemma {:induction false} ChunksOfAppend(a: Bytes, b: Bytes, stride: nat, n: nat)
    requires stride > 0 && |a| == n * stride
    ensures Chunks(a + b, stride) == Chunks(a, stride) + Chunks(b, stride)
  {
    if n == 0 {
      assert a + b == b;
    } else {
      MulSucc(n - 1, stride);
      MulNonNegative(n - 1, stride);
      ChunksOfAppend(a[stride..], b, stride, n - 1);
      assert (a + b)[..stride] == a[..stride];
      assert (a + b)[stride..] == a[stride..] + b;
    }
  }

  lemma {:induction false} ChunksOfPrefix(flat: Bytes, stride: nat, n: nat, w: nat)
    requires stride > 0 && |flat| == n * stride && w <= n
    ensures w * stride <= |flat|
    ensures |Chunks(flat, stride)| == n
    ensures Chunks(flat[..w * stride], stride) == Chunks(flat, stride)[..w]
  {
    MulLe(w, n, stride);
    ChunksAt(flat, stride, n);
    var init, rest := flat[..w * stride], flat[w * stride..];
    assert flat == init + rest;
    ChunksAt(init, stride, w);
    ChunksOfAppend(init, rest, stride, w);
  }

  function Numbers(cs: seq<Bytes>): (ks: seq<nat>)
    ensures |ks| == |cs|
    ensures forall i :: 0 <= i < |cs| ==> ks[i] == FromBe(cs[i])
  {
    seq(|cs|, i requires 0 <= i < |cs| => FromBe(cs[i]))
  }

  function Swapped<T>(s: seq<T>, a: nat, b: nat): (r: seq<T>)
    requires a < |s| && b < |s|
    ensures |r| == |s| && r[a] == s[b] && r[b] == s[a]
    ensures forall i :: 0 <= i < |s| && i != a && i != b ==> r[i] == s[i]
    ensures multiset(r) == multiset(s)
  {
    s[a := s[b]][b := s[a]]
  }

  /** The chunks of a flat set, as numbers. */
  function Keys(flat: Bytes, stride: nat): (ks: seq<nat>)
    requires stride > 0
  {
    Numbers(Chunks(flat, stride))
  }

  lemma SwapOrder<T>(s: seq<T>, a: nat, b: nat)
    requires a < |s| && b < |s|
    ensures Swapped(s, a, b) == Swapped(s, b, a)
    ensures Swapped(s, a, a) == s
  {
  }

  // ── Chunks in place ──

  lemma Cut(flat: Bytes, x: nat, len: nat)
    requires x + len <= |flat|
    ensures flat == flat[..x] + flat[x..x + len] + flat[x + len..]
  {
  }

  lemma RowSplits(init: Bytes, row: Bytes, rest: Bytes, stride: nat, a: nat)
    requires stride > 0 && |init| == a * stride && |row| == stride
    ensures Chunks(init + row + rest, stride) == Chunks(init, stride) + ([row] + Chunks(rest, stride))
  {
    var tail := row + rest;
    assert init + row + rest == init + tail;
    ChunksOfAppend(init, tail, stride, a);
    assert tail[..stride] == row;
    assert tail[stride..] == rest;
  }

  lemma MiddleReplaced<T>(left: seq<T>, x: T, y: T, right: seq<T>)
    ensures (left + ([x] + right))[|left| := y] == left + ([y] + right)
  {
  }

  lemma RowReplaced(init: Bytes, row: Bytes, c: Bytes, rest: Bytes, stride: nat, a: nat)
    requires stride > 0 && |init| == a * stride && |row| == stride && |c| == stride
    ensures |Chunks(init, stride)| == a < |Chunks(init + row + rest, stride)|
    ensures Chunks(init + c + rest, stride) == Chunks(init + row + rest, stride)[a := c]
  {
    ChunkCount(init, stride, a);
    RowSplits(init, row, rest, stride, a);
    RowSplits(init, c, rest, stride, a);
    MiddleReplaced(Chunks(init, stride), row, c, Chunks(rest, stride));
  }

  /** Writing a row at byte `x`, the start of chunk `a`, replaces that chunk. */
  lemma RowWritten(flat: Bytes, stride: nat, n: nat, a: nat, x: nat, c: Bytes)
    requires stride > 0 && |flat| == n * stride && a < n && |c| == stride && x == a * stride
    ensures x + stride <= |flat| && |Chunks(flat, stride)| == n
    ensures Chunks(flat[..x] + c + flat[x + stride..], stride) == Chunks(flat, stride)[a := c]
  {
    RowsApart(a, n, stride);
    ChunkCount(flat, stride, n);
    Cut(flat, x, stride);
    RowReplaced(flat[..x], flat[x..x + stride], c, flat[x + stride..], stride, a);
  }

  /** `dst` receives the `len` bytes at `src`; the two ranges do not overlap. */
  method CopyRange(buf: array<Byte>, src: nat, dst: nat, len: nat)
    requires src + len <= buf.Length && dst + len <= buf.Length
    requires src + len <= dst || dst + len <= src
    modifies buf
    ensures buf[..] == old(buf[..])[..dst] + old(buf[..])[src..src + len] + old(buf[..])[dst + len..]
  {
    forall k | 0 <= k < len {
      buf[dst + k] := buf[src + k];
    }
  }

  method ChunkSwapAt(buf: array<Byte>, stride: nat, a: nat, b: nat, tmp: array<Byte>, ghost n: nat)
    requires 0 < stride <= tmp.Length && tmp != buf
    requires buf.Length == n * stride && a < n && b < n
    modifies buf, tmp
    ensures |Chunks(buf[..], stride)| == |Chunks(old(buf[..]), stride)| == n
    ensures Chunks(buf[..], stride) == Swapped(Chunks(old(buf[..]), stride), a, b)
  {
    ghost var flat := buf[..];
    ChunkCount(flat, stride, n);
    SwapOrder(Chunks(flat, stride), a, b);
    if a == b { return; }
    var lo, hi := if a < b then a else b, if a < b then b else a;
    var x, y := lo * stride, hi * stride;
    RowsSwapped(flat, stride, n, lo, hi, x, y);
    LoadRow(buf, tmp, x, stride);
    CopyRange(buf, y, x, stride);
    StoreRow(tmp, buf, y, stride);
  }

  /** Copying row `hi` over row `lo` and the saved row `lo` over row `hi` swaps the two chunks. */
  lemma RowsSwapped(flat: Bytes, stride: nat, n: nat, lo: nat, hi: nat, x: nat, y: nat)
    requires stride > 0 && |flat| == n * stride && lo < hi < n && x == lo * stride && y == hi * stride
    ensures x + stride <= y && y + stride <= |flat| && |Chunks(flat, stride)| == n
    ensures var once := flat[..x] + flat[y..y + stride] + flat[x + stride..];
            var twice := once[..y] + flat[x..x + stride] + once[y + stride..];
            |once| == |flat| && Chunks(twice, stride) == Swapped(Chunks(flat, stride), lo, hi)
  {
    RowsApart(lo, hi, stride);
    ChunkAt(flat, stride, n, lo);
    ChunkAt(flat, stride, n, hi);
    var cs := Chunks(flat, stride);
    RowWritten(flat, stride, n, lo, x, cs[hi]);
    var once := flat[..x] + cs[hi] + flat[x + stride..];
    RowWritten(once, stride, n, hi, y, cs[lo]);
  }

  /** `tmp` receives the `len` bytes of `buf` at `src`. */
  method LoadRow(buf: array<Byte>, tmp: array<Byte>, src: nat, len: nat)
    requires tmp != buf && len <= tmp.Length && src + len <= buf.Length
    modifies tmp
    ensures tmp[..len] == buf[..][src..src + len]
  {
    forall k | 0 <= k < len {
      tmp[k] := buf[src + k];
    }
  }

  /** `dst` receives the first `len` bytes of `tmp`. */
  method StoreRow(tmp: array<Byte>, buf: array<Byte>, dst: nat, len: nat)
    requires tmp != buf && len <= tmp.Length && dst + len <= buf.Length
    modifies buf
    ensures buf[..] == old(buf[..])[..dst] + tmp[..len] + old(buf[..])[dst + len..]
  {
    forall k | 0 <= k < len {
      buf[dst + k] := tmp[k];
    }
  }

  /** Compares two rows of the buffer as slices. */
  method ChunkLess(buf: array<Byte>, stride: nat, i: nat, j: nat, ghost n: nat) returns (less: bool)
    requires stride > 0 && buf.Length == n * stride && i < n && j < n
    ensures |Keys(buf[..], stride)| == n
    ensures less <==> Keys(buf[..], stride)[i] < Keys(buf[..], stride)[j]
  {
    ChunksAt(buf[..], stride, n);
    var left, right := buf[i * stride..i * stride + stride], buf[j * stride..j * stride + stride];
    assert left == buf[..][i * stride..i * stride + stride];
    assert right == buf[..][j * stride..j * stride + stride];
    less := Less(left, right);
    LessIsNumeric(left, right);
  }

  lemma SliceOfArray(a: array<Byte>, lo: nat, hi: nat)
    requires lo <= hi <= a.Length
    ensures a[lo..hi] == a[..][lo..hi]
  {
  }
}
