/**
 Flat primary-key sets: the rows of one buffer sorted and deduplicated in place, and
 searched by bisection.
 */
module FlatPk {
  import opened Arith
  import opened Bytes
  import opened ChunkHeap
  import opened ChunkRows

  // ── Sorted sets of chunks ──

  ghost predicate StrictlyAscending(cs: seq<Bytes>) {
    forall i, j :: 0 <= i < j < |cs| ==> Less(cs[i], cs[j])
  }

  /** `flat` holds each chunk of `input` once, in lexicographic order. */
  ghost predicate SortedSetOf(flat: Bytes, stride: nat, input: seq<Bytes>)
    requires stride > 0
  {
    |flat| == |Chunks(flat, stride)| * stride &&
    StrictlyAscending(Chunks(flat, stride)) &&
    forall c :: c in Chunks(flat, stride) <==> c in input
  }

  lemma {:induction false} ChunkLength(flat: Bytes, stride: nat, i: nat)
    requires stride > 0 && i < |Chunks(flat, stride)|
    ensures |Chunks(flat, stride)[i]| == stride
  {
    if i > 0 {
      ChunkLength(flat[stride..], stride, i - 1);
    }
  }

  ghost predicate Uniform(cs: seq<Bytes>, stride: nat) {
    forall i :: 0 <= i < |cs| ==> |cs[i]| == stride
  }

  lemma ChunksUniform(flat: Bytes, stride: nat)
    requires stride > 0
    ensures Uniform(Chunks(flat, stride), stride)
  {
    forall i | 0 <= i < |Chunks(flat, stride)|
      ensures |Chunks(flat, stride)[i]| == stride
    {
      ChunkLength(flat, stride, i);
    }
  }

  lemma AscendingNumbers(cs: seq<Bytes>, stride: nat)
    requires Uniform(cs, stride)
    ensures StrictlyAscending(cs) <==> forall i, j :: 0 <= i < j < |cs| ==> Numbers(cs)[i] < Numbers(cs)[j]
  {
    forall i, j | 0 <= i < j < |cs|
      ensures Less(cs[i], cs[j]) <==> Numbers(cs)[i] < Numbers(cs)[j]
    {
      LessIsNumeric(cs[i], cs[j]);
    }
  }

  /** Two strictly ascending sequences over one set are one sequence. */
  lemma {:induction false} AscendingUnique(cs: seq<Bytes>, ds: seq<Bytes>, stride: nat)
    requires Uniform(cs, stride) && Uniform(ds, stride)
    requires StrictlyAscending(cs) && StrictlyAscending(ds)
    requires forall c :: c in cs <==> c in ds
    ensures cs == ds
  {
    assert ds == [] || ds[0] in cs;
    if cs != [] {
      assert cs[0] in ds;
      AscendingNumbers(cs, stride);
      AscendingNumbers(ds, stride);
      var i :| 0 <= i < |ds| && ds[i] == cs[0];
      assert ds[0] in cs;
      var j :| 0 <= j < |cs| && cs[j] == ds[0];
      assert Numbers(ds)[0] <= Numbers(ds)[i] && Numbers(cs)[0] <= Numbers(cs)[j];
      LessIsNumeric(cs[0], ds[0]);
      TailElements(cs, stride);
      TailElements(ds, stride);
      AscendingUnique(cs[1..], ds[1..], stride);
      assert cs == [cs[0]] + cs[1..] && ds == [ds[0]] + ds[1..];
    }
  }

  lemma TailElements(cs: seq<Bytes>, stride: nat)
    requires cs != [] && Uniform(cs, stride) && StrictlyAscending(cs)
    ensures Uniform(cs[1..], stride) && StrictlyAscending(cs[1..])
    ensures forall c :: c in cs[1..] <==> c in cs && c != cs[0]
  {
    AscendingNumbers(cs, stride);
    forall c | c in cs && c != cs[0]
      ensures c in cs[1..]
    {
      var i :| 0 <= i < |cs| && cs[i] == c;
      assert cs[1..][i - 1] == c;
    }
    forall c | c in cs[1..]
      ensures c in cs && c != cs[0]
    {
      var i :| 0 <= i < |cs[1..]| && cs[1..][i] == c;
      assert c == cs[i + 1];
      assert Numbers(cs)[0] < Numbers(cs)[i + 1];
    }
  }

  lemma {:induction false} JoinOfChunks(flat: Bytes, stride: nat, n: nat)
    requires stride > 0 && |flat| == n * stride
    ensures Join(Chunks(flat, stride)) == flat
  {
    if n > 0 {
      MulSucc(n - 1, stride);
      MulNonNegative(n - 1, stride);
      JoinOfChunks(flat[stride..], stride, n - 1);
      var cs := Chunks(flat, stride);
      assert cs[0] == flat[..stride] && cs[1..] == Chunks(flat[stride..], stride);
    }
  }

  /** The sorted set of the input's chunks is one buffer, whichever path builds it. */
  lemma SortedSetUnique(flat: Bytes, other: Bytes, stride: nat, input: seq<Bytes>)
    requires stride > 0 && SortedSetOf(flat, stride, input) && SortedSetOf(other, stride, input)
    ensures flat == other
  {
    ChunksUniform(flat, stride);
    ChunksUniform(other, stride);
    AscendingUnique(Chunks(flat, stride), Chunks(other, stride), stride);
    JoinOfChunks(flat, stride, |Chunks(flat, stride)|);
    JoinOfChunks(other, stride, |Chunks(other, stride)|);
  }

  // ── Dedup by a write pointer ──

  /** The first `r` rows without the ones equal to the row before them. */
  ghost function Distinct(cs: seq<Bytes>, r: nat): seq<Bytes>
    requires r <= |cs|
  {
    if r == 0 then []
    else if r > 1 && cs[r - 1] == cs[r - 2] then Distinct(cs, r - 1)
    else Distinct(cs, r - 1) + [cs[r - 1]]
  }

  lemma {:induction false} DistinctLast(cs: seq<Bytes>, r: nat)
    requires 0 < r <= |cs|
    ensures Distinct(cs, r) != [] && Distinct(cs, r)[|Distinct(cs, r)| - 1] == cs[r - 1]
  {
    if r > 1 { DistinctLast(cs, r - 1); }
  }

  /** On sorted rows, dropping equal neighbours leaves every row once, still in order. */
  lemma {:induction false} DistinctSorts(cs: seq<Bytes>, stride: nat, r: nat)
    requires r <= |cs| && Uniform(cs, stride) && Ascending(Numbers(cs))
    ensures Uniform(Distinct(cs, r), stride) && StrictlyAscending(Distinct(cs, r))
  {
    hide Less;
    if r > 0 {
      DistinctSorts(cs, stride, r - 1);
      if r > 1 && cs[r - 1] != cs[r - 2] {
        DistinctLast(cs, r - 1);
        NextAbove(cs, stride, r);
        AboveLast(Distinct(cs, r - 1), cs[r - 1], stride);
      }
    }
  }

  lemma NextAbove(cs: seq<Bytes>, stride: nat, r: nat)
    requires 2 <= r <= |cs| && Uniform(cs, stride) && Ascending(Numbers(cs)) && cs[r - 1] != cs[r - 2]
    ensures Less(cs[r - 2], cs[r - 1])
  {
    assert Numbers(cs)[r - 2] <= Numbers(cs)[r - 1];
    LessIsNumeric(cs[r - 2], cs[r - 1]);
  }

  lemma {:induction false} DistinctHolds(cs: seq<Bytes>, r: nat, c: Bytes)
    requires r <= |cs|
    ensures c in Distinct(cs, r) <==> c in cs[..r]
  {
    if r > 0 {
      DistinctHolds(cs, r - 1, c);
      assert cs[..r] == cs[..r - 1] + [cs[r - 1]];
      assert r > 1 ==> cs[..r - 1][r - 2] == cs[r - 2];
    }
  }

  lemma AboveLast(kept: seq<Bytes>, c: Bytes, stride: nat)
    requires kept != [] && Uniform(kept, stride) && StrictlyAscending(kept) && |c| == stride
    requires Less(kept[|kept| - 1], c)
    ensures StrictlyAscending(kept + [c])
  {
    var last := |kept| - 1;
    LessIsNumeric(kept[last], c);
    forall i | 0 <= i <= last
      ensures Less(kept[i], c)
    {
      LessIsNumeric(kept[i], kept[last]);
      LessIsNumeric(kept[i], c);
    }
  }

  /** The loop invariant of the dedup: `w` rows kept of `r` read, the rest untouched. */
  ghost predicate Kept(cs0: seq<Bytes>, cs: seq<Bytes>, w: nat, r: nat) {
    1 <= w <= r <= |cs0| && |cs| == |cs0| && cs[..w] == Distinct(cs0, r) && cs[r..] == cs0[r..]
  }

  lemma KeepStarts(cs0: seq<Bytes>)
    requires cs0 != []
    ensures Kept(cs0, cs0, 1, 1)
  {
    assert Distinct(cs0, 0) == [];
  }

  lemma KeepRound(cs0: seq<Bytes>, cs: seq<Bytes>, w: nat, r: nat)
    requires Kept(cs0, cs, w, r) && r < |cs0|
    ensures if cs[r] != cs[w - 1] then Kept(cs0, cs[w := cs[r]], w + 1, r + 1) else Kept(cs0, cs, w, r + 1)
  {
    DistinctLast(cs0, r);
    assert cs[r] == cs[r..][0] == cs0[r..][0] == cs0[r];
    assert cs[w - 1] == cs[..w][w - 1] == cs0[r - 1];
    assert cs[r + 1..] == cs[r..][1..] && cs0[r + 1..] == cs0[r..][1..];
    if cs[r] != cs[w - 1] {
      var cs' := cs[w := cs[r]];
      assert cs'[..w + 1] == cs[..w] + [cs[r]];
      assert cs'[r + 1..] == cs[r + 1..];
    }
  }

  lemma SameElements<T>(s: seq<T>, t: seq<T>)
    requires multiset(s) == multiset(t)
    ensures forall c :: c in s <==> c in t
  {
    forall c
      ensures c in s <==> c in t
    {
      assert c in s <==> c in multiset(s);
      assert c in t <==> c in multiset(t);
    }
  }

  lemma DedupDone(cs0: seq<Bytes>, flat: Bytes, stride: nat, n: nat, w: nat, input: seq<Bytes>)
    requires stride > 0 && |flat| == n * stride && |cs0| == n
    requires Uniform(cs0, stride) && Ascending(Numbers(cs0)) && multiset(cs0) == multiset(input)
    requires Kept(cs0, Chunks(flat, stride), w, n)
    ensures Offset(w, stride) <= |flat| && SortedSetOf(flat[..Offset(w, stride)], stride, input)
  {
    OffsetIsProduct(w, stride);
    ChunksOfPrefix(flat, stride, n, w);
    DistinctSorts(cs0, stride, n);
    assert cs0[..n] == cs0;
    forall c
      ensures c in Distinct(cs0, n) <==> c in cs0
    {
      DistinctHolds(cs0, n, c);
    }
    SameElements(cs0, input);
  }

  lemma FewChunks(flat: Bytes, stride: nat, n: nat)
    requires stride > 0 && |flat| == n * stride
    ensures |Chunks(flat, stride)| < 2 ==> SortedSetOf(flat, stride, Chunks(flat, stride))
    ensures |flat| <= stride ==> |Chunks(flat, stride)| < 2
  {
    ChunkCount(flat, stride, n);
    if n >= 2 { MulLe(2, n, stride); }
  }

  lemma CountIs(length: nat, stride: nat, n: nat)
    requires stride > 0 && length == n * stride
    ensures length / stride == n
  {
    DivModUnique(length, stride, n, 0);
  }

  /** The bytes of chunks `j` and `i - 1`, and their distance. */
  lemma RowBytes(flat: Bytes, stride: nat, n: nat, i: nat, j: nat, w: nat, r: nat)
    requires stride > 0 && |flat| == n * stride && 1 <= i <= j
    requires w == i * stride && r == j * stride && r < |flat|
    ensures j < n && |Chunks(flat, stride)| == n
    ensures stride <= w <= r && r + stride <= |flat|
    ensures w == r || w + stride <= r
    ensures Chunks(flat, stride)[j] == flat[r..r + stride]
    ensures Chunks(flat, stride)[i - 1] == flat[w - stride..w]
  {
    if n <= j { MulLe(n, j, stride); }
    ChunkCount(flat, stride, n);
    ChunkAt(flat, stride, n, j);
    ChunkAt(flat, stride, n, i - 1);
    MulSucc(i - 1, stride);
    if i < j { RowsApart(i, j, stride); }
  }

  lemma AllRead(j: nat, n: nat, stride: nat)
    requires stride > 0 && j <= n && n * stride <= Offset(j, stride)
    ensures j == n
  {
    OffsetIsProduct(j, stride);
    if j < n { RowsApart(j, n, stride); }
  }

  /** Where row `i` starts. */
  ghost function Offset(i: nat, stride: nat): nat {
    if i == 0 then 0 else Offset(i - 1, stride) + stride
  }

  lemma {:induction false} OffsetIsProduct(i: nat, stride: nat)
    ensures Offset(i, stride) == i * stride
  {
    if i > 0 {
      OffsetIsProduct(i - 1, stride);
      MulSucc(i - 1, stride);
    }
  }

  /** Compares the row at byte `r` with the row that ends at byte `w`. */
  method RowsDiffer(flat: array<Byte>, r: nat, w: nat, stride: nat, ghost n: nat, ghost i: nat, ghost j: nat)
    returns (differ: bool)
    requires stride > 0 && flat.Length == n * stride && 1 <= i <= j < n && w == Offset(i, stride) &&
             r == Offset(j, stride)
    ensures |Chunks(flat[..], stride)| == n
    ensures differ <==> Chunks(flat[..], stride)[j] != Chunks(flat[..], stride)[i - 1]
  {
    OffsetIsProduct(i, stride);
    OffsetIsProduct(j, stride);
    RowsApart(j, n, stride);
    RowBytes(flat[..], stride, n, i, j, w, r);
    SliceOfArray(flat, r, r + stride);
    SliceOfArray(flat, w - stride, w);
    differ := flat[r..r + stride] != flat[w - stride..w];
  }

  /** The row at byte `r` is kept at byte `w`; nothing is copied when the two are one place. */
  method KeepRow(flat: array<Byte>, r: nat, w: nat, stride: nat, ghost n: nat, ghost i: nat, ghost j: nat)
    requires stride > 0 && flat.Length == n * stride && 1 <= i <= j < n && w == Offset(i, stride) &&
             r == Offset(j, stride)
    modifies flat
    ensures |Chunks(old(flat[..]), stride)| == n
    ensures Chunks(flat[..], stride) == Chunks(old(flat[..]), stride)[i := Chunks(old(flat[..]), stride)[j]]
  {
    ghost var cs := Chunks(flat[..], stride);
    OffsetIsProduct(i, stride);
    OffsetIsProduct(j, stride);
    RowsApart(j, n, stride);
    RowBytes(flat[..], stride, n, i, j, w, r);
    RowWritten(flat[..], stride, n, i, w, cs[j]);
    if r != w {
      CopyRange(flat, r, w, stride);
    } else {
      RowsMeet(i, j, stride);
      assert cs[i := cs[j]] == cs;
    }
  }

  lemma RowsMeet(i: nat, j: nat, stride: nat)
    requires stride > 0 && i <= j && i * stride == j * stride
    ensures i == j
  {
    if i < j { RowsApart(i, j, stride); }
  }

  lemma DedupStarts(flat: Bytes, stride: nat, n: nat)
    requires stride > 0 && |flat| == n * stride && n > 0
    requires |Keys(flat, stride)| == n && Ascending(Keys(flat, stride))
    ensures var cs := Chunks(flat, stride);
            |cs| == n && Uniform(cs, stride) && Ascending(Numbers(cs)) && Kept(cs, cs, 1, 1)
    ensures Offset(1, stride) == stride
  {
    hide Chunks;
    ChunksUniform(flat, stride);
    KeepStarts(Chunks(flat, stride));
  }

  /** The in-place dedup loop, over byte offsets. */
  method DedupGeneric(flat: array<Byte>, stride: nat, ghost n: nat, ghost input: seq<Bytes>) returns (w: nat)
    requires stride > 0 && flat.Length == n * stride && n > 0
    requires |Keys(flat[..], stride)| == n && Ascending(Keys(flat[..], stride))
    requires multiset(Chunks(flat[..], stride)) == multiset(input)
    modifies flat
    ensures w <= flat.Length && SortedSetOf(flat[..w], stride, input)
  {
    hide Chunks, Keys, Kept, SortedSetOf;
    ghost var cs0 := Chunks(flat[..], stride);
    ghost var i, j := 1, 1;
    DedupStarts(flat[..], stride, n);
    w := stride;
    var r := stride;
    while r < flat.Length
      invariant 1 <= i <= j <= n && w == Offset(i, stride) && r == Offset(j, stride)
      invariant Kept(cs0, Chunks(flat[..], stride), i, j)
      decreases n - j
    {
      BeforeEnd(j, n, stride);
      KeepRound(cs0, Chunks(flat[..], stride), i, j);
      var changed := RowsDiffer(flat, r, w, stride, n, i, j);
      if changed {
        KeepRow(flat, r, w, stride, n, i, j);
        w, i := w + stride, i + 1;
      }
      r, j := r + stride, j + 1;
    }
    AllRead(j, n, stride);
    DedupDone(cs0, flat[..], stride, n, i, input);
  }

  lemma BeforeEnd(j: nat, n: nat, stride: nat)
    requires Offset(j, stride) < n * stride
    ensures j < n
  {
    OffsetIsProduct(j, stride);
    if n <= j { MulLe(n, j, stride); }
  }

  method SortDedupGeneric(flat: array<Byte>, stride: nat, ghost n: nat) returns (len: nat)
    requires stride > 0 && flat.Length == n * stride
    modifies flat
    ensures len <= flat.Length
    ensures stride > 64 ==> len == flat.Length && flat[..] == old(flat[..])
    ensures stride <= 64 ==> SortedSetOf(flat[..len], stride, Chunks(old(flat[..]), stride))
  {
    ghost var input := Chunks(flat[..], stride);
    assert flat[..flat.Length] == flat[..];
    ChunkCount(flat[..], stride, n);
    FewChunks(flat[..], stride, n);
    if stride == 0 || stride > 64 || flat.Length <= stride { return flat.Length; }
    CountIs(flat.Length, stride, n);
    var count := flat.Length / stride;
    if count < 2 { return flat.Length; }
    var tmp := new Byte[64](_ => 0);
    HeapSort(flat, stride, tmp, count);
    len := DedupGeneric(flat, stride, n, input);
  }

  /** `sort_unstable` on rows of a known size, by its specification: sorted, and a permutation. */
  method SortUnstable(flat: array<Byte>, stride: nat, n: nat)
    requires 0 < stride <= 64 && flat.Length == n * stride && n >= 2
    modifies flat
    ensures |Keys(flat[..], stride)| == n && Ascending(Keys(flat[..], stride))
    ensures multiset(Chunks(flat[..], stride)) == multiset(old(Chunks(flat[..], stride)))
  {
    var tmp := new Byte[64](_ => 0);
    HeapSort(flat, stride, tmp, n);
  }

  /** `slice[j] != slice[i - 1]` on the buffer read as an array of rows. */
  method CellsDiffer(flat: array<Byte>, stride: nat, n: nat, i: nat, j: nat) returns (differ: bool)
    requires stride > 0 && flat.Length == n * stride && 1 <= i <= j < n
    ensures |Chunks(flat[..], stride)| == n
    ensures differ <==> Chunks(flat[..], stride)[j] != Chunks(flat[..], stride)[i - 1]
  {
    OffsetIsProduct(i, stride);
    OffsetIsProduct(j, stride);
    differ := RowsDiffer(flat, j * stride, i * stride, stride, n, i, j);
  }

  /** `slice[i] = slice[j]` on the buffer read as an array of rows. */
  method KeepCell(flat: array<Byte>, stride: nat, n: nat, i: nat, j: nat)
    requires stride > 0 && flat.Length == n * stride && 1 <= i <= j < n
    modifies flat
    ensures |Chunks(old(flat[..]), stride)| == n
    ensures Chunks(flat[..], stride) == Chunks(old(flat[..]), stride)[i := Chunks(old(flat[..]), stride)[j]]
  {
    OffsetIsProduct(i, stride);
    OffsetIsProduct(j, stride);
    KeepRow(flat, j * stride, i * stride, stride, n, i, j);
  }

  /** The in-place dedup loop of the fast path, over row numbers. */
  method DedupConst(flat: array<Byte>, stride: nat, n: nat, ghost input: seq<Bytes>) returns (w: nat)
    requires stride > 0 && flat.Length == n * stride && n > 0
    requires |Keys(flat[..], stride)| == n && Ascending(Keys(flat[..], stride))
    requires multiset(Chunks(flat[..], stride)) == multiset(input)
    modifies flat
    ensures Offset(w, stride) <= flat.Length && SortedSetOf(flat[..Offset(w, stride)], stride, input)
  {
    ghost var cs0 := Chunks(flat[..], stride);
    ChunksUniform(flat[..], stride);
    KeepStarts(cs0);
    w := 1;
    var r := 1;
    while r < n
      invariant 1 <= w <= r <= n
      invariant Kept(cs0, Chunks(flat[..], stride), w, r)
    {
      KeepRound(cs0, Chunks(flat[..], stride), w, r);
      var changed := CellsDiffer(flat, stride, n, w, r);
      if changed {
        KeepCell(flat, stride, n, w, r);
        w := w + 1;
      }
      r := r + 1;
    }
    DedupDone(cs0, flat[..], stride, n, w, input);
  }

  /** The fast path for common strides: a library sort, then the dedup loop over row numbers. */
  method SortDedupConst(flat: array<Byte>, stride: nat, ghost rows: nat) returns (len: nat)
    requires 0 < stride <= 64 && flat.Length == rows * stride
    modifies flat
    ensures len <= flat.Length && SortedSetOf(flat[..len], stride, Chunks(old(flat[..]), stride))
  {
    ghost var input := Chunks(flat[..], stride);
    assert flat[..flat.Length] == flat[..];
    CountIs(flat.Length, stride, rows);
    if flat.Length < 2 * stride {
      FewRows(flat[..], stride, rows);
      return flat.Length;
    }
    var n := flat.Length / stride;
    if n < 2 { MulLe(n, 1, stride); }
    SortUnstable(flat, stride, n);
    var w := DedupConst(flat, stride, n, input);
    OffsetIsProduct(w, stride);
    len := w * stride;
  }

  lemma FewRows(flat: Bytes, stride: nat, n: nat)
    requires stride > 0 && |flat| == n * stride && |flat| < 2 * stride
    ensures SortedSetOf(flat, stride, Chunks(flat, stride))
  {
    ChunkCount(flat, stride, n);
    if n >= 2 { MulLe(2, n, stride); }
  }

  /** What sorting and deduplicating may leave: the sorted set, or the buffer as it was past stride 64. */
  ghost predicate SortDedupResult(flat: Bytes, stride: nat, out: Bytes) {
    if stride == 0 || stride > 64 then out == flat else SortedSetOf(out, stride, Chunks(flat, stride))
  }

  /** Sort and dedup by stride; `len` is where the buffer is truncated. */
  method FlatPkSortDedup(flat: array<Byte>, stride: nat) returns (len: nat)
    requires stride > 0 ==> flat.Length % stride == 0
    modifies flat
    ensures len <= flat.Length && SortDedupResult(old(flat[..]), stride, flat[..len])
  {
    assert flat[..flat.Length] == flat[..];
    if stride == 0 { return flat.Length; }
    ghost var n := flat.Length / stride;
    WholeRows(flat.Length, stride);
    match stride {
      case 4  => len := SortDedupConst(flat, 4, n);
      case 8  => len := SortDedupConst(flat, 8, n);
      case 12 => len := SortDedupConst(flat, 12, n);
      case 16 => len := SortDedupConst(flat, 16, n);
      case 20 => len := SortDedupConst(flat, 20, n);
      case 24 => len := SortDedupConst(flat, 24, n);
      case _  => len := SortDedupGeneric(flat, stride, n);
    }
  }

  lemma WholeRows(length: nat, stride: nat)
    requires stride > 0 && length % stride == 0
    ensures length == length / stride * stride
  {
  }

  // ── Bisection ──

  /** What the search loop answers from the window `[lo, hi)`, on any sequence of rows. */
  function Bisect(cs: seq<Bytes>, target: Bytes, lo: nat, hi: nat): bool
    requires hi <= |cs|
    decreases hi - lo
  {
    if lo >= hi then false else
    var mid := lo + (hi - lo) / 2;
    if cs[mid] == target then true
    else if Less(cs[mid], target) then Bisect(cs, target, mid + 1, hi)
    else Bisect(cs, target, lo, mid)
  }

  method FlatPkContains(flat: Bytes, stride: nat, target: Bytes) returns (found: bool)
    ensures stride == 0 ==> !found
    ensures stride > 0 ==> found == Bisect(Chunks(flat, stride), target, 0, |Chunks(flat, stride)|)
  {
    if stride == 0 || flat == [] { return false; }
    var n := |flat| / stride;
    RemainderDropped(flat, stride, n);
    ghost var cs := Chunks(flat, stride);
    var lo, hi := 0, n;
    while lo < hi
      invariant 0 <= lo <= hi <= n
      invariant Bisect(cs, target, lo, hi) == Bisect(cs, target, 0, n)
    {
      var mid := lo + (hi - lo) / 2;
      RowAt(flat, stride, n, mid);
      var chunk := flat[mid * stride..(mid + 1) * stride];
      if chunk == target { return true; }
      if Less(chunk, target) { lo := mid + 1; } else { hi := mid; }
    }
    found := false;
  }

  lemma RemainderDropped(flat: Bytes, stride: nat, n: nat)
    requires stride > 0 && n == |flat| / stride
    ensures 0 <= n * stride <= |flat| && |Chunks(flat, stride)| == n
    ensures Chunks(flat, stride) == Chunks(flat[..n * stride], stride)
  {
    FloorBounds(|flat|, stride, n);
    var x := n * stride;
    var whole, rest := flat[..x], flat[x..];
    assert flat == whole + rest;
    assert Chunks(rest, stride) == [];
    ChunksOfAppend(whole, rest, stride, n);
    ChunkCount(whole, stride, n);
  }

  lemma RowAt(flat: Bytes, stride: nat, n: nat, mid: nat)
    requires stride > 0 && n == |flat| / stride && mid < n
    ensures 0 <= mid * stride <= (mid + 1) * stride <= |flat| && |Chunks(flat, stride)| == n
    ensures Chunks(flat, stride)[mid] == flat[mid * stride..(mid + 1) * stride]
  {
    RemainderDropped(flat, stride, n);
    MulSucc(mid, stride);
    ChunkAt(flat[..n * stride], stride, n, mid);
  }

  /** On a sorted set the search is membership, for targets of any length. */
  lemma {:induction false} BisectFinds(cs: seq<Bytes>, stride: nat, target: Bytes, lo: nat, hi: nat)
    requires Uniform(cs, stride) && StrictlyAscending(cs) && lo <= hi <= |cs|
    ensures Bisect(cs, target, lo, hi) <==> exists i :: lo <= i < hi && cs[i] == target
    decreases hi - lo
  {
    if lo < hi {
      var mid := lo + (hi - lo) / 2;
      if cs[mid] != target {
        if Less(cs[mid], target) {
          BisectFinds(cs, stride, target, mid + 1, hi);
          forall i | lo <= i <= mid
            ensures cs[i] != target
          {
            NotAfter(cs, stride, i, mid, target);
          }
        } else {
          BisectFinds(cs, stride, target, lo, mid);
          forall i | mid <= i < hi
            ensures cs[i] != target
          {
            NotBefore(cs, stride, mid, i, target);
          }
        }
      }
    }
  }

  lemma NotAfter(cs: seq<Bytes>, stride: nat, i: nat, mid: nat, target: Bytes)
    requires Uniform(cs, stride) && StrictlyAscending(cs) && i <= mid < |cs|
    requires Less(cs[mid], target) && cs[mid] != target
    ensures cs[i] != target
  {
    if cs[i] == target && i < mid {
      LessIsNumeric(cs[i], cs[mid]);
      LessIsNumeric(cs[mid], cs[i]);
    }
  }

  lemma NotBefore(cs: seq<Bytes>, stride: nat, mid: nat, i: nat, target: Bytes)
    requires Uniform(cs, stride) && StrictlyAscending(cs) && mid <= i < |cs|
    requires !Less(cs[mid], target) && cs[mid] != target
    ensures cs[i] != target
  {
  }

  /** Searching a sorted set answers membership in the set it was built from. */
  lemma SearchIsMembership(flat: Bytes, stride: nat, input: seq<Bytes>, target: Bytes)
    requires stride > 0 && SortedSetOf(flat, stride, input)
    ensures Bisect(Chunks(flat, stride), target, 0, |Chunks(flat, stride)|) <==> target in input
  {
    var cs := Chunks(flat, stride);
    ChunksUniform(flat, stride);
    BisectFinds(cs, stride, target, 0, |cs|);
  }

  /** What `FlatPkContains` answers. */
  function Searched(flat: Bytes, stride: nat, target: Bytes): bool
    requires stride > 0
  {
    Bisect(Chunks(flat, stride), target, 0, |Chunks(flat, stride)|)
  }

  /**
   Searching a buffer that went through sort and dedup answers membership in the original
   buffer for every buffer and target exactly when the stride is at most 64: wider rows are
   left unsorted.
   */
  lemma SearchWorksIffStrideFits(stride: nat)
    requires stride > 0
    ensures stride <= 64 <==>
            forall flat: Bytes, out: Bytes, target: Bytes ::
              |flat| % stride == 0 && SortDedupResult(flat, stride, out) ==>
                (Searched(out, stride, target) <==> target in Chunks(flat, stride))
  {
    if stride <= 64 {
      forall flat: Bytes, out: Bytes, target: Bytes | |flat| % stride == 0 && SortDedupResult(flat, stride, out)
        ensures Searched(out, stride, target) <==> target in Chunks(flat, stride)
      {
        SearchIsMembership(out, stride, Chunks(flat, stride), target);
      }
    } else {
      var ones: Bytes, zeros: Bytes := seq(stride, _ => 1), seq(stride, _ => 0);
      var flat := ones + zeros;
      assert zeros[0] < ones[0] && Less(zeros, ones);
      MissedWhenUnsorted(ones, zeros, stride);
      DivModUnique(|flat|, stride, 2, 0);
      assert SortDedupResult(flat, stride, flat);
      assert !(Searched(flat, stride, ones) <==> ones in Chunks(flat, stride));
    }
  }

  lemma MissedWhenUnsorted(high: Bytes, low: Bytes, stride: nat)
    requires stride > 0 && |high| == |low| == stride && Less(low, high) && low != high
    ensures high in Chunks(high + low, stride) && !Searched(high + low, stride, high)
  {
    var flat := high + low;
    assert flat[..stride] == high && flat[stride..] == low;
    assert low[..stride] == low && Chunks(low[stride..], stride) == [];
    assert Chunks(low, stride) == [low];
    var cs := Chunks(flat, stride);
    assert cs == [high, low];
    assert cs[1] != high && Less(cs[1], high);
    assert !Bisect(cs, high, 2, 2);
  }
}
