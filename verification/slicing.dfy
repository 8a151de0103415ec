/** The slicing arithmetic of `upload_cake`: how many slices a file of a
    given size is cut into, and which bytes each slice window covers
    (cake2.py:42, cake2.py:61-65, cake2.py:80). */
module Slicing {

  type Bytes = seq<bv8>

  function Min(a: int, b: int): int {
    if a <= b then a else b
  }

  /** What a file read of `len` bytes at position `offset` returns: the
      bytes from `offset` on, at most `len` of them, fewer at the end of the
      file and none past it. */
  function Chunk(data: Bytes, offset: nat, len: nat): Bytes {
    data[Min(offset, |data|)..Min(offset + len, |data|)]
  }

  /** `size // slice_size + 1`, the recorded `cake_size` and the number of
      loop iterations. It is the one count whose last window starts inside
      the file or exactly at its end: one window more than needed when the
      size is a multiple of the slice size. */
  function SliceCount(size: nat, sliceSize: nat): (count: nat)
    requires sliceSize > 0
    ensures count >= 1
    ensures (count - 1) * sliceSize <= size < count * sliceSize
  {
    size / sliceSize + 1
  }

  /** The window of slice `index`: `slice_size` bytes from `index * slice_size`. */
  function Window(data: Bytes, index: nat, sliceSize: nat): Bytes {
    Chunk(data, index * sliceSize, sliceSize)
  }

  /** All windows of a file, in index order. */
  function Windows(data: Bytes, sliceSize: nat): (ws: seq<Bytes>)
    requires sliceSize > 0
  {
    seq(SliceCount(|data|, sliceSize), k requires 0 <= k => Window(data, k, sliceSize))
  }

  /** Concatenation in list order, as successive writes to a file produce it. */
  function Concat(parts: seq<Bytes>): Bytes
    decreases |parts|
  {
    if |parts| == 0 then [] else Concat(parts[..|parts| - 1]) + parts[|parts| - 1]
  }

  lemma ConcatAppend(parts: seq<Bytes>, more: seq<Bytes>)
    ensures Concat(parts + more) == Concat(parts) + Concat(more)
    decreases |more|
  {
    if |more| == 0 {
      assert parts + more == parts;
    } else {
      var m := more[..|more| - 1];
      var x := more[|more| - 1];
      ConcatAppend(parts, m);
      assert (parts + more)[..|parts + more| - 1] == parts + m;
      assert Concat(parts + more) == Concat(parts) + Concat(m) + x;
      assert Concat(more) == Concat(m) + x;
    }
  }

  /** Slice `index` (for each index the loop visits) covers bytes
      `[index*slice_size, min((index+1)*slice_size, size))` of the file;
      every slice but the last is full, and the last holds `size %
      slice_size` bytes, so it is empty exactly when the size is a multiple
      of the slice size. */
  lemma WindowContents(data: Bytes, sliceSize: nat, index: nat)
    requires sliceSize > 0 && index < SliceCount(|data|, sliceSize)
    ensures index * sliceSize <= |data|
    ensures Window(data, index, sliceSize) == data[index * sliceSize..Min((index + 1) * sliceSize, |data|)]
    ensures index + 1 < SliceCount(|data|, sliceSize) ==> |Window(data, index, sliceSize)| == sliceSize
    ensures index + 1 == SliceCount(|data|, sliceSize) ==>
      |Window(data, index, sliceSize)| == |data| % sliceSize
    ensures index + 1 == SliceCount(|data|, sliceSize) ==>
      (|Window(data, index, sliceSize)| == 0 <==> |data| % sliceSize == 0)
  {
    var count := SliceCount(|data|, sliceSize);
    var n := |data|;
    MulMonotone(index, count - 1, sliceSize);
    assert (index + 1) * sliceSize == index * sliceSize + sliceSize;
    if index + 1 < count {
      MulMonotone(index + 1, count - 1, sliceSize);
    } else {
      assert index == n / sliceSize;
      assert n == index * sliceSize + n % sliceSize;
    }
  }

  lemma MulSucc(a: nat, c: nat)
    ensures (a + 1) * c == a * c + c
  {
  }

  lemma MulMonotone(a: nat, b: nat, c: nat)
    requires a <= b
    ensures a * c <= b * c
  {
  }

  /** The first `j` windows, concatenated, are the first `j * slice_size`
      bytes of the file (or all of it). */
  lemma {:induction false} WindowsPrefix(data: Bytes, sliceSize: nat, j: nat)
    requires sliceSize > 0 && j <= SliceCount(|data|, sliceSize)
    ensures Concat(Windows(data, sliceSize)[..j]) == data[..Min(j * sliceSize, |data|)]
  {
    var ws := Windows(data, sliceSize);
    if j > 0 {
      WindowsPrefix(data, sliceSize, j - 1);
      assert ws[..j][..j - 1] == ws[..j - 1];
      var p := (j - 1) * sliceSize;
      MulSucc(j - 1, sliceSize);
      var lo := Min(p, |data|);
      var hi := Min(p + sliceSize, |data|);
      assert ws[j - 1] == data[lo..hi];
      PrefixJoin(data, lo, hi);
    }
  }

  lemma PrefixJoin(data: Bytes, lo: nat, hi: nat)
    requires lo <= hi <= |data|
    ensures data[..lo] + data[lo..hi] == data[..hi]
  {
  }

  /** The windows, concatenated in index order, give back the whole file;
      the possibly empty final window adds nothing. */
  lemma WindowsCover(data: Bytes, sliceSize: nat)
    requires sliceSize > 0
    ensures Concat(Windows(data, sliceSize)) == data
  {
    var ws := Windows(data, sliceSize);
    WindowsPrefix(data, sliceSize, |ws|);
    assert ws[..|ws|] == ws;
  }
}
