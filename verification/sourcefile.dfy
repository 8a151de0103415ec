/** The source file as `upload_cake` uses it: opened in binary mode, read
    once in full for the checksum, then repositioned with `seek` and read in
    `slice_size` pieces (cake2.py:54-57, cake2.py:65, cake2.py:80). */
module SourceFile {
  import opened Slicing

  /** An open binary file: its contents and the current position. Python
      allows the position to lie past the end of the file. */
  datatype Handle = Handle(data: Bytes, pos: nat)

  function Open(data: Bytes): Handle {
    Handle(data, 0)
  }

  /** `f.seek(offset)`. */
  function Seek(h: Handle, offset: nat): Handle {
    h.(pos := offset)
  }

  /** `f.read(n)`: returns the bytes at the position, at most `n` of them,
      and moves the position past what it returned. */
  function Read(h: Handle, n: nat): (r: (Bytes, Handle))
    ensures r.1.data == h.data
    ensures |r.0| <= n
    ensures |r.0| < n ==> r.1.pos >= |h.data|
    ensures r.1.pos == h.pos + |r.0|
    ensures h.pos <= |h.data| ==> h.pos + |r.0| <= |h.data| && r.0 == h.data[h.pos..h.pos + |r.0|]
    ensures h.pos >= |h.data| ==> r.0 == []
  {
    var bytes := Chunk(h.data, h.pos, n);
    (bytes, h.(pos := h.pos + |bytes|))
  }

  /** `f.read()`: everything from the position to the end of the file. */
  function ReadAll(h: Handle): (r: (Bytes, Handle))
    ensures r.1.data == h.data
    ensures h.pos == 0 ==> r.0 == h.data
    ensures r.1.pos >= |h.data|
  {
    var bytes := h.data[Min(h.pos, |h.data|)..];
    (bytes, h.(pos := h.pos + |bytes|))
  }
}
