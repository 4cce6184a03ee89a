/**
 * The read loop of `__execable_parse_args` (libcap/execable.h): the whole
 * of /proc/self/cmdline is read into a heap buffer that starts with room
 * for 32 bytes and doubles until a read comes back short.
 */
module ReadLoop {

  import opened CString

  /** The capacity the loop starts with, before any doubling. */
  const InitialSize: nat := 32

  function Min(a: nat, b: nat): nat
  {
    if a <= b then a else b
  }

  /**
   * `fread(buf + at, 1, want, f)` on a stream positioned at `pos` of `file`:
   * it copies the next `min(want, remaining)` bytes of the file into the
   * buffer at `at` and returns their number. The result is the new buffer
   * and that count; the caller must leave room for `want` bytes.
   */
  function Fread(buf: seq<byte>, at: nat, want: nat, file: seq<byte>, pos: nat): (res: (seq<byte>, nat))
    requires at + want <= |buf|
    requires pos <= |file|
    ensures res.1 == Min(want, |file| - pos)
    ensures |res.0| == |buf|
    ensures res.0[..at] == buf[..at]
    ensures res.0[at..at + res.1] == file[pos..pos + res.1]
    ensures res.0[at + res.1..] == buf[at + res.1..]
  {
    var n := Min(want, |file| - pos);
    (buf[..at] + file[pos..pos + n] + buf[at + n..], n)
  }

  /**
   * The capacity the loop ends with for a file of `n` bytes when the
   * current capacity is `size`: the first of size, 2*size, 4*size, ...
   * that exceeds `n`.
   */
  function Capacity(n: nat, size: nat): (cap: nat)
    requires size > 0
    ensures n < cap && size <= cap
    ensures cap == size || cap <= 2 * n
    decreases n + 1 - size
  {
    if n < size then size else Capacity(n, 2 * size)
  }

  /**
   * Reads the whole file. `limit` is the largest allocation the heap
   * grants: a `realloc` of more bytes fails, and the source then reports
   * the error and exits, which the model returns as `ok == false`.
   * `lastRead` is the count returned by the final `fread`.
   */
  method ReadCmdline(file: seq<byte>, limit: nat) returns (ok: bool, mem: seq<byte>, size: nat, lastRead: nat)
    ensures ok <==> Capacity(|file|, InitialSize) + 1 <= limit
    ensures ok ==> size == |file|
    ensures ok ==> |mem| == Capacity(|file|, InitialSize) + 1
    ensures ok ==> mem[..size] == file && mem[size] == NUL
    ensures ok ==> (lastRead == 0 <==> |file| == 0 || (InitialSize <= |file| && Capacity(|file|, InitialSize) == 2 * |file|))
  {
    mem := [];
    lastRead := 0;
    size := InitialSize;
    var offset: nat := 0;
    var pos: nat := 0;
    while true
      invariant offset <= |file| && pos == offset && offset < size
      invariant || (offset == 0 && size == InitialSize && mem == [])
                || (InitialSize <= offset && size == 2 * offset && |mem| == offset + 1 && offset + 1 <= limit)
      invariant mem[..offset] == file[..offset]
      invariant Capacity(|file|, size) == Capacity(|file|, InitialSize)
      decreases |file| - offset
    {
      if limit < size + 1 {
        // realloc returned NULL: the source frees the buffer and exits
        ok := false;
        return;
      }
      // realloc keeps the old contents; the bytes it adds are indeterminate
      ghost var padded := mem + seq(size + 1 - |mem|, _ => NUL);
      assert padded[..|mem|] == mem;
      var grown: seq<byte> :| |grown| == size + 1 && grown[..|mem|] == mem;
      assert grown[..offset] == file[..offset];
      var res := Fread(grown, offset, size - offset, file, pos);
      mem := res.0;
      var n := res.1;
      PrefixGrows(mem, file, offset, n);
      offset := offset + n;
      pos := pos + n;
      if offset < size {
        lastRead := n;
        size := offset;
        Terminate(mem, file);
        mem := mem[size := NUL];
        break;
      }
      size := size * 2;
    }
    ok := true;
  }

  /** A buffer that matches the file up to `offset` and on the next `n` bytes matches it up to `offset + n`. */
  lemma PrefixGrows(mem: seq<byte>, file: seq<byte>, offset: nat, n: nat)
    requires offset + n <= |mem| && offset + n <= |file|
    requires mem[..offset] == file[..offset]
    requires mem[offset..offset + n] == file[offset..offset + n]
    ensures mem[..offset + n] == file[..offset + n]
  {
    assert mem[..offset + n] == mem[..offset] + mem[offset..offset + n];
    assert file[..offset + n] == file[..offset] + file[offset..offset + n];
  }

  /** Storing the terminator just past the file's bytes keeps them. */
  lemma Terminate(mem: seq<byte>, file: seq<byte>)
    requires |file| < |mem| && mem[..|file|] == file[..|file|]
    ensures mem[|file| := NUL][..|file|] == file
    ensures mem[|file| := NUL][|file|] == NUL
  {
    assert file[..|file|] == file;
  }
}
