/**
 * `__execable_parse_args` (libcap/execable.h): the command line read back
 * from /proc/self/cmdline is counted, then split into a NULL-terminated
 * `argv` whose entries point into the byte buffer.
 */
module Execable {

  import opened Optional
  import opened CString
  import opened Cmdline
  import opened ReadLoop

  /** A `char *` stored in `argv`: NULL, or an offset into the byte buffer. */
  datatype Ptr = Null | Into(offset: nat)

  /**
   * What the parser leaves behind: the process exits with a status (an
   * allocation failed), or the function returns `argc` and `argv` (None is
   * NULL), with `mem` the byte buffer if one was allocated.
   */
  datatype Outcome =
    | Exited(status: int)
    | Returned(argc: nat, argv: Option<seq<Ptr>>, mem: Option<seq<byte>>)

  /**
   * The value the counting pass gives `argc`: one more than the number of
   * NUL bytes before the last byte of the image, so that the image's final
   * terminator is not counted twice.
   */
  function CountedArgc(c: seq<byte>): nat
  {
    if |c| == 0 then 1 else 1 + multiset(c[..|c| - 1])[NUL]
  }

  /**
   * Whether every allocation the parser makes for `file` fits within
   * `limit` bytes, on a target where `sizeof(char *)` is `ptrSize` (8 on
   * x86-64, 4 on i386).
   */
  predicate AllocationsFit(file: seq<byte>, limit: nat, ptrSize: nat)
  {
    && Capacity(|file|, InitialSize) + 1 <= limit
    && (CountedArgc(file) + 1) * ptrSize <= limit
  }

  /**
   * The counting pass agrees with the splitting: a non-empty image has
   * exactly `CountedArgc` arguments; only the empty image is counted as
   * one argument while having none.
   */
  lemma CountMatchesSplit(c: seq<byte>)
    ensures CountedArgc(c) == |Args(c)| + (if |c| == 0 then 1 else 0)
  {
    if |c| > 0 {
      CountedFrom(c, 0);
      assert c[0..|c| - 1] == c[..|c| - 1];
    }
  }

  /** How many NUL bytes the image holds from `from` up to, not including, its last byte. */
  function NulsBeforeLast(c: seq<byte>, from: nat): nat
    requires from < |c|
  {
    multiset(c[from..|c| - 1])[NUL]
  }

  /** From an offset inside the image, the split has one more argument than NULs before the last byte. */
  lemma CountedFrom(c: seq<byte>, from: nat)
    requires from < |c|
    ensures |ArgsAt(c, from)| == 1 + NulsBeforeLast(c, from)
    decreases |c| - from
  {
    var n := NulIndex(c, from);
    if n < |c| - 1 {
      CountedFrom(c, n + 1);
      CountedStep(c, from, n);
    } else {
      ArgsAtLength(c, from);
      NulCountNone(c, from, n);
    }
  }

  /** The count from `from` is one more than the count past the first NUL, when that NUL is not the last byte. */
  lemma CountedStep(c: seq<byte>, from: nat, n: nat)
    requires from < |c| && n == NulIndex(c, from) && n < |c| - 1
    requires |ArgsAt(c, n + 1)| == 1 + NulsBeforeLast(c, n + 1)
    ensures |ArgsAt(c, from)| == 1 + NulsBeforeLast(c, from)
  {
    ArgsAtLength(c, from);
    NulCountCons(c, from, n);
  }

  /** No NUL before the last byte: the count is zero. */
  lemma NulCountNone(c: seq<byte>, from: nat, n: nat)
    requires from < |c| && |c| - 1 <= n <= |c|
    requires NoNulIn(c, from, n)
    ensures NulsBeforeLast(c, from) == 0
  {
    assert NUL !in c[from..|c| - 1];
  }

  /** The first NUL at `n`, before the last byte, adds one to the count past it. */
  lemma NulCountCons(c: seq<byte>, from: nat, n: nat)
    requires from <= n < |c| - 1 && c[n] == NUL
    requires NoNulIn(c, from, n)
    ensures NulsBeforeLast(c, from) == 1 + NulsBeforeLast(c, n + 1)
  {
    assert NUL !in c[from..n];
    assert c[from..|c| - 1] == c[from..n] + [NUL] + c[n + 1..|c| - 1];
    assert multiset(c[from..|c| - 1]) == multiset(c[from..n]) + multiset{NUL} + multiset(c[n + 1..|c| - 1]);
  }

  /**
   * The counting pass: a pointer walks from `mem + size - 2` down to the
   * buffer start, adding one for every NUL byte. For an empty buffer it
   * starts two bytes before the buffer and the loop body never runs.
   */
  method CountArgs(mem: seq<byte>, size: nat) returns (argc: int)
    requires size <= |mem|
    ensures argc == CountedArgc(mem[..size])
  {
    argc := 1;
    var p: int := size - 2;
    while p >= 0
      invariant -2 <= p <= size - 2
      invariant 0 < size ==> -1 <= p
      invariant 0 < size ==> argc == 1 + multiset(mem[p + 1..size - 1])[NUL]
      invariant size == 0 ==> argc == 1
    {
      assert mem[p..size - 1] == [mem[p]] + mem[p + 1..size - 1];
      assert multiset(mem[p..size - 1]) == multiset{mem[p]} + multiset(mem[p + 1..size - 1]);
      argc := argc + if mem[p] == NUL then 1 else 0;
      p := p - 1;
    }
    if 0 < size {
      assert mem[..size][..size - 1] == mem[0..size - 1];
    }
  }

  /**
   * One round of the splitting pass at `offset`, an argument boundary
   * inside the image: there is an argument there, and the offset past the
   * end of its C string is the next boundary, or one past the sentinel
   * when the argument was the last and had no NUL of its own.
   */
  lemma SplitStep(mem: seq<byte>, size: nat, c: seq<byte>, args: seq<seq<byte>>, offset: nat, argc: nat, len: nat)
    requires size < |mem| && mem[size] == NUL && offset < size
    requires c == mem[..size] && args == Args(c)
    requires Boundary(c, args, argc, offset)
    requires offset == Start(args, argc)
    requires len == Strlen(mem, offset, size)
    ensures argc < |args|
    ensures offset + len + 1 <= size + 1
    ensures offset + len + 1 == Start(args, argc + 1)
    ensures offset + len < size ==> Boundary(c, args, argc + 1, offset + len + 1)
    ensures offset + len == size ==> argc + 1 == |args|
  {
    StrlenInImage(mem, size, c, offset);
    BoundaryNext(c, args, argc, offset);
    assert Start(args, argc + 1) == offset + |args[argc]| + 1;
  }

  /** Within the image, a C string ends at the image's next NUL or at the sentinel. */
  lemma StrlenInImage(mem: seq<byte>, size: nat, c: seq<byte>, offset: nat)
    requires size < |mem| && mem[size] == NUL && offset <= size
    requires c == mem[..size]
    ensures offset + Strlen(mem, offset, size) == NulIndex(c, offset)
  {
    NulIndexBefore(mem, size, offset);
  }

  /** At an argument boundary, the C string in the buffer is that argument. */
  lemma EntryString(mem: seq<byte>, size: nat, c: seq<byte>, args: seq<seq<byte>>, offset: nat, argc: nat)
    requires size < |mem| && mem[size] == NUL && offset < size
    requires c == mem[..size] && args == Args(c)
    requires Boundary(c, args, argc, offset)
    ensures argc < |args|
    ensures StringAt(mem, offset, size) == args[argc]
  {
    BoundaryNext(c, args, argc, offset);
    StringAtBefore(mem, size, offset);
  }

  /** Every argument's C string sits in the buffer at its start offset. */
  lemma EntriesAreArgs(mem: seq<byte>, size: nat, c: seq<byte>, args: seq<seq<byte>>)
    requires size < |mem| && mem[size] == NUL
    requires c == mem[..size] && args == Args(c)
    ensures forall i :: 0 <= i < |args| ==> Start(args, i) < size && StringAt(mem, Start(args, i), size) == args[i]
  {
    forall i | 0 <= i < |args|
      ensures Start(args, i) < size && StringAt(mem, Start(args, i), size) == args[i]
    {
      BoundaryAt(mem, size, c, args, i);
      EntryString(mem, size, c, args, Start(args, i), i);
    }
  }

  /**
   * The contents of `argv` after `k` rounds of the splitting pass: the
   * first `k` slots point at the first `k` arguments, the rest are NULL.
   */
  function Layout(args: seq<seq<byte>>, k: nat, slots: nat): seq<Ptr>
    requires k <= |args|
  {
    seq(slots, i requires 0 <= i < slots => if i < k then Into(Start(args, i)) else Null)
  }

  /** Storing the next argument's pointer extends the layout by one slot. */
  lemma LayoutStep(args: seq<seq<byte>>, k: nat, slots: nat)
    requires k < |args| && k < slots
    ensures Layout(args, k, slots)[k := Into(Start(args, k))] == Layout(args, k + 1, slots)
  {
  }

  /** What each slot of a layout holds. */
  lemma LayoutContents(args: seq<seq<byte>>, k: nat, slots: nat)
    requires k <= |args|
    ensures |Layout(args, k, slots)| == slots
    ensures forall i :: 0 <= i < k && i < slots ==> Layout(args, k, slots)[i] == Into(Start(args, i))
    ensures forall i :: k <= i < slots ==> Layout(args, k, slots)[i] == Null
  {
  }

  /** Every argument starts inside the image, at a boundary of the split. */
  lemma BoundaryAt(mem: seq<byte>, size: nat, c: seq<byte>, args: seq<seq<byte>>, i: nat)
    requires size < |mem| && mem[size] == NUL
    requires c == mem[..size] && args == Args(c)
    requires i < |args|
    ensures Start(args, i) < size
    ensures Boundary(c, args, i, Start(args, i))
    decreases i
  {
    if i == 0 {
      BoundaryFirst(c);
    } else {
      BoundaryAt(mem, size, c, args, i - 1);
      SplitStep(mem, size, c, args, Start(args, i - 1), i - 1, Strlen(mem, Start(args, i - 1), size));
      BoundaryInside(c, args, i, Start(args, i));
    }
  }

  /**
   * One round of the splitting pass as the loop sees it: the offset past
   * argument `argc`'s C string is the next argument's start, and it lies
   * before the sentinel exactly when another argument follows.
   */
  lemma SplitRound(mem: seq<byte>, size: nat, c: seq<byte>, args: seq<seq<byte>>, argc: nat, len: nat)
    requires size < |mem| && mem[size] == NUL
    requires c == mem[..size] && args == Args(c)
    requires argc < |args| && Start(args, argc) < size
    requires len == Strlen(mem, Start(args, argc), size)
    ensures Start(args, argc) + len + 1 == Start(args, argc + 1) <= size + 1
    ensures argc + 1 < |args| <==> Start(args, argc + 1) < size
  {
    var offset := Start(args, argc);
    BoundaryAt(mem, size, c, args, argc);
    SplitStep(mem, size, c, args, offset, argc, len);
    if argc + 1 < |args| {
      BoundaryAt(mem, size, c, args, argc + 1);
    }
  }

  /**
   * The splitting pass over a buffer whose byte at `size` is the NUL
   * sentinel: `slots` zero-filled entries are allocated and entry `argc`
   * is set to the current offset, which then moves one past the end of the
   * C string there, until the offset reaches `size`.
   */
  method SplitArgs(mem: seq<byte>, size: nat, slots: nat) returns (argc: nat, argv: seq<Ptr>)
    requires size < |mem| && mem[size] == NUL
    requires |Args(mem[..size])| < slots
    ensures argc == |Args(mem[..size])|
    ensures |argv| == slots
    ensures argv == Layout(Args(mem[..size]), argc, slots)
  {
    ghost var c := mem[..size];
    ghost var args := Args(c);
    argv := seq(slots, _ => Null);
    argc := 0;
    var offset := 0;
    assert argv == Layout(args, 0, slots);
    while offset < size
      invariant offset <= size + 1
      invariant argc <= |args|
      invariant offset == Start(args, argc)
      invariant argc < |args| <==> offset < size
      invariant argv == Layout(args, argc, slots)
      decreases size + 1 - offset
    {
      var len := Strlen(mem, offset, size);
      SplitRound(mem, size, c, args, argc, len);
      LayoutStep(args, argc, slots);
      argv := argv[argc := Into(offset)];
      offset := offset + len + 1;
      argc := argc + 1;
    }
  }

  /**
   * What `__execable_parse_args` produces for the contents of
   * /proc/self/cmdline (None when it cannot be opened) under an
   * allocation limit, with `ptrSize`-byte `argv` slots.
   */
  predicate Parsed(cmdline: Option<seq<byte>>, limit: nat, ptrSize: nat, o: Outcome)
  {
    match cmdline
    case None => o == Returned(0, None, None)
    case Some(file) =>
      if !AllocationsFit(file, limit, ptrSize) then o == Exited(1)
      else
        var args := Args(file);
        && o.Returned? && o.mem.Some?
        && o.argc == |args|
        && o.argv == Some(Layout(args, |args|, CountedArgc(file) + 1))
        && |file| < |o.mem.value| && o.mem.value[..|file| + 1] == file + [NUL]
  }

  /** `__execable_parse_args`, with the file's contents in place of the file. */
  method ParseArgs(cmdline: Option<seq<byte>>, limit: nat, ptrSize: nat) returns (o: Outcome)
    ensures Parsed(cmdline, limit, ptrSize, o)
  {
    if cmdline.None? {
      return Returned(0, None, None);
    }
    var file := cmdline.value;
    var ok, mem, size, _ := ReadCmdline(file, limit);
    if !ok {
      return Exited(1);
    }
    var counted := CountArgs(mem, size);
    if limit < (counted + 1) * ptrSize {
      // calloc returned NULL: the source frees the buffer and exits
      return Exited(1);
    }
    assert mem[..size] == file;
    assert mem[..size + 1] == file + [NUL];
    CountMatchesSplit(file);
    var argc, argv := SplitArgs(mem, size, counted + 1);
    o := Returned(argc, Some(argv), Some(mem));
  }

  /**
   * The shape of a successful parse's `argv`: for a non-empty image exactly
   * the counted number of entries with `argv[0]` at the buffer start, each
   * entry pointing at its argument's first byte, and every slot from `argc`
   * on, `argv[argc]` included, NULL.
   */
  lemma ParsedLayout(file: seq<byte>, limit: nat, ptrSize: nat, o: Outcome)
    requires Parsed(Some(file), limit, ptrSize, o) && o.Returned?
    ensures o.argv.Some? && o.argc < |o.argv.value|
    ensures 0 < |file| ==> o.argc == CountedArgc(file) && o.argv.value[0] == Into(0)
    ensures forall i :: 0 <= i < o.argc ==> o.argv.value[i] == Into(Start(Args(file), i))
    ensures forall i :: o.argc <= i < |o.argv.value| ==> o.argv.value[i] == Null
  {
    CountMatchesSplit(file);
    LayoutContents(Args(file), |Args(file)|, CountedArgc(file) + 1);
  }

  /** A buffer that starts with the image and its terminator holds the image before the sentinel. */
  lemma TerminatedImage(mem: seq<byte>, file: seq<byte>)
    requires |file| < |mem| && mem[..|file| + 1] == file + [NUL]
    ensures mem[..|file|] == file && mem[|file|] == NUL
  {
    assert mem[..|file|] == mem[..|file| + 1][..|file|];
    assert mem[|file|] == mem[..|file| + 1][|file|];
  }

  /**
   * Every entry of a successful parse's `argv` below `argc` points inside
   * the image, at the C string that is the corresponding argument.
   */
  lemma ParsedStrings(file: seq<byte>, limit: nat, ptrSize: nat, o: Outcome)
    requires Parsed(Some(file), limit, ptrSize, o) && o.Returned?
    ensures o.argv.Some? && o.argc <= |o.argv.value|
    ensures forall i :: 0 <= i < o.argc ==>
      && o.argv.value[i].Into? && o.argv.value[i].offset < |file|
      && StringAt(o.mem.value, o.argv.value[i].offset, |file|) == Args(file)[i]
  {
    var args := Args(file);
    var mem := o.mem.value;
    var argv := o.argv.value;
    ParsedLayout(file, limit, ptrSize, o);
    TerminatedImage(mem, file);
    EntriesAreArgs(mem, |file|, file, args);
    forall i | 0 <= i < o.argc
      ensures argv[i].Into? && argv[i].offset < |file| && StringAt(mem, argv[i].offset, |file|) == args[i]
    {
      assert argv[i] == Into(Start(args, i));
    }
  }
}
