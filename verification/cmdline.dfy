/**
 * The pure meaning of a Linux command-line image: the bytes of
 * /proc/self/cmdline are the program's arguments, each followed by a NUL
 * byte; a final argument whose NUL is missing still counts.
 */
module Cmdline {

  import opened CString

  /**
   * The arguments of the image from offset `from` on: the bytes up to the
   * next NUL form one argument, and the split resumes past that NUL.
   */
  function ArgsAt(c: seq<byte>, from: nat): (args: seq<seq<byte>>)
    requires from <= |c|
    ensures |args| <= |c| - from
    ensures from < |c| ==> 0 < |args|
    decreases |c| - from
  {
    if from == |c| then []
    else
      var n := NulIndex(c, from);
      if n == |c| then [c[from..]] else [c[from..n]] + ArgsAt(c, n + 1)
  }

  /** Splits a command-line image into its arguments. */
  function Args(c: seq<byte>): seq<seq<byte>>
  {
    ArgsAt(c, 0)
  }

  /** Writes every argument followed by its NUL terminator. */
  function Join(args: seq<seq<byte>>): seq<byte>
  {
    if |args| == 0 then [] else args[0] + [NUL] + Join(args[1..])
  }

  /** The image with a NUL appended unless it is empty or already ends in one. */
  function Terminated(c: seq<byte>): seq<byte>
  {
    if |c| == 0 || c[|c| - 1] == NUL then c else c + [NUL]
  }

  /**
   * Peeling one argument off the split at `from`: it runs up to the next
   * NUL, and the arguments after it are the split past that NUL, or none
   * when there is no NUL.
   */
  lemma ArgsAtCons(c: seq<byte>, from: nat)
    requires from < |c|
    ensures ArgsAt(c, from)[0] == c[from..NulIndex(c, from)]
    ensures NulIndex(c, from) < |c| ==> ArgsAt(c, from)[1..] == ArgsAt(c, NulIndex(c, from) + 1)
    ensures NulIndex(c, from) == |c| ==> |ArgsAt(c, from)| == 1
  {
    assert c[from..] == c[from..|c|];
  }

  /** The number of arguments from `from` on: one, plus those past the next NUL if there is one. */
  lemma ArgsAtLength(c: seq<byte>, from: nat)
    requires from < |c|
    ensures NulIndex(c, from) < |c| ==> |ArgsAt(c, from)| == 1 + |ArgsAt(c, NulIndex(c, from) + 1)|
    ensures NulIndex(c, from) == |c| ==> |ArgsAt(c, from)| == 1
  {
  }

  /**
   * Offset `offset` of the image is where argument `i` of `args` begins:
   * the split from there is the rest of the list.
   */
  predicate Boundary(c: seq<byte>, args: seq<seq<byte>>, i: nat, offset: nat)
  {
    i <= |args| && offset <= |c| && ArgsAt(c, offset) == args[i..]
  }

  /** The split from offset zero is the whole list. */
  lemma BoundaryFirst(c: seq<byte>)
    ensures Boundary(c, Args(c), 0, 0)
  {
    assert Args(c)[0..] == Args(c);
  }

  /** Only the end of the image is the boundary past the last argument. */
  lemma BoundaryInside(c: seq<byte>, args: seq<seq<byte>>, i: nat, offset: nat)
    requires Boundary(c, args, i, offset) && i < |args|
    ensures offset < |c|
  {
  }

  /**
   * At a boundary inside the image an argument begins and runs to the next
   * NUL; past that NUL is the next boundary, and without one it was the
   * last argument.
   */
  lemma BoundaryNext(c: seq<byte>, args: seq<seq<byte>>, i: nat, offset: nat)
    requires Boundary(c, args, i, offset) && offset < |c|
    ensures i < |args|
    ensures args[i] == c[offset..NulIndex(c, offset)]
    ensures NulIndex(c, offset) < |c| ==> Boundary(c, args, i + 1, NulIndex(c, offset) + 1)
    ensures NulIndex(c, offset) == |c| ==> i + 1 == |args|
  {
    var tail := args[i..];
    ArgsAtCons(c, offset);
    assert args[i] == tail[0];
    if NulIndex(c, offset) < |c| {
      assert args[i + 1..] == tail[1..];
    }
  }

  /** No argument of a list holds a NUL byte. */
  predicate NulFreeArgs(xs: seq<seq<byte>>)
  {
    forall i :: 0 <= i < |xs| ==> NUL !in xs[i]
  }

  /** No argument of the split holds a NUL byte. */
  lemma ArgsAtNulFree(c: seq<byte>, from: nat)
    requires from <= |c|
    ensures NulFreeArgs(ArgsAt(c, from))
    decreases |c| - from
  {
    if from < |c| {
      var n := NulIndex(c, from);
      ArgsAtCons(c, from);
      assert NUL !in c[from..n];
      if n < |c| {
        ArgsAtNulFree(c, n + 1);
      }
    }
  }

  /** One unfolding of `Join` on a list written as head and tail. */
  lemma JoinCons(head: seq<byte>, tail: seq<seq<byte>>)
    ensures Join([head] + tail) == head + [NUL] + Join(tail)
  {
    assert ([head] + tail)[1..] == tail;
  }

  /** Joining the arguments again gives back the image, NUL-terminated. */
  lemma JoinArgs(c: seq<byte>)
    ensures Join(Args(c)) == Terminated(c)
  {
    JoinArgsAt(c, 0);
    assert c[0..] == c;
  }

  /** The same for the split from any offset and the rest of the image. */
  lemma JoinArgsAt(c: seq<byte>, from: nat)
    requires from <= |c|
    ensures Join(ArgsAt(c, from)) == Terminated(c[from..])
    decreases |c| - from
  {
    if from < |c| {
      var n := NulIndex(c, from);
      if n == |c| {
        JoinLastArg(c, from);
      } else {
        JoinArgsAt(c, n + 1);
        JoinStep(c, from, n);
      }
    }
  }

  /** An argument with no NUL after it is joined with a terminator added. */
  lemma JoinLastArg(c: seq<byte>, from: nat)
    requires from < |c| && NulIndex(c, from) == |c|
    ensures Join(ArgsAt(c, from)) == Terminated(c[from..])
  {
    var d := c[from..];
    ArgsAtCons(c, from);
    assert ArgsAt(c, from) == [d];
    JoinCons(d, []);
    assert d[|d| - 1] == c[|c| - 1];
  }

  /** The joined split from `from` is the terminated image from there once it is so past the first NUL. */
  lemma JoinStep(c: seq<byte>, from: nat, n: nat)
    requires from < |c| && n == NulIndex(c, from) && n < |c|
    requires Join(ArgsAt(c, n + 1)) == Terminated(c[n + 1..])
    ensures Join(ArgsAt(c, from)) == Terminated(c[from..])
  {
    JoinNextArg(c, from, n);
    TerminatedCons(c, from, n);
  }

  /** Joining the split at `from` writes its first argument, the NUL at `n`, then the rest. */
  lemma JoinNextArg(c: seq<byte>, from: nat, n: nat)
    requires from < |c| && n == NulIndex(c, from) && n < |c|
    ensures Join(ArgsAt(c, from)) == c[from..n] + [NUL] + Join(ArgsAt(c, n + 1))
  {
    ArgsAtCons(c, from);
    assert ArgsAt(c, from) == [c[from..n]] + ArgsAt(c, n + 1);
    JoinCons(c[from..n], ArgsAt(c, n + 1));
  }

  /** Terminating the image from `from` on, when it holds a NUL at `n`, terminates the part past `n`. */
  lemma TerminatedCons(c: seq<byte>, from: nat, n: nat)
    requires from <= n < |c| && c[n] == NUL
    ensures Terminated(c[from..]) == c[from..n] + [NUL] + Terminated(c[n + 1..])
  {
    var d := c[from..];
    var rest := c[n + 1..];
    assert d == c[from..n] + [NUL] + rest;
    if |rest| > 0 {
      assert rest[|rest| - 1] == d[|d| - 1];
    }
  }

  /** Splitting a joined list of NUL-free arguments gives back the list. */
  lemma ArgsJoin(xs: seq<seq<byte>>)
    requires NulFreeArgs(xs)
    ensures Args(Join(xs)) == xs
  {
    var j := Join(xs);
    assert j[0..] == j;
    ArgsAtJoin(j, 0, xs);
  }

  /** The same for a joined list that a buffer holds from `from` to its end. */
  lemma ArgsAtJoin(j: seq<byte>, from: nat, xs: seq<seq<byte>>)
    requires from <= |j| && j[from..] == Join(xs)
    requires NulFreeArgs(xs)
    ensures ArgsAt(j, from) == xs
    decreases |xs|
  {
    if |xs| > 0 {
      var x, rest := xs[0], xs[1..];
      JoinUncons(xs, x, rest);
      JoinedSplit(j, from, x, Join(rest));
      ArgsAtJoin(j, from + |x| + 1, rest);
      assert ArgsAt(j, from + |x| + 1) == rest;
      ArgsAtHeadTail(j, from, x, rest, xs);
    }
  }

  /** A non-empty list is its head and tail, joined as the head, a NUL and the joined tail. */
  lemma JoinUncons(xs: seq<seq<byte>>, x: seq<byte>, rest: seq<seq<byte>>)
    requires 0 < |xs| && x == xs[0] && rest == xs[1..]
    requires NulFreeArgs(xs)
    ensures Join(xs) == x + [NUL] + Join(rest)
    ensures xs == [x] + rest
    ensures NUL !in x && NulFreeArgs(rest)
  {
    assert forall i :: 0 <= i < |rest| ==> rest[i] == xs[i + 1];
  }

  /**
   * A buffer holding a NUL-free argument, its terminator and more from
   * `from` on: the split there takes the argument off first and resumes
   * past the terminator.
   */
  lemma JoinedSplit(j: seq<byte>, from: nat, x: seq<byte>, tail: seq<byte>)
    requires from <= |j| && j[from..] == x + [NUL] + tail
    requires NUL !in x
    ensures from + |x| < |j|
    ensures j[from + |x| + 1..] == tail
    ensures ArgsAt(j, from) == [x] + ArgsAt(j, from + |x| + 1)
  {
    JoinedHead(j, from, x, tail);
    ArgsAtHead(j, from, x);
  }

  /** In such a buffer the first NUL from `from` on is the argument's terminator. */
  lemma JoinedHead(j: seq<byte>, from: nat, x: seq<byte>, tail: seq<byte>)
    requires from <= |j| && j[from..] == x + [NUL] + tail
    requires NUL !in x
    ensures NulIndex(j, from) == from + |x|
    ensures j[from..from + |x|] == x
    ensures j[from + |x| + 1..] == tail
  {
    forall k | from <= k < from + |x|
      ensures j[k] != NUL
    {
      assert j[k] == j[from..][k - from] == x[k - from];
    }
    assert j[from + |x|] == j[from..][|x|];
    NulIndexIsFirst(j, from, from + |x|);
    assert j[from..from + |x|] == j[from..][..|x|];
    assert j[from + |x| + 1..] == j[from..][|x| + 1..];
  }

  /** An argument that ends at a NUL inside the buffer is split off ahead of the rest. */
  lemma ArgsAtHead(j: seq<byte>, from: nat, x: seq<byte>)
    requires from + |x| < |j| && NulIndex(j, from) == from + |x|
    requires j[from..from + |x|] == x
    ensures ArgsAt(j, from) == [x] + ArgsAt(j, from + |x| + 1)
  {
  }

  /** The split from `from` is the head followed by the split past its terminator. */
  lemma ArgsAtHeadTail(j: seq<byte>, from: nat, x: seq<byte>, rest: seq<seq<byte>>, xs: seq<seq<byte>>)
    requires from + |x| < |j| && xs == [x] + rest
    requires ArgsAt(j, from) == [x] + ArgsAt(j, from + |x| + 1)
    requires ArgsAt(j, from + |x| + 1) == rest
    ensures ArgsAt(j, from) == xs
  {
  }

  /**
   * Where argument `i` starts in the joined image: every earlier argument
   * takes its length plus one byte for its terminator.
   */
  function Start(args: seq<seq<byte>>, i: nat): nat
    requires i <= |args|
  {
    if i == 0 then 0 else Start(args, i - 1) + |args[i - 1]| + 1
  }

  /** `Start` is the length of the joined earlier arguments. */
  lemma StartIsJoinLength(args: seq<seq<byte>>, i: nat)
    requires i <= |args|
    ensures Start(args, i) == |Join(args[..i])|
    decreases i
  {
    if i > 0 {
      StartIsJoinLength(args, i - 1);
      assert args[..i] == args[..i - 1] + [args[i - 1]];
      JoinSnoc(args[..i - 1], args[i - 1]);
    }
  }

  /** Joining one more argument appends it and its terminator. */
  lemma JoinSnoc(xs: seq<seq<byte>>, x: seq<byte>)
    ensures Join(xs + [x]) == Join(xs) + x + [NUL]
    decreases |xs|
  {
    if |xs| == 0 {
      assert xs + [x] == [x];
    } else {
      assert (xs + [x])[1..] == xs[1..] + [x];
      JoinSnoc(xs[1..], x);
    }
  }
}
