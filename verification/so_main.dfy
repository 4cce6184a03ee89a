/**
 * The release at the end of `SO_MAIN` (libcap/execable.h): after the
 * program's main returns, `argv[0]` and `argv` are freed when `argc` is
 * not zero, and the process exits.
 */
module SoMain {

  import opened Optional
  import opened CString
  import opened Execable

  /** The two heap blocks the parser allocates. */
  datatype Block = CmdlineBuffer | ArgvArray

  /** `free(p)`: None when `p` does not point at the start of a block. */
  function Free(p: Ptr): Option<set<Block>>
  {
    match p
    case Null => Some({})
    case Into(offset) => if offset == 0 then Some({CmdlineBuffer}) else None
  }

  /**
   * The release at the end of `SO_MAIN`: when `argc != 0`, `argv[0]` and
   * then `argv` are freed. The result is the set of blocks freed, or None
   * when a free would be invalid.
   */
  function Release(o: Outcome): Option<set<Block>>
    requires o.Returned?
  {
    if o.argc == 0 then Some({})
    else if o.argv.None? || |o.argv.value| == 0 then None
    else match Free(o.argv.value[0])
      case None => None
      case Some(freed) => Some(freed + {ArgvArray})
  }

  /** The blocks a returned outcome still holds. */
  function Live(o: Outcome): set<Block>
    requires o.Returned?
  {
    (if o.mem.Some? then {CmdlineBuffer} else {}) + (if o.argv.Some? then {ArgvArray} else {})
  }

  /**
   * Whenever the file cannot be opened or is not empty, the release frees
   * exactly the blocks the parser allocated, through valid frees.
   */
  lemma EpilogueFreesEverything(cmdline: Option<seq<byte>>, limit: nat, ptrSize: nat, o: Outcome)
    requires Parsed(cmdline, limit, ptrSize, o) && o.Returned?
    requires cmdline.Some? ==> 0 < |cmdline.value|
    ensures Release(o) == Some(Live(o))
  {
    match cmdline
    case None =>
      assert o == Returned(0, None, None);
      assert Live(o) == {};
    case Some(file) =>
      assert AllocationsFit(file, limit, ptrSize);
      ParsedLayout(file, limit, ptrSize, o);
      CountMatchesSplit(file);
      assert 0 < o.argc;
      assert Live(o) == {CmdlineBuffer, ArgvArray};
  }

  /**
   * An empty command-line image leaves `argc == 0` with both the byte
   * buffer and `argv` allocated; the release frees neither.
   */
  lemma EmptyCmdlineLeaks(limit: nat, ptrSize: nat, o: Outcome)
    requires Parsed(Some([]), limit, ptrSize, o) && o.Returned?
    ensures Live(o) == {CmdlineBuffer, ArgvArray}
    ensures Release(o) == Some({})
  {
  }

  /**
   * The parser with the leak closed: when no argument was found, the byte
   * buffer and `argv` are freed and NULL is returned.
   */
  method ParseArgsFixed(cmdline: Option<seq<byte>>, limit: nat, ptrSize: nat) returns (o: Outcome)
    ensures o.Returned? ==> Release(o) == Some(Live(o))
    ensures cmdline.None? || 0 < |cmdline.value| ==> Parsed(cmdline, limit, ptrSize, o)
    ensures cmdline.Some? && |cmdline.value| == 0 && o.Returned? ==> o == Returned(0, None, None)
    ensures cmdline.Some? && |cmdline.value| == 0 ==> (o.Exited? <==> !AllocationsFit([], limit, ptrSize))
  {
    o := ParseArgs(cmdline, limit, ptrSize);
    if o.Returned? && o.argc == 0 {
      o := Returned(0, None, None);
      assert Live(o) == {};
    } else if o.Returned? {
      // a non-zero argc comes only from a non-empty image
      assert cmdline.Some? && 0 < |cmdline.value|;
      EpilogueFreesEverything(cmdline, limit, ptrSize, o);
    }
  }
}
