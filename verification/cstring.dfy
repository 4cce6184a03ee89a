/**
 * Bytes and NUL-terminated strings, as the argument parser of execable.h
 * sees them: a buffer is a sequence of bytes, a C string starting at an
 * index runs up to (not including) the next NUL byte.
 */
module CString {

  newtype byte = x: int | 0 <= x < 256

  const NUL: byte := 0

  /** No byte of `s` from `from` up to (not including) `to` is NUL. */
  predicate NoNulIn(s: seq<byte>, from: nat, to: nat)
    requires from <= to <= |s|
  {
    forall k :: from <= k < to ==> s[k] != NUL
  }

  /** Index of the first NUL byte at or after `from`, or `|s|` when there is none. */
  function NulIndex(s: seq<byte>, from: nat): (r: nat)
    requires from <= |s|
    ensures from <= r <= |s|
    ensures r < |s| ==> s[r] == NUL
    ensures NoNulIn(s, from, r)
    decreases |s| - from
  {
    if from == |s| || s[from] == NUL then from else NulIndex(s, from + 1)
  }

  /** The three properties of `NulIndex` determine it. */
  lemma NulIndexIsFirst(s: seq<byte>, from: nat, r: nat)
    requires from <= r <= |s|
    requires r < |s| ==> s[r] == NUL
    requires NoNulIn(s, from, r)
    ensures NulIndex(s, from) == r
  {
  }

  /**
   * A terminator at `end` hides everything after it: searching the whole
   * buffer finds the same NUL as searching the bytes before `end`, or `end`
   * itself when those bytes hold none.
   */
  lemma NulIndexBefore(s: seq<byte>, end: nat, from: nat)
    requires from <= end < |s| && s[end] == NUL
    ensures NulIndex(s, from) == NulIndex(s[..end], from)
  {
    var r := NulIndex(s[..end], from);
    assert forall k :: from <= k < r ==> s[k] == s[..end][k];
    NulIndexIsFirst(s, from, r);
  }

  /**
   * `strlen(s + from)` on a buffer whose byte at `end` is NUL: the scan
   * stops at the first NUL and never runs past `end`.
   */
  function Strlen(s: seq<byte>, from: nat, end: nat): (len: nat)
    requires from <= end < |s| && s[end] == NUL
    ensures from + len <= end
    ensures s[from + len] == NUL
    ensures NoNulIn(s, from, from + len)
  {
    NulIndex(s, from) - from
  }

  /** The C string that starts at `from`: the bytes before the next NUL. */
  function StringAt(s: seq<byte>, from: nat, end: nat): (str: seq<byte>)
    requires from <= end < |s| && s[end] == NUL
    ensures from + |str| <= end && s[from + |str|] == NUL
    ensures str == s[from..from + |str|]
    ensures NUL !in str
  {
    s[from..from + Strlen(s, from, end)]
  }

  /**
   * The C string at `from` in a buffer terminated at `end` is the run of
   * bytes before the first NUL of `s[..end]` at or after `from`.
   */
  lemma StringAtBefore(s: seq<byte>, end: nat, from: nat)
    requires from <= end < |s| && s[end] == NUL
    ensures StringAt(s, from, end) == s[..end][from..NulIndex(s[..end], from)]
  {
    NulIndexBefore(s, end, from);
  }
}
