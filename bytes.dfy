/** Byte-level helpers shared by the command grammar and the line framer.
    Bytes of the wire are modelled as `char`; only '\n', '\r' and ' ' and the
    ASCII command names carry meaning. */
module Bytes {

  datatype Option<+T> = None | Some(value: T)

  /** The `memchr` search: the index of the first occurrence of `c` in `s`,
      or `None` when `c` does not occur. It never looks beyond `|s|`. */
  function FindByte(s: seq<char>, c: char): (r: Option<nat>)
    ensures r.None? <==> c !in s
    ensures r.Some? ==> r.value < |s| && s[r.value] == c && c !in s[..r.value]
    decreases |s|
  {
    if |s| == 0 then None
    else if s[0] == c then Some(0)
    else match FindByte(s[1..], c)
      case None => None
      case Some(k) => assert s[1..][..k] == s[1..k + 1]; Some(k + 1)
  }

  /** Locating a byte that is absent from a prefix and present right after it. */
  lemma {:induction false} FindByteAfter(prefix: seq<char>, c: char, tail: seq<char>)
    requires c !in prefix
    ensures FindByte(prefix + [c] + tail, c) == Some(|prefix|)
  {
    assert (prefix + [c] + tail)[|prefix|] == c;
  }

  /** A sequence is its prefix, the element at `k` and its suffix. */
  lemma CutAt(s: seq<char>, k: nat)
    requires k < |s|
    ensures s == s[..k] + [s[k]] + s[k + 1..]
  {
  }
}
