/** NUL-terminated strings kept in fixed-size buffers, over any element type
    (bytes in the configuration record, characters in the log buffer). */
module CStrings {

  /** The C string a buffer holds: its elements before the first NUL, or the
      whole buffer when it holds none. The contract pins the result down: a
      NUL-free prefix that is followed by a NUL or ends the buffer. */
  function UpToNul<T(==)>(buf: seq<T>, nul: T): (s: seq<T>)
    ensures |s| <= |buf| && s == buf[..|s|]
    ensures nul !in s
    ensures |s| < |buf| ==> buf[|s|] == nul
  {
    if buf == [] || buf[0] == nul then []
    else [buf[0]] + UpToNul(buf[1..], nul)
  }

  /** What `strcpy(dst, src)` leaves in the buffer `dst`: the characters of
      `src`, its terminating NUL, and every later element as it was. C gives
      no meaning to a copy that does not fit, hence the requires. */
  function StrCpy<T>(dst: seq<T>, src: seq<T>, nul: T): (r: seq<T>)
    requires |src| < |dst|
    ensures |r| == |dst|
    ensures r[..|src|] == src && r[|src|] == nul
    ensures r[|src| + 1..] == dst[|src| + 1..]
  {
    src + [nul] + dst[|src| + 1..]
  }

  /** Reading a buffer stops at the first NUL: whatever follows a NUL is
      never part of the string. */
  lemma {:induction false} UpToNulStops<T>(text: seq<T>, nul: T, rest: seq<T>)
    ensures UpToNul(text + [nul] + rest, nul) == UpToNul(text, nul)
  {
    if text != [] {
      assert (text + [nul] + rest)[1..] == text[1..] + [nul] + rest;
      UpToNulStops(text[1..], nul, rest);
    }
  }

  /** strcpy's partner: after copying a NUL-free string, the destination
      buffer reads back as exactly that string, and nothing past its
      terminator changed. */
  lemma StrCpyReadsBack<T>(dst: seq<T>, src: seq<T>, nul: T)
    requires |src| < |dst| && nul !in src
    ensures UpToNul(StrCpy(dst, src, nul), nul) == src
    ensures StrCpy(dst, src, nul)[|src| + 1..] == dst[|src| + 1..]
  {
    UpToNulStops(src, nul, dst[|src| + 1..]);
  }
}
