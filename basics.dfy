/** Bytes, C strings and the result type shared by the whole model. */
module Basics {

  /** One byte of a `std::string` or a `const char*` buffer.  A `char` below 256 stands for it,
      so that byte strings can be written as ordinary string literals. */
  type Byte = c: char | c as int < 256
  type Bytes = seq<Byte>

  /** The outcome of an operation that the source ends with an exception or an error code. */
  datatype Result<T, E> = Ok(value: T) | Err(error: E)

  datatype Option<T> = None | Some(value: T)

  /** The bytes of `s` before the first occurrence of `stop`, or all of `s` when it has none. */
  function PrefixBefore(s: Bytes, stop: Byte): (r: Bytes)
    ensures |r| <= |s| && r == s[..|r|]
    ensures stop !in r
    ensures |r| < |s| ==> s[|r|] == stop
  {
    if s == [] || s[0] == stop then [] else [s[0]] + PrefixBefore(s[1..], stop)
  }

  /** Whatever follows the first `stop` does not change the prefix before it. */
  lemma {:induction false} PrefixBeforeStops(p: Bytes, tail: Bytes, stop: Byte)
    requires stop !in p && |tail| > 0 && tail[0] == stop
    ensures PrefixBefore(p + tail, stop) == p
  {
    if p != [] {
      assert (p + tail)[1..] == p[1..] + tail;
      PrefixBeforeStops(p[1..], tail, stop);
    }
  }

  /** The bytes a `const char*` pointing at `buf` denotes: everything before the first NUL, the
      whole buffer when it holds none. */
  function CString(buf: Bytes): (r: Bytes)
    ensures |r| <= |buf| && r == buf[..|r|]
    ensures '\0' !in r
    ensures |r| < |buf| ==> buf[|r|] == '\0'
    ensures '\0' !in buf ==> r == buf
  {
    PrefixBefore(buf, '\0')
  }

  /** The byte at `i`, or the terminating NUL once `i` is past the end of `s`. */
  function Peek(s: Bytes, i: nat): Byte
  {
    if i < |s| then s[i] else '\0'
  }

  predicate IsDigit(c: Byte) { '0' <= c <= '9' }
  predicate IsDigit1To9(c: Byte) { '1' <= c <= '9' }
}
