/** The C-level vocabulary shared by every part of the store: bytes, the
    `unsigned int` hit counter, NUL-terminated strings and nullable results. */
module CTypes {

  /** An `unsigned char`, as read and written by fgetc/fputc. */
  type byte = b: int | 0 <= b < 256

  type bytes = seq<byte>

  /** A C string, without its terminator: it cannot hold a NUL byte. */
  type CString = s: bytes | 0 !in s

  /** An `unsigned int` of 32 bits. */
  type u32 = n: int | 0 <= n < 0x1_0000_0000

  /** A pointer result that may be NULL. */
  datatype Option<T> = None | Some(value: T)

  /** `x++` on an `unsigned int`: wraps around to 0 after 0xFFFF_FFFF. */
  function Inc(n: u32): u32
  {
    if n == 0xFFFF_FFFF then 0 else n + 1
  }

  /** The longest prefix of `s` that does not contain `stop`: what a C routine
      sees of a buffer when `stop` is the string terminator. */
  function UpTo<T(==)>(s: seq<T>, stop: T): (r: seq<T>)
    ensures stop !in r
    ensures r <= s
    ensures |r| < |s| ==> s[|r|] == stop
  {
    if s == [] || s[0] == stop then [] else [s[0]] + UpTo(s[1..], stop)
  }

  /** The C-string view of a raw buffer: its bytes up to the first NUL. */
  function CStr(s: bytes): CString
  {
    UpTo(s, 0)
  }

  /** A prefix that stops just before the first `stop` (or at the end) is
      exactly what UpTo returns. */
  lemma UpToAt<T>(s: seq<T>, stop: T, p: nat)
    requires p <= |s|
    requires stop !in s[..p]
    requires p == |s| || s[p] == stop
    ensures UpTo(s, stop) == s[..p]
  {
  }

  /** A buffer without the stop element is its own C view. */
  lemma UpToNoStop<T>(s: seq<T>, stop: T)
    requires stop !in s
    ensures UpTo(s, stop) == s
  {
    UpToAt(s, stop, |s|);
  }
}
