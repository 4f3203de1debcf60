/** Status codes shared by every layer (error.h). */
module Errors {

  datatype Status =
    | OK
    | BADPAGENO | UNIXERR
    | HASHTBLERROR | HASHNOTFOUND | BUFFEREXCEEDED | PAGENOTPINNED | BADBUFFER | PAGEPINNED
    | NOSPACE | NORECORDS | ENDOFPAGE | INVALIDSLOTNO | INVALIDRECLEN
    | BADSCANPARM | FILEEOF
    | BADSORTPARM | INSUFMEM
    | BADCATPARM | RELNOTFOUND | ATTRNOTFOUND | NAMETOOLONG | DUPLATTR | RELEXISTS | ATTRTOOLONG
    | ATTRTYPEMISMATCH
}

/** Bytes, and little-endian two's-complement integers stored in them. */
module Bytes {

  type byte = x: int | 0 <= x < 256

  const PAGESIZE := 1024         // bytes of a page

  /** The 32-bit value of an integer expression that wrapped around. */
  function Wrap32(x: int): int {
    (x + 0x8000_0000) % 0x1_0000_0000 - 0x8000_0000
  }

  function GetShort(m: seq<byte>, at: nat): (v: int)
    requires at + 2 <= |m|
    ensures -0x8000 <= v < 0x8000
  {
    var u := m[at] as int + 0x100 * m[at + 1] as int;
    if u < 0x8000 then u else u - 0x1_0000
  }

  function ShortBytes(v: int): (b: seq<byte>)
    requires -0x8000 <= v < 0x8000
    ensures |b| == 2 && GetShort(b, 0) == v
  {
    var u := if v < 0 then v + 0x1_0000 else v;
    [u % 0x100, u / 0x100]
  }

  /** The four bytes at `at` read as an unsigned integer. */
  function GetUInt(m: seq<byte>, at: nat): (v: int)
    requires at + 4 <= |m|
    ensures 0 <= v < 0x1_0000_0000
  {
    m[at] as int + 0x100 * m[at + 1] as int + 0x1_0000 * m[at + 2] as int + 0x100_0000 * m[at + 3] as int
  }

  function GetInt(m: seq<byte>, at: nat): (v: int)
    requires at + 4 <= |m|
    ensures -0x8000_0000 <= v < 0x8000_0000
  {
    var u := GetUInt(m, at);
    if u < 0x8000_0000 then u else u - 0x1_0000_0000
  }

  function IntBytes(v: int): (b: seq<byte>)
    requires -0x8000_0000 <= v < 0x8000_0000
    ensures |b| == 4 && GetInt(b, 0) == v
  {
    var u := if v < 0 then v + 0x1_0000_0000 else v;
    var lo, hi := u % 0x1_0000, u / 0x1_0000;
    [lo % 0x100, lo / 0x100, hi % 0x100, hi / 0x100]
  }

  predicate Int32(v: int) { -0x8000_0000 <= v < 0x8000_0000 }

  function Zeros(n: nat): (z: seq<byte>)
    ensures |z| == n && forall i | 0 <= i < n :: z[i] == 0
  {
    if n == 0 then [] else Zeros(n - 1) + [0]
  }

  /** `m` with the bytes of `b` written over it from address `at`. */
  function Put(m: seq<byte>, at: nat, b: seq<byte>): (r: seq<byte>)
    requires at + |b| <= |m|
    ensures |r| == |m|
    ensures r[at..at + |b|] == b
    ensures forall i :: 0 <= i < |m| && !(at <= i < at + |b|) ==> r[i] == m[i]
  {
    m[..at] + b + m[at + |b|..]
  }

  lemma {:induction false} PutPrefix(m: seq<byte>, at: nat, b: seq<byte>)
    requires at + |b| <= |m|
    ensures Put(m, at, b)[..at + |b|] == m[..at] + b
  {}
}
