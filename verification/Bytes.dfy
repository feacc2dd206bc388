/** Bytes, NUL-terminated strings, little-endian fields and buffer splicing:
    the vocabulary every other module is written in. */
module Bytes {
  type byte = x: int | 0 <= x < 256

  const NUL: byte := 0
  const NEWLINE: byte := 10
  const RETURN: byte := 13
  const SPACE: byte := 32
  const TAB: byte := 9
  const SLASH: byte := 47

  datatype Option<+T> = None | Some(value: T)

  /** The characters of a C string, without its terminating NUL. */
  type cstring = s: seq<byte> | forall k :: 0 <= k < |s| ==> s[k] != NUL witness []

  /** Index of the first `b` in `s`, or `|s|` when there is none. */
  function IndexOf(s: seq<byte>, b: byte): (k: nat)
    ensures k <= |s|
    ensures forall j :: 0 <= j < k ==> s[j] != b
    ensures k < |s| ==> s[k] == b
  {
    if s == [] || s[0] == b then 0 else 1 + IndexOf(s[1..], b)
  }

  lemma {:induction false} IndexOfUnique(s: seq<byte>, b: byte, k: nat)
    requires k <= |s|
    requires forall j :: 0 <= j < k ==> s[j] != b
    requires k < |s| ==> s[k] == b
    ensures IndexOf(s, b) == k
  {
    if s != [] && s[0] != b {
      IndexOfUnique(s[1..], b, k - 1);
    }
  }

  /** The C string stored at the start of a buffer. */
  function CStr(buf: seq<byte>): cstring
  {
    buf[..IndexOf(buf, NUL)]
  }

  /** A piece of a C string. */
  function Slice(s: cstring, a: nat, b: nat): (r: cstring)
    requires a <= b <= |s|
    ensures r == s[a..b]
  {
    s[a..b]
  }

  /** Overwriting part of a buffer. */
  function Splice(dst: seq<byte>, off: nat, src: seq<byte>): (r: seq<byte>)
    requires off + |src| <= |dst|
    ensures |r| == |dst|
    ensures forall k {:trigger r[k]} :: 0 <= k < |dst| ==>
      r[k] == if off <= k < off + |src| then src[k - off] else dst[k]
  {
    dst[..off] + src + dst[off + |src|..]
  }

  function Zeros(n: nat): (z: seq<byte>)
    ensures |z| == n
  {
    seq(n, _ => 0)
  }

  /** Storing a string and its NUL over the start of a buffer reads back as that string. */
  lemma CStrOfCopy(buf: seq<byte>, s: cstring)
    requires |s| < |buf|
    ensures CStr(Splice(buf, 0, s + [NUL])) == s
  {
    var r := Splice(buf, 0, s + [NUL]);
    assert r[|s|] == NUL;
    assert forall j :: 0 <= j < |s| ==> r[j] == s[j];
    IndexOfUnique(r, NUL, |s|);
    assert r[..|s|] == s;
  }

  // ---- little-endian integer fields -------------------------------------------------

  function Le16(x: int): (b: seq<byte>)
    requires 0 <= x < 0x1_0000
    ensures |b| == 2
  {
    [x % 256, x / 256]
  }

  function Le32(x: int): (b: seq<byte>)
    requires 0 <= x < 0x1_0000_0000
    ensures |b| == 4
  {
    [x % 256, x / 0x100 % 256, x / 0x1_0000 % 256, x / 0x100_0000]
  }

  function FromLe16(b: seq<byte>): (x: int)
    requires |b| == 2
    ensures 0 <= x < 0x1_0000
  {
    (b[0] as int) + 0x100 * (b[1] as int)
  }

  function FromLe32(b: seq<byte>): (x: int)
    requires |b| == 4
    ensures 0 <= x < 0x1_0000_0000
  {
    (b[0] as int) + 0x100 * (b[1] as int) + 0x1_0000 * (b[2] as int) + 0x100_0000 * (b[3] as int)
  }

  /** A signed 32-bit field: two's complement. */
  function LeI32(x: int): (b: seq<byte>)
    requires -0x8000_0000 <= x < 0x8000_0000
    ensures |b| == 4
  {
    Le32(if x < 0 then x + 0x1_0000_0000 else x)
  }

  function FromLeI32(b: seq<byte>): (x: int)
    requires |b| == 4
    ensures -0x8000_0000 <= x < 0x8000_0000
  {
    var u := FromLe32(b);
    if u >= 0x8000_0000 then u - 0x1_0000_0000 else u
  }

  lemma Le32RoundTrip(x: int)
    requires 0 <= x < 0x1_0000_0000
    ensures FromLe32(Le32(x)) == x
  {
    assert x / 0x1_0000 == x / 0x100 / 256;
    assert x / 0x100_0000 == x / 0x1_0000 / 256;
  }

  lemma LeFieldsRoundTrip()
    ensures forall x :: 0 <= x < 0x1_0000 ==> FromLe16(Le16(x)) == x
    ensures forall x :: 0 <= x < 0x1_0000_0000 ==> FromLe32(Le32(x)) == x
    ensures forall x :: -0x8000_0000 <= x < 0x8000_0000 ==> FromLeI32(LeI32(x)) == x
  {
    forall x | 0 <= x < 0x1_0000_0000 ensures FromLe32(Le32(x)) == x {
      Le32RoundTrip(x);
    }
  }
}
