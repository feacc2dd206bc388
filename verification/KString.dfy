/** The byte loops of kernel/kstring.c. Buffers that are written are arrays; a source that
    cannot overlap the destination is passed as its bytes. */
module KString {
  import opened Bytes

  method KMemset(dst: array<byte>, off: nat, value: byte, count: nat)
    requires off + count <= dst.Length
    modifies dst
    ensures dst[..] == Splice(old(dst[..]), off, seq(count, _ => value))
  {
    for i := 0 to count
      invariant dst[..] == Splice(old(dst[..]), off, seq(i, _ => value))
    {
      dst[off + i] := value;
    }
  }

  method KMemcpy(dst: array<byte>, off: nat, src: seq<byte>)
    requires off + |src| <= dst.Length
    modifies dst
    ensures dst[..] == Splice(old(dst[..]), off, src)
  {
    for i := 0 to |src|
      invariant dst[..] == Splice(old(dst[..]), off, src[..i])
    {
      dst[off + i] := src[i];
    }
    assert src[..|src|] == src;
  }

  /** `kmemcpy` inside one buffer. The ascending loop moves the bytes intact when it copies
      towards lower addresses, however much the ranges overlap, or when they do not overlap. */
  method KMemmoveDown(buf: array<byte>, dst: nat, src: nat, count: nat)
    requires dst + count <= buf.Length && src + count <= buf.Length
    requires dst <= src || src + count <= dst
    modifies buf
    ensures buf[..] == Splice(old(buf[..]), dst, old(buf[src..src + count]))
  {
    for i := 0 to count
      invariant forall k {:trigger buf[k]} :: 0 <= k < buf.Length ==>
        buf[k] == if dst <= k < dst + i then old(buf[src + (k - dst)]) else old(buf[k])
    {
      buf[dst + i] := buf[src + i];
    }
  }

  method KStrlen(s: seq<byte>) returns (len: nat)
    requires NUL in s
    ensures len == |CStr(s)|
  {
    len := 0;
    while s[len] != NUL
      invariant len < |s|
      invariant forall k :: 0 <= k < len ==> s[k] != NUL
      decreases |s| - len
    {
      var z :| 0 <= z < |s| && s[z] == NUL;
      len := len + 1;
    }
    IndexOfUnique(s, NUL, len);
  }

  /** Zero exactly for equal strings; otherwise the difference at the first place they differ,
      a shorter string reading as NUL there. */
  method KStrcmp(a: seq<byte>, b: seq<byte>) returns (r: int)
    requires NUL in a && NUL in b
    ensures r == 0 <==> CStr(a) == CStr(b)
    ensures exists k :: 0 <= k < |a| && k < |b| && a[..k] == b[..k] && r == a[k] as int - b[k] as int
  {
    var i := 0;
    while a[i] != NUL && b[i] != NUL && a[i] == b[i]
      invariant i < |a| && i < |b|
      invariant forall k :: 0 <= k < i ==> a[k] == b[k] && a[k] != NUL
      decreases |a| - i
    {
      var z :| 0 <= z < |a| && a[z] == NUL;
      var y :| 0 <= y < |b| && b[y] == NUL;
      i := i + 1;
    }
    r := a[i] as int - b[i] as int;
    assert a[..i] == b[..i];
    CStrCompare(a, b, i);
  }

  /** Strings that agree before `i` and stop or differ at `i` are equal exactly when they agree there. */
  lemma CStrCompare(a: seq<byte>, b: seq<byte>, i: nat)
    requires i < |a| && i < |b|
    requires forall k :: 0 <= k < i ==> a[k] == b[k] && a[k] != NUL
    requires a[i] == NUL || b[i] == NUL || a[i] != b[i]
    ensures a[i] == b[i] <==> CStr(a) == CStr(b)
  {
  }

  function Prefix(s: seq<byte>, n: nat): seq<byte> {
    if n <= |s| then s[..n] else s
  }

  /** Equality of at most `n` characters of buffers that have them or end in a NUL before; when
      the strings differ, the difference at the first place they do. */
  method KStrncmp(a: seq<byte>, b: seq<byte>, n: nat) returns (r: int)
    requires (n <= |a| || NUL in a) && (n <= |b| || NUL in b)
    ensures r == 0 <==> CStr(Prefix(a, n)) == CStr(Prefix(b, n))
    ensures r != 0 ==>
      exists k :: 0 <= k < n && k < |a| && k < |b| && a[..k] == b[..k] && r == a[k] as int - b[k] as int
  {
    var i := 0;
    while i < n
      invariant i <= n && i <= |a| && i <= |b|
      invariant forall k :: 0 <= k < i ==> a[k] == b[k] && a[k] != NUL
    {
      if n > |a| { var z :| 0 <= z < |a| && a[z] == NUL; }
      if n > |b| { var y :| 0 <= y < |b| && b[y] == NUL; }
      if a[i] != b[i] || a[i] == NUL || b[i] == NUL {
        CStrCompare(Prefix(a, n), Prefix(b, n), i);
        assert a[..i] == b[..i];
        return a[i] as int - b[i] as int;
      }
      i := i + 1;
    }
    assert a[..n] == b[..n];
    return 0;
  }

  method KStrcpy(dst: array<byte>, off: nat, src: seq<byte>)
    requires NUL in src && off + |CStr(src)| < dst.Length
    modifies dst
    ensures dst[..] == Splice(old(dst[..]), off, CStr(src) + [NUL])
  {
    var i := 0;
    while src[i] != NUL
      invariant i <= |CStr(src)|
      invariant forall k {:trigger dst[k]} :: 0 <= k < dst.Length ==>
        dst[k] == if off <= k < off + i then src[k - off] else old(dst[k])
      decreases |src| - i
    {
      dst[off + i] := src[i];
      i := i + 1;
    }
    IndexOfUnique(src, NUL, i);
    dst[off + i] := NUL;
  }
}
