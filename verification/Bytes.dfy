/** Bytes, little-endian integers, NUL-terminated strings and in-place stores. */
module Bytes {
  datatype Option<+T> = None | Some(value: T)

  type byte = b: int | 0 <= b < 256

  // ----- little-endian integers -----

  function Pow256(n: nat): nat
  {
    if n == 0 then 1 else 256 * Pow256(n - 1)
  }

  /** The value of a little-endian integer field. */
  function LE(s: seq<byte>): nat
  {
    if s == [] then 0 else s[0] + 256 * LE(s[1..])
  }

  /** The n bytes a little-endian store of v writes; a wider value is truncated. */
  function EncodeLE(v: nat, n: nat): (s: seq<byte>)
    ensures |s| == n
  {
    if n == 0 then [] else [v % 256] + EncodeLE(v / 256, n - 1)
  }

  lemma {:induction false} FieldBound(s: seq<byte>)
    ensures LE(s) < Pow256(|s|)
  {
    if s != [] {
      FieldBound(s[1..]);
    }
  }

  /** Storing a value and loading it back gives the value, when the field is wide enough. */
  lemma {:induction false} LoadStored(v: nat, n: nat)
    requires v < Pow256(n)
    ensures LE(EncodeLE(v, n)) == v
  {
    if n != 0 {
      LoadStored(v / 256, n - 1);
      assert EncodeLE(v, n)[1..] == EncodeLE(v / 256, n - 1);
    }
  }

  lemma {:induction false} LEZero(s: seq<byte>)
    requires forall i :: 0 <= i < |s| ==> s[i] == 0
    ensures LE(s) == 0
  {
    if s != [] {
      LEZero(s[1..]);
    }
  }

  // ----- replacing a range -----

  /** s with the bytes from off on replaced by t. */
  function Splice(s: seq<byte>, off: nat, t: seq<byte>): (r: seq<byte>)
    requires off + |t| <= |s|
    ensures |r| == |s|
    ensures r[off..off + |t|] == t
    ensures forall i :: 0 <= i < |s| && !(off <= i < off + |t|) ==> r[i] == s[i]
  {
    s[..off] + t + s[off + |t|..]
  }

  /** The two buffers hold the same bytes on [lo, hi). */
  ghost predicate Agree(m: seq<byte>, f: seq<byte>, lo: nat, hi: nat)
  {
    hi <= |m| && hi <= |f| && forall i :: lo <= i < hi ==> m[i] == f[i]
  }

  lemma AgreeSlice(m: seq<byte>, f: seq<byte>, lo: nat, hi: nat)
    requires lo <= hi && Agree(m, f, lo, hi)
    ensures m[lo..hi] == f[lo..hi]
  {
  }

  /** memcpy(&mem[off], src, |src|). */
  method Copy(mem: array<byte>, off: nat, src: seq<byte>)
    requires off + |src| <= mem.Length
    modifies mem
    ensures mem[..] == Splice(old(mem[..]), off, src)
  {
    forall i | 0 <= i < |src| {
      mem[off + i] := src[i];
    }
    assert forall i :: 0 <= i < mem.Length ==> mem[..][i] == Splice(old(mem[..]), off, src)[i];
  }

  // ----- NUL-terminated strings -----

  /** The C string that starts at o; None when no NUL follows inside the buffer. */
  function CStr(m: seq<byte>, o: nat): Option<seq<byte>>
    requires o <= |m|
    decreases |m| - o
  {
    if o == |m| then None
    else if m[o] == 0 then Some([])
    else
      match CStr(m, o + 1)
      case None => None
      case Some(t) => Some([m[o]] + t)
  }

  /** s stands at o, holds no NUL, and is followed by one. */
  ghost predicate StringAt(m: seq<byte>, o: nat, s: seq<byte>)
  {
    && o + |s| < |m|
    && m[o + |s|] == 0
    && forall i :: 0 <= i < |s| ==> m[o + i] == s[i] && s[i] != 0
  }

  /** CStr finds exactly the string that stands at o. */
  lemma {:induction false} CStrMeaning(m: seq<byte>, o: nat, s: seq<byte>)
    requires o <= |m|
    ensures CStr(m, o) == Some(s) <==> StringAt(m, o, s)
    decreases |m| - o
  {
    if o < |m| && m[o] != 0 && s != [] {
      var t := s[1..];
      CStrMeaning(m, o + 1, t);
      assert s == [s[0]] + t;
      if StringAt(m, o, s) {
        assert m[o + 0] == s[0];
        assert forall i :: 0 <= i < |t| ==> t[i] == s[i + 1] && m[o + 1 + i] == m[o + (i + 1)];
      }
      if StringAt(m, o + 1, t) && s[0] == m[o] {
        assert forall i :: 0 < i < |s| ==> s[i] == t[i - 1] && m[o + 1 + (i - 1)] == m[o + i];
      }
    } else if o < |m| && m[o] != 0 {
      assert m[o + |s|] == m[o];
    } else if o < |m| && s != [] {
      assert m[o + 0] == 0;
    }
  }

  /** A buffer that holds the same string at o yields the same C string. */
  lemma CStrFrame(m: seq<byte>, f: seq<byte>, o: nat, s: seq<byte>)
    requires o <= |m| && CStr(m, o) == Some(s)
    requires Agree(m, f, o, o + |s| + 1)
    ensures CStr(f, o) == Some(s)
  {
    CStrMeaning(m, o, s);
    CStrMeaning(f, o, s);
  }
}
