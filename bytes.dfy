/** Bytes, Python slicing and the `bitstruct` unpack formats the decoder uses. */
module Bytes {
  import opened Common

  type byte = x: nat | x < 256

  function Pow256(n: nat): (r: nat)
    ensures r > 0
  {
    if n == 0 then 1 else 256 * Pow256(n - 1)
  }

  /** Unsigned big-endian value of a byte string (bitstruct's `u<8n>`). */
  function BE(s: seq<byte>): nat
  {
    if s == [] then 0 else BE(s[..|s| - 1]) * 256 + s[|s| - 1]
  }

  /** The `n`-byte big-endian encoding of `v` (reduced modulo 256^n). */
  function ToBE(v: nat, n: nat): (r: seq<byte>)
    ensures |r| == n
  {
    if n == 0 then [] else ToBE(v / 256, n - 1) + [(v % 256) as byte]
  }

  lemma {:induction false} BEBound(s: seq<byte>)
    ensures BE(s) < Pow256(|s|)
  {
    if s != [] {
      BEBound(s[..|s| - 1]);
      assert BE(s[..|s| - 1]) + 1 <= Pow256(|s| - 1);
    }
  }

  /** Reading back an encoded value gives the value, when it fits. */
  lemma {:induction false} BEToBE(v: nat, n: nat)
    requires v < Pow256(n)
    ensures BE(ToBE(v, n)) == v
  {
    if n > 0 {
      var s := ToBE(v, n);
      var q := v / 256;
      assert v == q * 256 + v % 256;
      assert Pow256(n) == Pow256(n - 1) * 256;
      assert q < Pow256(n - 1);
      assert s[..n - 1] == ToBE(q, n - 1);
      BEToBE(q, n - 1);
    }
  }

  /** Encoding a value read from `s` gives `s` back. */
  lemma {:induction false} ToBEBE(s: seq<byte>)
    ensures ToBE(BE(s), |s|) == s
  {
    if s != [] {
      var init := s[..|s| - 1];
      ToBEBE(init);
      assert BE(s) / 256 == BE(init);
      assert BE(s) % 256 == s[|s| - 1];
      assert s == init + [s[|s| - 1]];
    }
  }

  /** Python's `s[lo:hi]` for 0 <= lo <= hi: never fails, clips at the end. */
  function Slice(s: seq<byte>, lo: nat, hi: nat): (r: seq<byte>)
    requires lo <= hi
    ensures |r| == if hi <= |s| then hi - lo else if lo <= |s| then |s| - lo else 0
    ensures hi <= |s| ==> r == s[lo..hi]
  {
    if hi <= |s| then s[lo..hi] else if lo <= |s| then s[lo..] else []
  }

  // bitstruct.unpack raises unless the input holds at least as many bits as the
  // format; extra trailing bytes are ignored.

  /** `unpack(">u8u24", s)` */
  function UnpackU8U24(s: seq<byte>): (r: Option<(nat, nat)>)
    ensures r.Some? <==> |s| >= 4
  {
    if |s| < 4 then None else Some((s[0] as nat, BE(s[1..4])))
  }

  /** `unpack(">u16u16", s)` */
  function UnpackU16U16(s: seq<byte>): (r: Option<(nat, nat)>)
    ensures r.Some? <==> |s| >= 4
  {
    if |s| < 4 then None else Some((BE(s[..2]), BE(s[2..4])))
  }

  /** `unpack(">u32", s)[0]` */
  function UnpackU32(s: seq<byte>): (r: Option<nat>)
    ensures r.Some? <==> |s| >= 4
  {
    if |s| < 4 then None else Some(BE(s[..4]))
  }

  /** `unpack(">r32", s)[0]`: the raw bytes. */
  function UnpackR32(s: seq<byte>): (r: Option<seq<byte>>)
    ensures r.Some? <==> |s| >= 4
  {
    if |s| < 4 then None else Some(s[..4])
  }

  /** `unpack(">u8u56", s)` */
  function UnpackU8U56(s: seq<byte>): (r: Option<(nat, nat)>)
    ensures r.Some? <==> |s| >= 8
  {
    if |s| < 8 then None else Some((s[0] as nat, BE(s[1..8])))
  }

  /** `unpack(">u32u32", s)` */
  function UnpackU32U32(s: seq<byte>): (r: Option<(nat, nat)>)
    ensures r.Some? <==> |s| >= 8
  {
    if |s| < 8 then None else Some((BE(s[..4]), BE(s[4..8])))
  }

  /** `unpack(">r64", s)[0]`: the raw bytes. */
  function UnpackR64(s: seq<byte>): (r: Option<seq<byte>>)
    ensures r.Some? <==> |s| >= 8
  {
    if |s| < 8 then None else Some(s[..8])
  }

  /** The `u8u24` split is big-endian: re-encoding both parts gives the bytes read. */
  lemma UnpackU8U24BigEndian(s: seq<byte>)
    requires |s| >= 4
    ensures UnpackU8U24(s).value.0 < 256 && UnpackU8U24(s).value.1 < Pow256(3)
    ensures ToBE(UnpackU8U24(s).value.0, 1) + ToBE(UnpackU8U24(s).value.1, 3) == s[..4]
  {
    BEBound(s[1..4]); ToBEBE(s[..1]); ToBEBE(s[1..4]);
    assert s[..1] + s[1..4] == s[..4];
  }

  /** The `u16u16` split is big-endian. */
  lemma UnpackU16U16BigEndian(s: seq<byte>)
    requires |s| >= 4
    ensures ToBE(UnpackU16U16(s).value.0, 2) + ToBE(UnpackU16U16(s).value.1, 2) == s[..4]
  {
    ToBEBE(s[..2]); ToBEBE(s[2..4]);
    assert s[..2] + s[2..4] == s[..4];
  }

  /** The `u32u32` split is big-endian. */
  lemma UnpackU32U32BigEndian(s: seq<byte>)
    requires |s| >= 8
    ensures ToBE(UnpackU32U32(s).value.0, 4) + ToBE(UnpackU32U32(s).value.1, 4) == s[..8]
  {
    ToBEBE(s[..4]); ToBEBE(s[4..8]);
    assert s[..4] + s[4..8] == s[..8];
  }

  // Reading back what was packed: each format returns the values, given they fit.

  lemma UnpackU8U24Pack(a: nat, b: nat, rest: seq<byte>)
    requires a < 256 && b < Pow256(3)
    ensures UnpackU8U24(ToBE(a, 1) + ToBE(b, 3) + rest) == Some((a, b))
  {
    var s := ToBE(a, 1) + ToBE(b, 3) + rest;
    assert s[1..4] == ToBE(b, 3);
    BEToBE(b, 3);
  }

  lemma UnpackU16U16Pack(a: nat, b: nat, rest: seq<byte>)
    requires a < Pow256(2) && b < Pow256(2)
    ensures UnpackU16U16(ToBE(a, 2) + ToBE(b, 2) + rest) == Some((a, b))
  {
    var s := ToBE(a, 2) + ToBE(b, 2) + rest;
    assert s[..2] == ToBE(a, 2) && s[2..4] == ToBE(b, 2);
    BEToBE(a, 2); BEToBE(b, 2);
  }

  lemma UnpackU32Pack(a: nat, rest: seq<byte>)
    requires a < Pow256(4)
    ensures UnpackU32(ToBE(a, 4) + rest) == Some(a)
  {
    assert (ToBE(a, 4) + rest)[..4] == ToBE(a, 4);
    BEToBE(a, 4);
  }

  lemma UnpackR32Pack(a: seq<byte>, rest: seq<byte>)
    requires |a| == 4
    ensures UnpackR32(a + rest) == Some(a)
  {
    assert (a + rest)[..4] == a;
  }

  lemma UnpackU8U56Pack(a: nat, b: nat, rest: seq<byte>)
    requires a < 256 && b < Pow256(7)
    ensures UnpackU8U56(ToBE(a, 1) + ToBE(b, 7) + rest) == Some((a, b))
  {
    var s := ToBE(a, 1) + ToBE(b, 7) + rest;
    assert s[1..8] == ToBE(b, 7);
    BEToBE(b, 7);
  }

  lemma UnpackU32U32Pack(a: nat, b: nat, rest: seq<byte>)
    requires a < Pow256(4) && b < Pow256(4)
    ensures UnpackU32U32(ToBE(a, 4) + ToBE(b, 4) + rest) == Some((a, b))
  {
    var s := ToBE(a, 4) + ToBE(b, 4) + rest;
    assert s[..4] == ToBE(a, 4) && s[4..8] == ToBE(b, 4);
    BEToBE(a, 4); BEToBE(b, 4);
  }

  lemma UnpackR64Pack(a: seq<byte>, rest: seq<byte>)
    requires |a| == 8
    ensures UnpackR64(a + rest) == Some(a)
  {
    assert (a + rest)[..8] == a;
  }
}
