/** The flush callback that hands a rendered region to the e-ink panel
    (`my_disp_flush`): the renderer's 1-bit buffer starts with an 8-byte
    header, and the panel wants every payload byte complemented. */
module Frame {

  /** Bytes the renderer puts in front of the packed pixels. */
  const HeaderSize: nat := 8

  /** 2^32: `w`, `h` and `w * h / 8` are `uint32_t` in the source. */
  const Uint32Modulus: nat := 0x1_0000_0000

  /** Size of the output buffer, `w * h / 8` computed in 32-bit unsigned
      arithmetic (the product wraps before the division). */
  function FrameSize(w: nat, h: nat): (n: nat)
    requires w < Uint32Modulus && h < Uint32Modulus
    ensures n < Uint32Modulus / 8
    ensures w * h < Uint32Modulus ==> n == w * h / 8
  {
    (w * h) % Uint32Modulus / 8
  }

  /** Bitwise complement of every byte of `s`. */
  function ComplementAll(s: seq<bv8>): (r: seq<bv8>)
  {
    seq(|s|, i requires 0 <= i < |s| => !s[i])
  }

  /** What the panel is given: the `n` bytes after the header, complemented. */
  function Inverted(src: seq<bv8>, n: nat): seq<bv8>
    requires HeaderSize + n <= |src|
  {
    ComplementAll(src[HeaderSize..HeaderSize + n])
  }

  /** The inversion loop of the flush callback: a fresh buffer of
      `FrameSize(w, h)` bytes, byte `i` being the complement of source byte
      `i + 8`.  The source buffer must reach past the header by that many
      bytes; it is only read. */
  method InvertPixelMap(w: nat, h: nat, pxMap: array<bv8>) returns (inv: array<bv8>)
    requires w < Uint32Modulus && h < Uint32Modulus
    requires HeaderSize + FrameSize(w, h) <= pxMap.Length
    ensures fresh(inv)
    ensures inv.Length == FrameSize(w, h)
    ensures forall i :: 0 <= i < inv.Length ==> inv[i] == !pxMap[i + HeaderSize]
    ensures inv[..] == Inverted(pxMap[..], FrameSize(w, h))
  {
    var size := FrameSize(w, h);
    inv := new bv8[size];
    var i := 0;
    while i < size
      invariant 0 <= i <= size
      invariant forall k :: 0 <= k < i ==> inv[k] == !pxMap[k + HeaderSize]
    {
      inv[i] := !pxMap[i + HeaderSize];
      i := i + 1;
    }
  }

  /** Complementing twice gives back the original bytes. */
  lemma {:induction false} ComplementInvolution(s: seq<bv8>)
    ensures ComplementAll(ComplementAll(s)) == s
  {
    var r := ComplementAll(ComplementAll(s));
    assert |r| == |s|;
    forall i | 0 <= i < |s| ensures r[i] == s[i] {
      assert ComplementAll(s)[i] == !s[i];
    }
  }

  /** Complementing the panel buffer recovers the rendered payload bytes. */
  lemma InvertedRoundTrip(src: seq<bv8>, n: nat)
    requires HeaderSize + n <= |src|
    ensures |Inverted(src, n)| == n
    ensures ComplementAll(Inverted(src, n)) == src[HeaderSize..HeaderSize + n]
  {
    ComplementInvolution(src[HeaderSize..HeaderSize + n]);
  }

  /** A blank payload (all bits clear after the header) becomes an all-0xFF
      panel buffer, whatever the header holds. */
  lemma BlankPayloadInvertsToOnes(src: seq<bv8>, n: nat)
    requires HeaderSize + n <= |src|
    requires forall i :: HeaderSize <= i < HeaderSize + n ==> src[i] == 0
    ensures |Inverted(src, n)| == n
    ensures forall i :: 0 <= i < n ==> Inverted(src, n)[i] == 0xFF
  {
  }

  /** The panel buffer depends on the payload only: two sources that differ
      in the header alone give the same buffer. */
  lemma InvertedIgnoresHeader(src1: seq<bv8>, src2: seq<bv8>, n: nat)
    requires HeaderSize + n <= |src1| && HeaderSize + n <= |src2|
    requires src1[HeaderSize..HeaderSize + n] == src2[HeaderSize..HeaderSize + n]
    ensures Inverted(src1, n) == Inverted(src2, n)
  {
  }

  /** The full 250 x 122 panel gives a 3812-byte buffer (30500 pixels, the half byte dropped). */
  lemma FullPanelSize()
    ensures FrameSize(250, 122) == 3812
  {
  }
}
