/** The reversible byte scrambler that wraps every frame: an 8-bit checksum in
    the last byte, XOR of byte 0 with a fixed key, a forward XOR chain, and a
    final whitening of every byte. */
module Obfuscation {
  import opened Wire

  /** XORed into byte 0 before the chain runs. */
  const SyncKey: Byte := 202
  /** XORed into every byte as the last encoding step. */
  const Whitening: Byte := 105

  // ---------------------------------------------------------------------------
  // Checksum
  // ---------------------------------------------------------------------------

  /** The plain integer sum of the bytes, the reference the checksum is measured against. */
  function Sum(d: seq<Byte>): int
  {
    if |d| == 0 then 0 else Sum(d[..|d| - 1]) + d[|d| - 1] as int
  }

  /** The running checksum `(cksum + i) & 255`, kept as an integer as the
      source keeps it. */
  function Cksum(d: seq<Byte>): (c: int)
    ensures 0 <= c < 256
  {
    if |d| == 0 then 0 else (Cksum(d[..|d| - 1]) + d[|d| - 1] as int) % 256
  }

  /** The 8-bit running sum is the integer sum reduced modulo 256. */
  lemma {:induction false} CksumIsSumMod256(d: seq<Byte>)
    ensures Cksum(d) == Sum(d) % 256
    decreases |d|
  {
    if |d| > 0 {
      CksumIsSumMod256(d[..|d| - 1]);
    }
  }

  /** The checksum loop as the source writes it, accumulating left to right. */
  method Checksum(data: seq<Byte>) returns (c: int)
    ensures c == Cksum(data)
    ensures c == Sum(data) % 256
  {
    c := 0;
    var i := 0;
    while i < |data|
      invariant 0 <= i <= |data|
      invariant c == Cksum(data[..i])
    {
      assert data[..i + 1][..i] == data[..i];
      c := (c + data[i] as int) % 256;
      i := i + 1;
    }
    assert data[..|data|] == data;
    CksumIsSumMod256(data);
  }


  /** The bytes the checksum covers: all but the first and the last
      (Python's `data[1:-1]`, which is empty for buffers of length 1 and 2). */
  function Interior(d: seq<Byte>): (m: seq<Byte>)
    ensures |d| < 2 ==> m == []
    ensures |d| >= 2 ==> |m| == |d| - 2 && forall i :: 0 <= i < |m| ==> m[i] == d[i + 1]
  {
    if |d| < 2 then [] else d[1..|d| - 1]
  }

  /** A frame is sealed when its last byte is the checksum of its interior. */
  predicate ChecksumHolds(p: seq<Byte>)
  {
    |p| > 0 && Cksum(Interior(p)) == p[|p| - 1] as int
  }

  /** The first encoding step: overwrite the last byte with the checksum. */
  function Seal(d: seq<Byte>): (p: seq<Byte>)
    requires |d| > 0
    ensures |p| == |d|
    ensures ChecksumHolds(p)
    ensures p[..|p| - 1] == d[..|d| - 1]
  {
    var p := d[..|d| - 1] + [Cksum(Interior(d)) as Byte];
    assert Interior(p) == Interior(d);
    p
  }

  /** Sealing a frame whose checksum already holds changes nothing, so
      sealing twice is sealing once. */
  lemma SealIdempotent(p: seq<Byte>)
    requires ChecksumHolds(p)
    ensures Seal(p) == p
  {
    var n := |p|;
    var q := Seal(p);
    assert q[n - 1] == p[n - 1];
    assert q == q[..n - 1] + [q[n - 1]];
    assert p == p[..n - 1] + [p[n - 1]];
  }

  // ---------------------------------------------------------------------------
  // The three reversible layers
  // ---------------------------------------------------------------------------

  /** XOR every byte with the whitening constant. */
  function Whiten(d: seq<Byte>): (r: seq<Byte>)
    ensures |r| == |d|
  {
    seq(|d|, i requires 0 <= i < |d| => Xor(d[i], Whitening))
  }

  /** What byte `i` of a chain is XORed with: the seed for the first byte,
      otherwise the byte before it. */
  function Prev(c: seq<Byte>, seed: Byte, i: nat): Byte
    requires i < |c|
  {
    if i == 0 then seed else c[i - 1]
  }

  /** Forward chain: each output byte is the input byte XOR the previous OUTPUT
      byte, the first one XOR the seed. */
  function Chain(p: seq<Byte>, seed: Byte): (c: seq<Byte>)
    ensures |c| == |p|
    decreases |p|
  {
    if |p| == 0 then []
    else
      var c := Chain(p[..|p| - 1], seed);
      c + [Xor(p[|p| - 1], if |c| == 0 then seed else c[|c| - 1])]
  }

  /** Element `i` of the chain is plaintext byte `i` XOR the previous output byte. */
  lemma {:induction false} ChainAt(p: seq<Byte>, seed: Byte, i: nat)
    requires i < |p|
    ensures Chain(p, seed)[i] == Xor(p[i], Prev(Chain(p, seed), seed, i))
    decreases |p|
  {
    var n := |p|;
    if i < n - 1 {
      var init := p[..n - 1];
      ChainAt(init, seed, i);
      assert Chain(p, seed)[..n - 1] == Chain(init, seed);
    }
  }

  /** Undo the chain: each byte XOR the previous CIPHERTEXT byte, the first one
      XOR the seed. */
  function Unchain(c: seq<Byte>, seed: Byte): (p: seq<Byte>)
    ensures |p| == |c|
  {
    seq(|c|, i requires 0 <= i < |c| => Xor(c[i], Prev(c, seed, i)))
  }

  lemma WhitenInvolution(d: seq<Byte>)
    ensures Whiten(Whiten(d)) == d
  {
    forall i | 0 <= i < |d|
      ensures Whiten(Whiten(d))[i] == d[i]
    {
      XorCancel(d[i], Whitening);
    }
  }

  lemma UnchainOfChain(p: seq<Byte>, seed: Byte)
    ensures Unchain(Chain(p, seed), seed) == p
  {
    var c := Chain(p, seed);
    forall i | 0 <= i < |p|
      ensures Unchain(c, seed)[i] == p[i]
    {
      ChainAt(p, seed, i);
      XorCancel(p[i], Prev(c, seed, i));
    }
  }

  lemma UnchainPrefix(c: seq<Byte>, seed: Byte)
    requires |c| > 0
    ensures Unchain(c, seed)[..|c| - 1] == Unchain(c[..|c| - 1], seed)
  {
  }

  /** Extending the plaintext by one byte extends the chain by that byte XOR
      the last chained byte. */
  lemma ChainSnoc(q: seq<Byte>, seed: Byte, init: seq<Byte>, x: Byte)
    requires |q| > 0
    requires Chain(q[..|q| - 1], seed) == init
    requires q[|q| - 1] == Xor(x, if |q| == 1 then seed else init[|q| - 2])
    ensures Chain(q, seed) == init + [x]
  {
    XorCancel(x, if |q| == 1 then seed else init[|q| - 2]);
  }

  /** Chaining a de-chained buffer gives it back: the chain is a bijection. */
  lemma {:induction false} ChainOfUnchain(c: seq<Byte>, seed: Byte)
    ensures Chain(Unchain(c, seed), seed) == c
    decreases |c|
  {
    if |c| > 0 {
      var n := |c|;
      var q := Unchain(c, seed);
      var init := c[..n - 1];
      UnchainPrefix(c, seed);
      ChainOfUnchain(init, seed);
      ChainSnoc(q, seed, init, c[n - 1]);
      assert init + [c[n - 1]] == c;
    }
  }

  // ---------------------------------------------------------------------------
  // Encode and decode
  // ---------------------------------------------------------------------------

  /** `_encode`: seal, chain with the sync key, whiten. An empty buffer has no
      last byte to seal and raises. */
  function Obfuscate(d: seq<Byte>): (r: Result<seq<Byte>>)
    ensures r.Err? <==> |d| == 0
    ensures r.Err? ==> r.error == EmptyFrame
    ensures r.Ok? ==> |r.value| == |d|
  {
    if |d| == 0 then Err(EmptyFrame)
    else Ok(Whiten(Chain(Seal(d), SyncKey)))
  }

  /** `_decode`: un-whiten, un-chain, and accept only a sealed frame. */
  function Deobfuscate(w: seq<Byte>): (r: Result<seq<Byte>>)
    ensures |w| == 0 ==> r == Err(EmptyFrame)
    ensures |w| > 0 && r.Err? ==> r.error == BadChecksum
    ensures r.Ok? ==> |r.value| == |w| && ChecksumHolds(r.value)
  {
    if |w| == 0 then Err(EmptyFrame)
    else
      var p := Unchain(Whiten(w), SyncKey);
      if Cksum(Interior(p)) != p[|p| - 1] as int then Err(BadChecksum) else Ok(p)
  }

  /** Decoding an encoded buffer succeeds and yields the input with its last
      byte replaced by the checksum of its interior. */
  lemma DeobfuscateObfuscate(d: seq<Byte>)
    requires |d| > 0
    ensures Obfuscate(d).Ok?
    ensures Deobfuscate(Obfuscate(d).value) == Ok(Seal(d))
    ensures Seal(d)[|d| - 1] as int == Cksum(Interior(d))
  {
    var c := Chain(Seal(d), SyncKey);
    WhitenInvolution(c);
    UnchainOfChain(Seal(d), SyncKey);
  }

  /** Every buffer that decodes is the encoding of what it decodes to, so a
      decoded frame determines its wire bytes. */
  lemma ObfuscateDeobfuscate(w: seq<Byte>)
    requires Deobfuscate(w).Ok?
    ensures Obfuscate(Deobfuscate(w).value) == Ok(w)
  {
    SealIdempotent(Deobfuscate(w).value);
    ChainOfUnchain(Whiten(w), SyncKey);
    WhitenInvolution(w);
  }

  lemma XorMaskCommutes(a: Byte, mask: Byte, b: Byte)
    ensures Xor(Xor(Xor(a, mask), Whitening), b) == Xor(Xor(Xor(a, Whitening), b), mask)
  {
    XorAssoc(Xor(a, mask), Whitening, b);
    XorAssoc(a, mask, Xor(Whitening, b));
    XorComm(mask, Xor(Whitening, b));
    XorAssoc(a, Xor(Whitening, b), mask);
    XorAssoc(a, Whitening, b);
  }

  lemma XorMaskInner(a: Byte, mask: Byte, b: Byte)
    ensures Xor(b, Xor(Xor(a, mask), Whitening)) == Xor(Xor(b, Xor(a, Whitening)), mask)
  {
    XorAssoc(a, mask, Whitening);
    XorComm(mask, Whitening);
    XorAssoc(a, Whitening, mask);
    XorAssoc(b, Xor(a, Whitening), mask);
  }

  lemma WhitenUpdate(w: seq<Byte>, j: nat, x: Byte)
    requires j < |w|
    ensures Whiten(w[j := x]) == Whiten(w)[j := Xor(x, Whitening)]
  {
  }

  /** Changing one de-whitened byte changes exactly the two plaintext bytes
      that read it. */
  lemma UnchainUpdate(u: seq<Byte>, j: nat, y: Byte)
    requires j < |u|
    ensures var p, p' := Unchain(u, SyncKey), Unchain(u[j := y], SyncKey);
            p' == if j + 1 < |u| then p[j := Xor(y, Prev(u, SyncKey, j))][j + 1 := Xor(u[j + 1], y)]
                  else p[j := Xor(y, Prev(u, SyncKey, j))]
  {
  }

  /** XORing a mask into wire byte `j` XORs the same mask into plaintext byte
      `j` and, when there is one, plaintext byte `j + 1`; every other plaintext
      byte is unchanged. */
  lemma WireMaskSpreads(w: seq<Byte>, j: nat, mask: Byte)
    requires j < |w|
    ensures var p, p' := Unchain(Whiten(w), SyncKey), Unchain(Whiten(w[j := Xor(w[j], mask)]), SyncKey);
            p' == if j + 1 < |w| then p[j := Xor(p[j], mask)][j + 1 := Xor(p[j + 1], mask)]
                  else p[j := Xor(p[j], mask)]
  {
    var u := Whiten(w);
    var y := Xor(Xor(w[j], mask), Whitening);
    WhitenUpdate(w, j, Xor(w[j], mask));
    UnchainUpdate(u, j, y);
    XorMaskCommutes(w[j], mask, Prev(u, SyncKey, j));
    if j + 1 < |w| {
      XorMaskInner(w[j], mask, u[j + 1]);
    }
  }

  /** Changing any bits of the last wire byte of a valid buffer is always caught
      by the checksum. */
  lemma LastByteTamperDetected(w: seq<Byte>, mask: Byte)
    requires Deobfuscate(w).Ok?
    requires mask != 0
    ensures Deobfuscate(w[|w| - 1 := Xor(w[|w| - 1], mask)]) == Err(BadChecksum)
  {
    var n := |w|;
    var p := Unchain(Whiten(w), SyncKey);
    WireMaskSpreads(w, n - 1, mask);
    InteriorIgnoresLast(p, Xor(p[n - 1], mask));
    XorNonZero(p[n - 1], mask);
  }

  lemma InteriorIgnoresLast(p: seq<Byte>, x: Byte)
    requires |p| > 0
    ensures Interior(p[|p| - 1 := x]) == Interior(p)
  {
  }

  /** A single flipped bit inside the frame can escape the checksum: flipping
      bit 0 of wire byte 1 flips bit 0 of plaintext bytes 1 and 2, and when one
      goes up by one while the other goes down by one the sum is unchanged. */
  lemma InteriorBitFlipMayEscape()
    ensures Obfuscate([0x11, 0, 1, 0]).Ok?
    ensures var w := Obfuscate([0x11, 0, 1, 0]).value;
            Deobfuscate(w[1 := Xor(w[1], 1)]) == Ok([0x11, 1, 0, 1])
  {
    var s: seq<Byte> := [0x11, 0, 1, 0];
    assert Interior(s) == [0, 1];
    assert Cksum([0, 1]) == 1 by {
      assert [0 as Byte, 1][..1] == [0 as Byte];
    }
    assert Seal(s) == [0x11, 0, 1, 1];
    DeobfuscateObfuscate(s);
    var w := Obfuscate(s).value;
    FlipSpreads(w);
    var p' := Unchain(Whiten(w[1 := Xor(w[1], 1)]), SyncKey);
    assert Interior(p') == [1, 0];
    assert Cksum([1, 0]) == 1 by {
      assert [1 as Byte, 0][..1] == [1 as Byte];
    }
  }

  /** The plaintext effect of flipping bit 0 of wire byte 1 of the sample. */
  lemma FlipSpreads(w: seq<Byte>)
    requires Unchain(Whiten(w), SyncKey) == [0x11, 0, 1, 1]
    ensures Unchain(Whiten(w[1 := Xor(w[1], 1)]), SyncKey) == [0x11, 1, 0, 1]
  {
    var p: seq<Byte> := [0x11, 0, 1, 1];
    WireMaskSpreads(w, 1, 1);
    XorUnits(1);
    assert Xor(p[1], 1) == 1 && Xor(p[2], 1) == 0;
    assert p[1 := Xor(p[1], 1)][2 := Xor(p[2], 1)] == [0x11, 1, 0, 1];
  }

  /** One-byte buffers are accepted: sealing a single byte overwrites it with
      the checksum of an empty interior, 0, and its one-byte encoding decodes. */
  lemma OneByteFramesDecode(x: Byte)
    ensures Obfuscate([x]).Ok? && |Obfuscate([x]).value| == 1
    ensures Deobfuscate(Obfuscate([x]).value) == Ok([0])
  {
    DeobfuscateObfuscate([x]);
    assert Interior([x]) == [];
  }

  // ---------------------------------------------------------------------------
  // The source's in-place loops
  // ---------------------------------------------------------------------------

  /** The whitening loop shared by `_encode` and `_decode`. */
  method WhitenInPlace(data: seq<Byte>) returns (buf: seq<Byte>)
    ensures buf == Whiten(data)
  {
    buf := data;
    var x := 0;
    while x < |buf|
      invariant 0 <= x <= |buf| == |data|
      invariant forall i :: 0 <= i < x ==> buf[i] == Xor(data[i], Whitening)
      invariant forall i :: x <= i < |buf| ==> buf[i] == data[i]
    {
      buf := buf[x := Xor(buf[x], Whitening)];
      x := x + 1;
    }
  }

  /** The forward loop of `_encode`: XOR byte 0 with the key, then each byte
      with the byte before it, already updated. */
  method ChainInPlace(sealed: seq<Byte>) returns (buf: seq<Byte>)
    requires |sealed| > 0
    ensures buf == Chain(sealed, SyncKey)
  {
    ghost var chained := Chain(sealed, SyncKey);
    buf := sealed[0 := Xor(sealed[0], SyncKey)];
    ChainAt(sealed, SyncKey, 0);
    var x := 1;
    while x < |buf|
      invariant 1 <= x <= |buf| == |sealed|
      invariant forall i :: 0 <= i < x ==> buf[i] == chained[i]
      invariant forall i :: x <= i < |buf| ==> buf[i] == sealed[i]
    {
      ChainAt(sealed, SyncKey, x);
      buf := buf[x := Xor(buf[x], buf[x - 1])];
      x := x + 1;
    }
  }

  /** The backward loop of `_decode`: from the last index down to 1, XOR each
      byte with the byte before it, which is still a ciphertext byte when read;
      then XOR byte 0 with the key. */
  method UnchainInPlace(u: seq<Byte>) returns (buf: seq<Byte>)
    requires |u| > 0
    ensures buf == Unchain(u, SyncKey)
  {
    buf := u;
    var x := |buf| - 1;
    while x > 0
      invariant 0 <= x < |buf| == |u|
      invariant forall i :: 0 <= i <= x ==> buf[i] == u[i]
      invariant forall i :: x < i < |buf| ==> buf[i] == Xor(u[i], u[i - 1])
    {
      buf := buf[x := Xor(buf[x], buf[x - 1])];
      x := x - 1;
    }
    buf := buf[0 := Xor(buf[0], SyncKey)];
  }

  /** `_encode` as the source writes it. */
  method EncodeBuffer(data: seq<Byte>) returns (r: Result<seq<Byte>>)
    ensures r == Obfuscate(data)
  {
    if |data| == 0 {
      return Err(EmptyFrame);
    }
    var ck := Checksum(Interior(data));
    var sealed := data[|data| - 1 := ck as Byte];
    assert sealed == Seal(data);
    var chained := ChainInPlace(sealed);
    var buf := WhitenInPlace(chained);
    return Ok(buf);
  }

  /** `_decode` as the source writes it. */
  method DecodeBuffer(data: seq<Byte>) returns (r: Result<seq<Byte>>)
    ensures r == Deobfuscate(data)
  {
    if |data| == 0 {
      return Err(EmptyFrame);
    }
    var u := WhitenInPlace(data);
    var buf := UnchainInPlace(u);
    var ck := Checksum(Interior(buf));
    if ck != buf[|buf| - 1] as int {
      return Err(BadChecksum);
    }
    return Ok(buf);
  }
}
