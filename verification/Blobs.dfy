/** Blobs: padding, CBC encryption and their inverses (stream/blob.go). */
module Blobs {
  import opened Bits
  import opened Results

  type Bytes = seq<Byte>

  const MAX_BLOB_SIZE := 2097152
  /** One byte less, since there is always at least one byte of padding. */
  const MAX_BLOB_DATA_SIZE := MAX_BLOB_SIZE - 1
  const BLOCK := 16

  datatype Error =
    | EmptyPlaintext | BadKey | BadIv | BadBlockLength | BadDataLength | BadPadding
    | TooBig | EmptyBlob
    | SliceOutOfRange | NotFullBlocks | EmptyIv | IndexOutOfRange
    | Eof | ReadFailed | TooShort | BadSdBlob | BadStreamHash | NotTerminated
    | BlobCountMismatch | EarlyTerminator | OutOfOrder | HashMismatch

  /** AES with a key, as a permutation of blocks and its inverse. */
  datatype Cipher = Cipher(enc: (Bytes, Bytes) -> Bytes, dec: (Bytes, Bytes) -> Bytes)

  ghost predicate Lawful(c: Cipher) {
    forall key, block :: |block| == BLOCK ==> |c.enc(key, block)| == BLOCK && c.dec(key, c.enc(key, block)) == block
  }

  // ---------------------------------------------------------------------------
  // PKCS#7 padding
  // ---------------------------------------------------------------------------

  /** Bytes missing to the next whole block, a full block if none is. */
  function PadLength(n: nat, blockLen: nat): (k: nat)
    requires blockLen >= 1
    ensures 1 <= k <= blockLen && (n + k) % blockLen == 0
  {
    var q, r := n / blockLen, n % blockLen;
    assert n + (blockLen - r) == blockLen * (q + 1) + 0;
    DivModUnique(n + (blockLen - r), blockLen, q + 1, 0);
    blockLen - r
  }

  /** `pkcs7Pad`; the pad length is stored in a byte, so it is truncated to eight bits. */
  function Pad(data: Bytes, blockLen: int): Result<Bytes, Error> {
    if blockLen < 1 then Err(BadBlockLength)
    else
      var k := PadLength(|data|, blockLen);
      Ok(data + seq(k, _ => k % 256))
  }

  /** `pkcs7Unpad`; a pad length beyond the data is a slice out of range. */
  function Unpad(data: Bytes, blockLen: int): Result<Bytes, Error> {
    if blockLen < 1 then Err(BadBlockLength)
    else if |data| % blockLen != 0 || |data| == 0 then Err(BadDataLength)
    else
      var k := data[|data| - 1];
      if k > |data| then Err(SliceOutOfRange)
      else if exists i :: |data| - k <= i < |data| && data[i] != k then Err(BadPadding)
      else Ok(data[..|data| - k])
  }

  /** `pkcs7Unpad` as the loop it is. */
  method Pkcs7Unpad(data: Bytes, blockLen: int) returns (r: Result<Bytes, Error>)
    ensures r == Unpad(data, blockLen)
  {
    if blockLen < 1 { return Err(BadBlockLength); }
    if |data| % blockLen != 0 || |data| == 0 { return Err(BadDataLength); }
    var padLen := data[|data| - 1];
    if padLen > |data| { return Err(SliceOutOfRange); }
    for i := |data| - padLen to |data|
      invariant forall k :: |data| - padLen <= k < i ==> data[k] == padLen
    {
      if data[i] != padLen { return Err(BadPadding); }
    }
    return Ok(data[..|data| - padLen]);
  }

  /** Unpadding undoes padding exactly when the pad length fits its byte. */
  lemma UnpadPad(data: Bytes, blockLen: int)
    requires blockLen >= 1
    ensures Pad(data, blockLen).Ok?
    ensures Unpad(Pad(data, blockLen).value, blockLen) == Ok(data) <==> PadLength(|data|, blockLen) < 256
  {
    var k := PadLength(|data|, blockLen);
    var padded := Pad(data, blockLen).value;
    assert padded[|padded| - 1] == k % 256;
    if k < 256 {
      assert padded[..|padded| - k] == data;
    } else {
      assert |padded[..|padded| - k % 256]| != |data|;
    }
  }

  /** Exactly what is unpadded: whole blocks that end in k bytes with value k; k may also be zero. */
  lemma UnpadIff(data: Bytes, blockLen: int, r: Bytes)
    requires blockLen >= 1
    ensures Unpad(data, blockLen) == Ok(r) <==>
            && data != [] && |data| % blockLen == 0
            && data == r + seq(data[|data| - 1], _ => data[|data| - 1])
  {
    if data != [] && |data| % blockLen == 0 {
      var k := data[|data| - 1];
      var tail: Bytes := seq(k, _ => k);
      if k <= |data| && data == data[..|data| - k] + tail {
        forall i | |data| - k <= i < |data| ensures data[i] == k { assert data[i] == tail[i - (|data| - k)]; }
      }
      if data == r + tail {
        assert |data| == |r| + k && r == data[..|r|];
        forall i | |r| <= i < |data| ensures data[i] == k { assert data[i] == tail[i - |r|]; }
      }
      if Unpad(data, blockLen) == Ok(r) { assert data[|data| - k..] == tail; }
    }
  }

  /** Up to the next whole block, at least one byte and each holding their number. */
  lemma PadIs(data: Bytes, blockLen: int)
    requires 1 <= blockLen < 256
    ensures Pad(data, blockLen).Ok?
    ensures var padded := Pad(data, blockLen).value;
            var k := |padded| - |data|;
            && 1 <= k <= blockLen && |padded| % blockLen == 0 && padded[..|data|] == data
            && forall i :: |data| <= i < |padded| ==> padded[i] == k
  {
  }

  // ---------------------------------------------------------------------------
  // Cipher block chaining
  // ---------------------------------------------------------------------------

  function CbcEncrypt(c: Cipher, key: Bytes, iv: Bytes, data: Bytes): Bytes
    requires |data| % BLOCK == 0
    decreases |data|
  {
    if |data| == 0 then []
    else
      var block := c.enc(key, XorBlocks(data[..BLOCK], iv));
      block + CbcEncrypt(c, key, block, data[BLOCK..])
  }

  function CbcDecrypt(c: Cipher, key: Bytes, iv: Bytes, data: Bytes): Bytes
    requires |data| % BLOCK == 0
    decreases |data|
  {
    if |data| == 0 then []
    else XorBlocks(c.dec(key, data[..BLOCK]), iv) + CbcDecrypt(c, key, data[..BLOCK], data[BLOCK..])
  }

  /** Exclusive or of two blocks, as far as both go. */
  function XorBlocks(a: Bytes, b: Bytes): (r: Bytes)
    ensures |a| == |b| ==> |r| == |a|
  {
    var n := if |a| < |b| then |a| else |b|;
    XorBytes(a[..n], b[..n])
  }

  lemma XorBlocksCancel(a: Bytes, b: Bytes)
    requires |a| == |b|
    ensures XorBlocks(XorBlocks(a, b), b) == a
  {
    var r := XorBlocks(XorBlocks(a, b), b);
    forall i | 0 <= i < |a| ensures r[i] == a[i] { XorByteLaws(a[i], b[i]); }
  }

  lemma {:induction false} CbcRoundTrip(c: Cipher, key: Bytes, iv: Bytes, data: Bytes)
    requires Lawful(c) && |data| % BLOCK == 0 && |iv| == BLOCK
    ensures var ct := CbcEncrypt(c, key, iv, data); |ct| == |data| && CbcDecrypt(c, key, iv, ct) == data
    decreases |data|
  {
    if |data| > 0 {
      var x := XorBlocks(data[..BLOCK], iv);
      var block := c.enc(key, x);
      assert |x| == BLOCK;
      assert |block| == BLOCK && c.dec(key, block) == x;
      CbcRoundTrip(c, key, block, data[BLOCK..]);
      var rest := CbcEncrypt(c, key, block, data[BLOCK..]);
      assert (block + rest)[..BLOCK] == block && (block + rest)[BLOCK..] == rest;
      XorBlocksCancel(data[..BLOCK], iv);
      assert data == data[..BLOCK] + data[BLOCK..];
    }
  }

  /** The block at offset o is enciphered after being combined with the one before it, or with the IV. */
  predicate ChainedAt(c: Cipher, key: Bytes, iv: Bytes, data: Bytes, ct: Bytes, o: nat)
    requires o + BLOCK <= |data| == |ct| && |iv| == BLOCK
  {
    var block := c.dec(key, ct[o..o + BLOCK]);
    var before := if o < BLOCK then iv else ct[o - BLOCK..o];
    |block| == BLOCK && forall j :: 0 <= j < BLOCK ==> block[j] == XorByte(data[o + j], before[j])
  }

  /** Every block is chained to its predecessor, the first one to the IV. */
  lemma {:induction false} CbcChains(c: Cipher, key: Bytes, iv: Bytes, data: Bytes, o: nat)
    requires Lawful(c) && |data| % BLOCK == 0 && |iv| == BLOCK && o % BLOCK == 0 && o < |data|
    ensures var ct := CbcEncrypt(c, key, iv, data);
            |ct| == |data| && o + BLOCK <= |data| && ChainedAt(c, key, iv, data, ct, o)
    decreases |data|
  {
    CbcRoundTrip(c, key, iv, data);
    if o == 0 {
      FirstBlock(c, key, iv, data);
    } else {
      var block := c.enc(key, XorBlocks(data[..BLOCK], iv));
      CbcChains(c, key, block, data[BLOCK..], o - BLOCK);
      LaterBlock(c, key, iv, data, block, CbcEncrypt(c, key, block, data[BLOCK..]), o);
    }
  }

  lemma FirstBlock(c: Cipher, key: Bytes, iv: Bytes, data: Bytes)
    requires Lawful(c) && |data| % BLOCK == 0 && |iv| == BLOCK && data != []
    requires |CbcEncrypt(c, key, iv, data)| == |data|
    ensures ChainedAt(c, key, iv, data, CbcEncrypt(c, key, iv, data), 0)
  {
    var x := XorBlocks(data[..BLOCK], iv);
    assert |x| == BLOCK && c.dec(key, c.enc(key, x)) == x;
    assert CbcEncrypt(c, key, iv, data)[0..BLOCK] == c.enc(key, x);
  }

  lemma LaterBlock(c: Cipher, key: Bytes, iv: Bytes, data: Bytes, block: Bytes, rest: Bytes, o: nat)
    requires BLOCK <= o && o + BLOCK <= |data| && |block| == BLOCK == |iv| && |rest| == |data| - BLOCK
    requires o % BLOCK == 0 && ChainedAt(c, key, block, data[BLOCK..], rest, o - BLOCK)
    ensures ChainedAt(c, key, iv, data, block + rest, o)
  {
    var ct := block + rest;
    assert ct[o..o + BLOCK] == rest[o - BLOCK..o];
    assert ct[o - BLOCK..o] == if o == BLOCK then block else rest[o - 2 * BLOCK..o - BLOCK];
  }

  // ---------------------------------------------------------------------------
  // Blobs
  // ---------------------------------------------------------------------------

  predicate KeyOK(key: Bytes) { |key| == 16 || |key| == 24 || |key| == 32 }

  /** `NewBlob` */
  function NewBlob(c: Cipher, data: Bytes, key: Bytes, iv: Bytes): Result<Bytes, Error> {
    if |data| == 0 then Err(EmptyPlaintext)
    else if !KeyOK(key) then Err(BadKey)
    else if |iv| != BLOCK then Err(BadIv)
    else
      Ok(CbcEncrypt(c, key, iv, Pad(data, BLOCK).value))
  }

  /** `Plaintext`; the CBC decrypter panics on input that is not whole blocks. */
  function Plaintext(c: Cipher, blob: Bytes, key: Bytes, iv: Bytes): Result<Bytes, Error> {
    if !KeyOK(key) then Err(BadKey)
    else if |iv| != BLOCK then Err(BadIv)
    else if |blob| % BLOCK != 0 then Err(NotFullBlocks)
    else Unpad(CbcDecrypt(c, key, iv, blob), BLOCK)
  }

  /** `ValidForSend` */
  function ValidForSend(blob: Bytes): Result<(), Error> {
    if |blob| > MAX_BLOB_SIZE then Err(TooBig) else if |blob| == 0 then Err(EmptyBlob) else Ok(())
  }

  /** Decrypting a new blob returns its data, and the blob is a positive number of whole blocks, fit to send. */
  lemma BlobRoundTrip(c: Cipher, data: Bytes, key: Bytes, iv: Bytes)
    requires Lawful(c) && 0 < |data| && KeyOK(key) && |iv| == BLOCK
    ensures var b := NewBlob(c, data, key, iv);
            && b.Ok? && Plaintext(c, b.value, key, iv) == Ok(data)
            && |b.value| % BLOCK == 0 && |data| < |b.value| <= |data| + BLOCK
            && (ValidForSend(b.value).Ok? <==> |data| < 0x20_0000)
  {
    UnpadPad(data, BLOCK);
    CbcRoundTrip(c, key, iv, Pad(data, BLOCK).value);
  }

  /** Exactly when a blob can be made, and that it is the padded data in chained blocks. */
  lemma NewBlobIs(c: Cipher, data: Bytes, key: Bytes, iv: Bytes)
    requires Lawful(c)
    ensures NewBlob(c, data, key, iv).Ok? <==> data != [] && |key| in {16, 24, 32} && |iv| == 16
    ensures NewBlob(c, data, key, iv).Ok? ==>
              var padded, blob := Pad(data, 16).value, NewBlob(c, data, key, iv).value;
              |blob| == |padded| && forall o :: 0 <= o && o + 16 <= |blob| && o % 16 == 0 ==>
                                      ChainedAt(c, key, iv, padded, blob, o)
  {
    if NewBlob(c, data, key, iv).Ok? {
      var padded, blob := Pad(data, 16).value, NewBlob(c, data, key, iv).value;
      CbcRoundTrip(c, key, iv, padded);
      forall o | 0 <= o && o + 16 <= |blob| && o % 16 == 0 ensures ChainedAt(c, key, iv, padded, blob, o) {
        CbcChains(c, key, iv, padded, o);
      }
    }
  }
}
