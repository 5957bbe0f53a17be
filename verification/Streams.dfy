/** Streams of blobs: descriptor, encoder and decoder as functions of values (stream/stream.go, stream/sdBlob.go). */
module Streams {
  import opened Results
  import opened Blobs

  const STREAM_TYPE := "lbryfile"

  datatype BlobInfo = BlobInfo(length: nat, blobNum: nat, blobHash: Bytes, iv: Bytes)

  datatype SDBlob = SDBlob(
    streamName: string, blobInfos: seq<BlobInfo>, streamType: string, key: Bytes,
    suggestedFileName: string, streamHash: Bytes)

  /**
    What the codec builds on: the cipher, SHA-384, the text forms that go into hashes, and the JSON codec of
    descriptors. random is the sequence of draws of the random source.
  */
  datatype Env = Env(
    cipher: Cipher, sha: Bytes -> Bytes, hex: Bytes -> Bytes, itoa: int -> Bytes, text: string -> Bytes,
    toJson: SDBlob -> Bytes, fromJson: Bytes -> Result<SDBlob, Error>, random: nat -> Bytes)

  /**
    The cipher is an inverse pair, and so is the JSON codec on the one stream type the encoder writes; random IVs are
    whole blocks.
  */
  ghost predicate Sane(env: Env) {
    && Lawful(env.cipher)
    && (forall sd: SDBlob :: sd.streamType == STREAM_TYPE ==> env.fromJson(env.toJson(sd)) == Ok(sd))
    && (forall k :: |env.random(k)| == BLOCK)
  }

  // ---------------------------------------------------------------------------
  // Descriptor
  // ---------------------------------------------------------------------------

  /** `Blob.Hash`: the empty blob has no hash. */
  function HashOf(env: Env, blob: Bytes): Bytes { if blob == [] then [] else env.sha(blob) }

  /** What the hash of a blob info covers. */
  function InfoText(env: Env, bi: BlobInfo): Bytes {
    (if bi.length > 0 then env.hex(bi.blobHash) else []) + env.itoa(bi.blobNum) + env.hex(bi.iv) + env.itoa(bi.length)
  }

  /** `BlobInfo.Hash` */
  function InfoHash(env: Env, bi: BlobInfo): Bytes { env.sha(InfoText(env, bi)) }

  function InfoHashes(env: Env, infos: seq<BlobInfo>): Bytes {
    if infos == [] then [] else InfoHashes(env, infos[..|infos| - 1]) + InfoHash(env, infos[|infos| - 1])
  }

  /** The names and the key, as the stream hash covers them. */
  function HeadText(env: Env, sd: SDBlob): Bytes {
    env.hex(env.text(sd.streamName)) + env.hex(sd.key) + env.hex(env.text(sd.suggestedFileName))
  }

  /** What the stream hash covers. */
  function StreamText(env: Env, sd: SDBlob): Bytes { HeadText(env, sd) + env.sha(InfoHashes(env, sd.blobInfos)) }

  /** `computeStreamHash` */
  function ComputeStreamHash(env: Env, sd: SDBlob): Bytes { env.sha(StreamText(env, sd)) }

  predicate IsValid(env: Env, sd: SDBlob) { sd.streamHash == ComputeStreamHash(env, sd) }

  /** `updateStreamHash` */
  function Sealed(env: Env, sd: SDBlob): SDBlob { sd.(streamHash := ComputeStreamHash(env, sd)) }

  /** `addBlob`; it panics on an empty IV. */
  function AddBlob(env: Env, sd: SDBlob, blob: Bytes, iv: Bytes): Result<SDBlob, Error> {
    if iv == [] then Err(EmptyIv)
    else Ok(sd.(blobInfos := sd.blobInfos + [BlobInfo(|blob|, |sd.blobInfos|, HashOf(env, blob), iv)]))
  }

  // ---------------------------------------------------------------------------
  // Encoder
  // ---------------------------------------------------------------------------

  /** One result of `io.Reader.Read`: bytes alone, or bytes together with the end or a failure. */
  datatype Read = Chunk(data: Bytes) | AtEnd(data: Bytes) | Broken(data: Bytes)

  /** src lists the reads still to come, after which the reader stays at its end. */
  datatype EncoderState = EncoderState(
    src: seq<Read>, ivs: seq<Bytes>, drawn: nat, sd: SDBlob, srcLen: nat, srcData: Bytes)

  /** `nextIV`: the next preset IV, or a random one when they are used up. */
  function NextIv(env: Env, e: EncoderState): (Bytes, EncoderState) {
    if e.ivs == [] then (env.random(e.drawn), e.(drawn := e.drawn + 1)) else (e.ivs[0], e.(ivs := e.ivs[1..]))
  }

  predicate IsTerminated(e: EncoderState) {
    |e.sd.blobInfos| >= 1 && e.sd.blobInfos[|e.sd.blobInfos| - 1].length == 0
  }

  /** `ensureTerminated` */
  function EnsureTerminated(env: Env, e: EncoderState): (EncoderState, Result<(), Error>) {
    if IsTerminated(e) then (e, Ok(()))
    else
      var (iv, e') := NextIv(env, e);
      match AddBlob(env, e'.sd, [], iv)
      case Err(x) => (e', Err(x))
      case Ok(sd) => (e'.(sd := sd), Ok(()))
  }

  function NextRead(e: EncoderState): (Read, EncoderState) {
    if e.src == [] then (AtEnd([]), e) else (e.src[0], e.(src := e.src[1..]))
  }

  /** `Next`; whatever comes with the end or a failure of the source is not encoded. */
  function Next(env: Env, e: EncoderState): (EncoderState, Result<Bytes, Error>) {
    var (read, e1) := NextRead(e);
    match read
    case AtEnd(_) =>
      var (e2, r) := EnsureTerminated(env, e1);
      (e2, Err(if r.Ok? then Eof else r.error))
    case Broken(_) => (e1, Err(ReadFailed))
    case Chunk(data) =>
      var (iv, e2) := NextIv(env, e1.(srcLen := e1.srcLen + |data|, srcData := e1.srcData + data));
      match NewBlob(env.cipher, data, e2.sd.key, iv)
      case Err(x) => (e2, Err(x))
      case Ok(blob) =>
        match AddBlob(env, e2.sd, blob, iv)
        case Err(x) => (e2, Err(x))
        case Ok(sd) => (e2.(sd := sd), Ok(blob))
  }

  /** The loop of `Stream`: all content blobs up to the end of the source. */
  function EncodeAll(env: Env, e: EncoderState): (EncoderState, Result<seq<Bytes>, Error>)
    decreases |e.src|
  {
    var (e', r) := Next(env, e);
    match r
    case Err(Eof) => (e', Ok([]))
    case Err(x) => (e', Err(x))
    case Ok(blob) =>
      var (e2, rest) := EncodeAll(env, e');
      (e2, if rest.Ok? then Ok([blob] + rest.value) else rest)
  }

  /** `Stream`: the descriptor blob and then the content blobs. */
  function Stream(env: Env, e: EncoderState): Result<seq<Bytes>, Error> {
    var (e', r) := EncodeAll(env, e);
    match r
    case Err(x) => Err(x)
    case Ok(blobs) => Ok([env.toJson(Sealed(env, e'.sd))] + blobs)
  }

  /** `NewEncoderWithIVs`, with the names `NewEncoderFromSD` copies. */
  function NewEncoder(src: seq<Read>, key: Bytes, ivs: seq<Bytes>, drawn: nat, name: string, file: string)
    : EncoderState
  {
    EncoderState(src, ivs, drawn, SDBlob(name, [], STREAM_TYPE, key, file, []), 0, [])
  }

  // ---------------------------------------------------------------------------
  // Decoder
  // ---------------------------------------------------------------------------

  /** The loop of `Decode`, from info i on. */
  function DecodeFrom(env: Env, sd: SDBlob, s: seq<Bytes>, i: nat): Result<Bytes, Error>
    requires i <= |sd.blobInfos| == |s|
    decreases |s| - i
  {
    if i == |sd.blobInfos| then Ok([])
    else
      var info := sd.blobInfos[i];
      if info.length == 0 then (if i != |sd.blobInfos| - 1 then Err(EarlyTerminator) else Ok([]))
      else if info.blobNum != i then Err(OutOfOrder)
      else if i + 1 == |s| then Err(IndexOutOfRange)
      else if HashOf(env, s[i + 1]) != info.blobHash then Err(HashMismatch)
      else
        match Plaintext(env.cipher, s[i + 1], sd.key, info.iv)
        case Err(x) => Err(x)
        case Ok(data) =>
          match DecodeFrom(env, sd, s, i + 1)
          case Err(x) => Err(x)
          case Ok(rest) => Ok(data + rest)
  }

  /** `Decode` */
  function Decode(env: Env, s: seq<Bytes>): Result<Bytes, Error> {
    if |s| < 2 then Err(TooShort)
    else
      match env.fromJson(s[0])
      case Err(x) => Err(BadSdBlob)
      case Ok(sd) =>
        if !IsValid(env, sd) then Err(BadStreamHash)
        else if sd.blobInfos == [] then Err(IndexOutOfRange)
        else if sd.blobInfos[|sd.blobInfos| - 1].length != 0 then Err(NotTerminated)
        else if |s| - 1 != |sd.blobInfos| - 1 then Err(BlobCountMismatch)
        else DecodeFrom(env, sd, s, 0)
  }

  // ---------------------------------------------------------------------------
  // What the encoder produces
  // ---------------------------------------------------------------------------

  /** The k-th IV an encoder in state e will use. */
  function IvAt(env: Env, e: EncoderState, k: nat): Bytes {
    if k < |e.ivs| then e.ivs[k] else env.random(e.drawn + k - |e.ivs|)
  }

  /** The chunks a source delivers before it ends or breaks off. */
  function ChunksOf(src: seq<Read>): seq<Bytes> {
    if src == [] || !src[0].Chunk? then [] else [src[0].data] + ChunksOf(src[1..])
  }

  /** How it ends or breaks off. */
  function LastOf(src: seq<Read>): Read {
    if src == [] then AtEnd([]) else if !src[0].Chunk? then src[0] else LastOf(src[1..])
  }

  function Concat(chunks: seq<Bytes>): Bytes {
    if chunks == [] then [] else chunks[0] + Concat(chunks[1..])
  }

  /** What `NewBlob` demands of the k-th chunk, the key and the k-th IV. */
  predicate ChunkOK(env: Env, e: EncoderState, chunk: Bytes, k: nat) {
    0 < |chunk| && KeyOK(e.sd.key) && |IvAt(env, e, k)| == BLOCK
  }

  /** Every chunk can be encoded, and the terminator has an IV. */
  predicate Ready(env: Env, e: EncoderState, chunks: seq<Bytes>) {
    (forall k :: 0 <= k < |chunks| ==> ChunkOK(env, e, chunks[k], k)) && IvAt(env, e, |chunks|) != []
  }

  /** A fresh encoder as one of the constructors makes it. */
  predicate Fresh(e: EncoderState) { e.sd.blobInfos == [] && e.sd.streamType == STREAM_TYPE && e.sd.streamHash == [] }

  function BlobAt(env: Env, e: EncoderState, chunk: Bytes, k: nat): Bytes {
    var b := NewBlob(env.cipher, chunk, e.sd.key, IvAt(env, e, k));
    if b.Ok? then b.value else []
  }

  function InfoAt(env: Env, e: EncoderState, blob: Bytes, k: nat): BlobInfo {
    BlobInfo(|blob|, |e.sd.blobInfos| + k, HashOf(env, blob), IvAt(env, e, k))
  }

  function BlobsOf(env: Env, e: EncoderState, chunks: seq<Bytes>): seq<Bytes> {
    seq(|chunks|, k requires 0 <= k < |chunks| => BlobAt(env, e, chunks[k], k))
  }

  /** One info per chunk, and the zero-length terminator. */
  function InfosOf(env: Env, e: EncoderState, chunks: seq<Bytes>): seq<BlobInfo> {
    seq(|chunks|, k requires 0 <= k < |chunks| => InfoAt(env, e, BlobAt(env, e, chunks[k], k), k))
    + [InfoAt(env, e, [], |chunks|)]
  }

  /** One call of `Next` on a chunk: its blob and info are added, and the k-th IV becomes the (k-1)-st. */
  lemma NextChunk(env: Env, e: EncoderState, chunk: Bytes, rest: seq<Read>)
    requires Sane(env) && ChunkOK(env, e, chunk, 0) && e.src == [Chunk(chunk)] + rest
    ensures var (e', r) := Next(env, e);
            var blob := BlobAt(env, e, chunk, 0);
            && r == Ok(blob) && blob != []
            && e'.src == rest && e'.sd == e.sd.(blobInfos := e.sd.blobInfos + [InfoAt(env, e, blob, 0)])
            && e'.srcLen == e.srcLen + |chunk| && e'.srcData == e.srcData + chunk
            && forall k: nat :: IvAt(env, e', k) == IvAt(env, e, k + 1)
  {
    var e1 := e.(src := rest, srcLen := e.srcLen + |chunk|, srcData := e.srcData + chunk);
    BlobRoundTrip(env.cipher, chunk, e.sd.key, IvAt(env, e, 0));
    assert e.src[1..] == rest;
    NextIvIs(env, e1);
    SameIvs(env, e, e1);
    NextOnChunk(env, e, e1, chunk, BlobAt(env, e, chunk, 0));
    forall k: nat ensures IvAt(env, Next(env, e).0, k) == IvAt(env, e, k + 1) {
      SameIvs(env, NextIv(env, e1).1, Next(env, e).0);
      assert IvAt(env, e1, k + 1) == IvAt(env, e, k + 1);
    }
  }

  lemma SameIvs(env: Env, e: EncoderState, e': EncoderState)
    requires e'.ivs == e.ivs && e'.drawn == e.drawn
    ensures forall k: nat :: IvAt(env, e', k) == IvAt(env, e, k)
  {
  }

  /** The branch of `Next` in which a blob is made. */
  lemma NextOnChunk(env: Env, e: EncoderState, e1: EncoderState, chunk: Bytes, blob: Bytes)
    requires e.src != [] && e.src[0] == Chunk(chunk)
    requires e1 == e.(src := e.src[1..], srcLen := e.srcLen + |chunk|, srcData := e.srcData + chunk)
    requires var (iv, e2) := NextIv(env, e1); NewBlob(env.cipher, chunk, e2.sd.key, iv) == Ok(blob) && iv != []
    ensures var (iv, e2) := NextIv(env, e1);
            var info := BlobInfo(|blob|, |e2.sd.blobInfos|, HashOf(env, blob), iv);
            Next(env, e) == (e2.(sd := e2.sd.(blobInfos := e2.sd.blobInfos + [info])), Ok(blob))
  {
  }

  /** Taking an IV moves the later ones up. */
  lemma NextIvIs(env: Env, e: EncoderState)
    ensures var (iv, e') := NextIv(env, e);
            && iv == IvAt(env, e, 0)
            && e' == e.(ivs := e'.ivs, drawn := e'.drawn)
            && forall k: nat :: IvAt(env, e', k) == IvAt(env, e, k + 1)
  {
  }

  /** On any other chunk it fails, and not with the end of the source. */
  lemma NextBadChunk(env: Env, e: EncoderState, chunk: Bytes)
    requires e.src != [] && e.src[0] == Chunk(chunk) && !ChunkOK(env, e, chunk, 0)
    ensures var r := Next(env, e).1; r.Err? && r.error != Eof
    ensures chunk == [] ==> Next(env, e).1 == Err(EmptyPlaintext)
  {
  }

  /** What is demanded of the first chunk and of the encoder after it. */
  lemma ReadyShift(env: Env, e: EncoderState, e': EncoderState, chunks: seq<Bytes>)
    requires chunks != [] && e'.sd.key == e.sd.key && forall k: nat :: IvAt(env, e', k) == IvAt(env, e, k + 1)
    ensures Ready(env, e, chunks) <==> ChunkOK(env, e, chunks[0], 0) && Ready(env, e', chunks[1..])
  {
    forall k: nat | k < |chunks| - 1
      ensures ChunkOK(env, e', chunks[1..][k], k) <==> ChunkOK(env, e, chunks[k + 1], k + 1)
    {
      assert IvAt(env, e', k) == IvAt(env, e, k + 1);
    }
    assert IvAt(env, e', |chunks| - 1) == IvAt(env, e, |chunks|);
    if ChunkOK(env, e, chunks[0], 0) && Ready(env, e', chunks[1..]) {
      forall k: nat | k < |chunks| ensures ChunkOK(env, e, chunks[k], k) {
        if k > 0 { assert ChunkOK(env, e', chunks[1..][k - 1], k - 1); }
      }
    }
  }

  /** The encoder state after the whole source. */
  function Final(env: Env, e: EncoderState): SDBlob {
    e.sd.(blobInfos := e.sd.blobInfos + InfosOf(env, e, ChunksOf(e.src)))
  }

  lemma NextEnd(env: Env, e: EncoderState)
    requires !IsTerminated(e) && ChunksOf(e.src) == []
    ensures var (e', r) := Next(env, e);
            && r.Err? && (r.error == Eof <==> Ready(env, e, []) && LastOf(e.src).AtEnd?)
            && (r.error == Eof ==> e'.sd == Final(env, e) && e'.srcLen == e.srcLen && e'.srcData == e.srcData)
  {
  }

  lemma ShiftAt(env: Env, e: EncoderState, e': EncoderState, chunks: seq<Bytes>, k: nat)
    requires k + 1 < |chunks| && e'.sd.key == e.sd.key && |e'.sd.blobInfos| == |e.sd.blobInfos| + 1
    requires IvAt(env, e', k) == IvAt(env, e, k + 1)
    ensures BlobsOf(env, e', chunks[1..])[k] == BlobsOf(env, e, chunks)[k + 1]
    ensures InfosOf(env, e', chunks[1..])[k] == InfosOf(env, e, chunks)[k + 1]
  {
  }

  /** Dropping the first chunk shifts the blobs and infos by one. */
  lemma ShiftByOne(env: Env, e: EncoderState, e': EncoderState, chunks: seq<Bytes>)
    requires chunks != [] && e'.sd.key == e.sd.key && |e'.sd.blobInfos| == |e.sd.blobInfos| + 1
    requires forall k: nat :: IvAt(env, e', k) == IvAt(env, e, k + 1)
    ensures [BlobAt(env, e, chunks[0], 0)] + BlobsOf(env, e', chunks[1..]) == BlobsOf(env, e, chunks)
    ensures [InfoAt(env, e, BlobAt(env, e, chunks[0], 0), 0)] + InfosOf(env, e', chunks[1..]) == InfosOf(env, e, chunks)
  {
    var b, b' := BlobsOf(env, e, chunks), BlobsOf(env, e', chunks[1..]);
    var i, i' := InfosOf(env, e, chunks), InfosOf(env, e', chunks[1..]);
    forall k: nat | k < |chunks| - 1 ensures b'[k] == b[k + 1] && i'[k] == i[k + 1] { ShiftAt(env, e, e', chunks, k); }
    assert i'[|chunks| - 1] == i[|chunks|] by { assert IvAt(env, e', |chunks| - 1) == IvAt(env, e, |chunks|); }
    PutInFront(b[0], b', b);
    PutInFront(i[0], i', i);
  }

  lemma PutInFront<T>(x: T, s: seq<T>, r: seq<T>)
    requires |r| == |s| + 1 && r[0] == x && forall k: nat :: k < |s| ==> s[k] == r[k + 1]
    ensures [x] + s == r
  {
  }

  /** What is left to show once the first chunk is encoded. */
  ghost predicate Encoded(env: Env, e: EncoderState, e': EncoderState, r: Result<seq<Bytes>, Error>) {
    var chunks := ChunksOf(e.src);
    && r == Ok(BlobsOf(env, e, chunks)) && e'.sd == Final(env, e)
    && e'.srcLen == e.srcLen + |Concat(chunks)| && e'.srcData == e.srcData + Concat(chunks)
  }

  lemma EncodedOneMore(env: Env, e: EncoderState, e1: EncoderState, e2: EncoderState, rest: seq<Bytes>)
    requires ChunksOf(e.src) != [] && ChunksOf(e1.src) == ChunksOf(e.src)[1..]
    requires var c := ChunksOf(e.src)[0];
             && e1.sd == e.sd.(blobInfos := e.sd.blobInfos + [InfoAt(env, e, BlobAt(env, e, c, 0), 0)])
             && e1.srcLen == e.srcLen + |c| && e1.srcData == e.srcData + c
    requires forall k: nat :: IvAt(env, e1, k) == IvAt(env, e, k + 1)
    requires Encoded(env, e1, e2, Ok(rest))
    ensures Encoded(env, e, e2, Ok([BlobAt(env, e, ChunksOf(e.src)[0], 0)] + rest))
  {
    var chunks := ChunksOf(e.src);
    ShiftByOne(env, e, e1, chunks);
    Regroup(e.sd.blobInfos, [InfoAt(env, e, BlobAt(env, e, chunks[0], 0), 0)], InfosOf(env, e1, chunks[1..]));
    Regroup(e.srcData, chunks[0], Concat(chunks[1..]));
  }

  lemma Regroup<T>(a: seq<T>, b: seq<T>, c: seq<T>)
    ensures a + (b + c) == (a + b) + c
  {
  }

  /** The whole loop of `Stream`: one blob and one info per chunk, then the terminator; and exactly when it succeeds. */
  lemma {:induction false} EncodesAll(env: Env, e: EncoderState)
    requires Sane(env) && !IsTerminated(e)
    ensures var (e', r) := EncodeAll(env, e);
            && (r.Ok? <==> Ready(env, e, ChunksOf(e.src)) && LastOf(e.src).AtEnd?)
            && (r.Ok? ==> Encoded(env, e, e', r))
    decreases |e.src|, 1
  {
    var chunks := ChunksOf(e.src);
    if chunks == [] {
      NextEnd(env, e);
      assert BlobsOf(env, e, chunks) == [];
    } else if ChunkOK(env, e, chunks[0], 0) {
      EncodesOneMore(env, e);
    } else {
      NextBadChunk(env, e, chunks[0]);
    }
  }

  lemma {:induction false} EncodesOneMore(env: Env, e: EncoderState)
    requires Sane(env) && !IsTerminated(e) && ChunksOf(e.src) != [] && ChunkOK(env, e, ChunksOf(e.src)[0], 0)
    ensures var (e', r) := EncodeAll(env, e);
            && (r.Ok? <==> Ready(env, e, ChunksOf(e.src)) && LastOf(e.src).AtEnd?)
            && (r.Ok? ==> Encoded(env, e, e', r))
    decreases |e.src|, 0
  {
    var chunks := ChunksOf(e.src);
    var (e1, r1) := Next(env, e);
    assert chunks[1..] == ChunksOf(e.src[1..]);
    NextChunk(env, e, chunks[0], e.src[1..]);
    EncodesAll(env, e1);
    ReadyShift(env, e, e1, chunks);
    var (e2, rest) := EncodeAll(env, e1);
    if rest.Ok? { EncodedOneMore(env, e, e1, e2, rest.value); }
  }

  /** The descriptor and the content blobs, without running the encoder. */
  function Encoding(env: Env, e: EncoderState): seq<Bytes> {
    [env.toJson(Sealed(env, Final(env, e)))] + BlobsOf(env, e, ChunksOf(e.src))
  }

  /** `Stream` succeeds exactly on a source whose every chunk can be encoded and that ends without a failure. */
  lemma StreamIs(env: Env, e: EncoderState)
    requires Sane(env) && e.sd.blobInfos == []
    ensures Stream(env, e).Ok? <==> Ready(env, e, ChunksOf(e.src)) && LastOf(e.src).AtEnd?
    ensures Stream(env, e).Ok? ==> Stream(env, e).value == Encoding(env, e)
  {
    EncodesAll(env, e);
  }

  // ---------------------------------------------------------------------------
  // Round trip
  // ---------------------------------------------------------------------------

  lemma {:induction false} DecodesFrom(env: Env, e: EncoderState, sd: SDBlob, s: seq<Bytes>, i: nat)
    requires Sane(env) && Ready(env, e, ChunksOf(e.src)) && e.sd.blobInfos == [] && i <= |ChunksOf(e.src)|
    requires sd == Sealed(env, Final(env, e)) && s == Encoding(env, e)
    ensures DecodeFrom(env, sd, s, i) == Ok(Concat(ChunksOf(e.src)[i..]))
    decreases |ChunksOf(e.src)| - i
  {
    var chunks := ChunksOf(e.src);
    if i < |chunks| {
      EncodingAt(env, e, i);
      DecodesFrom(env, e, sd, s, i + 1);
      assert chunks[i..][1..] == chunks[i + 1..];
    }
  }

  /** The i-th info and the blob it stands for. */
  lemma EncodingAt(env: Env, e: EncoderState, i: nat)
    requires Sane(env) && Ready(env, e, ChunksOf(e.src)) && e.sd.blobInfos == [] && i < |ChunksOf(e.src)|
    ensures var info, blob := Final(env, e).blobInfos[i], Encoding(env, e)[i + 1];
            && info.length == |blob| > 0 && info.blobNum == i && info.blobHash == HashOf(env, blob)
            && Plaintext(env.cipher, blob, e.sd.key, info.iv) == Ok(ChunksOf(e.src)[i])
  {
    var chunks := ChunksOf(e.src);
    assert ChunkOK(env, e, chunks[i], i);
    BlobRoundTrip(env.cipher, chunks[i], e.sd.key, IvAt(env, e, i));
    PartsAt(env, e, i);
  }

  lemma PartsAt(env: Env, e: EncoderState, i: nat)
    requires e.sd.blobInfos == [] && i < |ChunksOf(e.src)|
    ensures Encoding(env, e)[i + 1] == BlobAt(env, e, ChunksOf(e.src)[i], i)
    ensures Final(env, e).blobInfos[i] == InfoAt(env, e, BlobAt(env, e, ChunksOf(e.src)[i], i), i)
  {
  }

  /** Decoding what was encoded returns the chunks of the source, however it was chunked. */
  lemma DecodeStream(env: Env, e: EncoderState)
    requires Sane(env) && Fresh(e) && Stream(env, e).Ok?
    ensures Decode(env, Stream(env, e).value) ==
            if ChunksOf(e.src) == [] then Err(TooShort) else Ok(Concat(ChunksOf(e.src)))
  {
    var sd := Sealed(env, Final(env, e));
    StreamIs(env, e);
    var s := Stream(env, e).value;
    assert env.fromJson(env.toJson(sd)) == Ok(sd);
    if ChunksOf(e.src) != [] {
      DecodesFrom(env, e, sd, s, 0);
      assert ChunksOf(e.src)[0..] == ChunksOf(e.src);
    }
  }

  /** Everything the reader handed over, including bytes that came together with its end. */
  function Delivered(src: seq<Read>): Bytes { Concat(ChunksOf(src)) + LastOf(src).data }

  predicate RoundTrips(env: Env, e: EncoderState) {
    Stream(env, e).Ok? && Decode(env, Stream(env, e).value) == Ok(Delivered(e.src))
  }

  /**
    The round trip returns all delivered bytes exactly when the source has a chunk, every chunk can be encoded, and
    it ends without a failure and without further bytes.
  */
  lemma RoundTripIff(env: Env, e: EncoderState)
    requires Sane(env) && Fresh(e)
    ensures RoundTrips(env, e) <==>
            ChunksOf(e.src) != [] && Ready(env, e, ChunksOf(e.src)) && LastOf(e.src) == AtEnd([])
  {
    StreamIs(env, e);
    if Stream(env, e).Ok? {
      DecodeStream(env, e);
      if LastOf(e.src).data == [] {
        assert Delivered(e.src) == Concat(ChunksOf(e.src));
      } else {
        assert |Delivered(e.src)| > |Concat(ChunksOf(e.src))|;
      }
    }
  }

  /** A usable key and whole-block preset IVs. */
  predicate Keyed(e: EncoderState) {
    KeyOK(e.sd.key) && forall k :: 0 <= k < |e.ivs| ==> |e.ivs[k]| == BLOCK
  }

  predicate NoEmptyChunk(src: seq<Read>) { forall k :: 0 <= k < |ChunksOf(src)| ==> ChunksOf(src)[k] != [] }

  /** With such a key and IVs, only an empty chunk cannot be encoded. */
  lemma KeyedReadyIff(env: Env, e: EncoderState)
    requires Sane(env) && Keyed(e)
    ensures Ready(env, e, ChunksOf(e.src)) <==> NoEmptyChunk(e.src)
  {
    forall k: nat ensures |IvAt(env, e, k)| == BLOCK {}
  }

  /** The round trip in terms of the reader alone. */
  lemma KeyedRoundTripIff(env: Env, e: EncoderState)
    requires Sane(env) && Fresh(e) && Keyed(e)
    ensures RoundTrips(env, e) <==>
            ChunksOf(e.src) != [] && NoEmptyChunk(e.src) && LastOf(e.src) == AtEnd([])
  {
    KeyedReadyIff(env, e);
    RoundTripIff(env, e);
  }

  /** A reader that once returns nothing without an error cannot be encoded. */
  lemma EmptyReadFails(env: Env, e: EncoderState, rest: seq<Read>)
    requires e.src == [Chunk([])] + rest
    ensures Stream(env, e) == Err(EmptyPlaintext)
  {
    NextBadChunk(env, e, []);
  }

  /** A content blob as the encoder makes it. */
  lemma BlobShape(env: Env, e: EncoderState, k: nat)
    requires Sane(env) && Ready(env, e, ChunksOf(e.src)) && k < |ChunksOf(e.src)|
    ensures var b, chunk := BlobAt(env, e, ChunksOf(e.src)[k], k), ChunksOf(e.src)[k];
            && |b| % BLOCK == 0 && 0 < |b| && (|chunk| <= MAX_BLOB_DATA_SIZE ==> ValidForSend(b).Ok?)
            && Plaintext(env.cipher, b, e.sd.key, IvAt(env, e, k)) == Ok(chunk)
  {
    assert ChunkOK(env, e, ChunksOf(e.src)[k], k);
    BlobRoundTrip(env.cipher, ChunksOf(e.src)[k], e.sd.key, IvAt(env, e, k));
  }

  /** Info k stands for this blob, which is a positive number of blocks and fit to send. */
  predicate InfoFits(env: Env, info: BlobInfo, blob: Bytes, k: nat) {
    && info.blobNum == k && info.length == |blob| > 0 && info.blobHash == env.sha(blob)
    && |blob| % BLOCK == 0 && ValidForSend(blob).Ok?
  }

  /** s is a descriptor and content blobs that match these infos one to one, up to the zero-length terminator. */
  predicate WellShaped(env: Env, s: seq<Bytes>, infos: seq<BlobInfo>) {
    && |s| == |infos| > 0
    && infos[|infos| - 1].blobNum == |infos| - 1 && infos[|infos| - 1].length == 0
    && forall k: nat :: k < |infos| - 1 ==> InfoFits(env, infos[k], s[k + 1], k)
  }

  lemma EncodingShape(env: Env, e: EncoderState)
    requires Sane(env) && Ready(env, e, ChunksOf(e.src)) && e.sd.blobInfos == []
    requires forall k :: 0 <= k < |ChunksOf(e.src)| ==> |ChunksOf(e.src)[k]| <= MAX_BLOB_DATA_SIZE
    ensures WellShaped(env, Encoding(env, e), InfosOf(env, e, ChunksOf(e.src)))
  {
    var infos, s := InfosOf(env, e, ChunksOf(e.src)), Encoding(env, e);
    forall k: nat | k < |infos| - 1 ensures InfoFits(env, infos[k], s[k + 1], k) { EncodingShapeAt(env, e, k); }
  }

  lemma EncodingShapeAt(env: Env, e: EncoderState, k: nat)
    requires Sane(env) && Ready(env, e, ChunksOf(e.src)) && e.sd.blobInfos == []
    requires k < |ChunksOf(e.src)| && |ChunksOf(e.src)[k]| <= MAX_BLOB_DATA_SIZE
    ensures InfoFits(env, InfosOf(env, e, ChunksOf(e.src))[k], Encoding(env, e)[k + 1], k)
  {
    BlobShape(env, e, k);
    assert Encoding(env, e)[k + 1] == BlobAt(env, e, ChunksOf(e.src)[k], k);
  }

  /** The descriptor has the encoder's names, key and type, and its IVs: the preset ones, then random ones. */
  lemma StreamDescriptor(env: Env, e: EncoderState)
    requires Sane(env) && Fresh(e) && Stream(env, e).Ok?
    ensures env.fromJson(Stream(env, e).value[0]).Ok?
    ensures var sd := env.fromJson(Stream(env, e).value[0]).value;
            && sd.streamName == e.sd.streamName && sd.suggestedFileName == e.sd.suggestedFileName
            && sd.key == e.sd.key && sd.streamType == "lbryfile"
            && |sd.blobInfos| == |ChunksOf(e.src)| + 1
            && (forall k :: 0 <= k < |sd.blobInfos| ==>
                  sd.blobInfos[k].iv == if k < |e.ivs| then e.ivs[k] else env.random(e.drawn + k - |e.ivs|))
  {
    StreamIs(env, e);
    FinalIvs(env, e);
    assert env.fromJson(env.toJson(Sealed(env, Final(env, e)))) == Ok(Sealed(env, Final(env, e)));
  }

  lemma FinalIvs(env: Env, e: EncoderState)
    requires e.sd.blobInfos == []
    ensures var infos := Final(env, e).blobInfos;
            && |infos| == |ChunksOf(e.src)| + 1
            && forall k :: 0 <= k < |infos| ==>
                 infos[k].iv == if k < |e.ivs| then e.ivs[k] else env.random(e.drawn + k - |e.ivs|)
  {
    var infos := Final(env, e).blobInfos;
    assert infos == InfosOf(env, e, ChunksOf(e.src));
    forall k | 0 <= k < |infos|
      ensures infos[k].iv == if k < |e.ivs| then e.ivs[k] else env.random(e.drawn + k - |e.ivs|)
    {
      assert infos[k].iv == IvAt(env, e, k);
    }
  }

  /** The shape of an encoded stream, for sources read in chunks of at most the buffer size. */
  lemma StreamShape(env: Env, e: EncoderState)
    requires Sane(env) && e.sd.blobInfos == [] && Stream(env, e).Ok?
    requires forall k :: 0 <= k < |ChunksOf(e.src)| ==> |ChunksOf(e.src)[k]| <= MAX_BLOB_DATA_SIZE
    ensures WellShaped(env, Stream(env, e).value, Final(env, e).blobInfos)
    ensures EncodeAll(env, e).0.srcLen == e.srcLen + |Concat(ChunksOf(e.src))|
    ensures EncodeAll(env, e).0.srcData == e.srcData + Concat(ChunksOf(e.src))
  {
    StreamIs(env, e);
    EncodesAll(env, e);
    EncodingShape(env, e);
    assert Final(env, e).blobInfos == InfosOf(env, e, ChunksOf(e.src));
  }
}
