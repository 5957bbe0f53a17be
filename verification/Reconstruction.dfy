/** Rebuilding a stream from its file and descriptor (stream/stream.go, NewEncoderFromSD). */
module Reconstruction {
  import opened Results
  import opened Blobs
  import opened Streams

  /** A source that fills the buffer on every read but the last. */
  function FullReads(file: Bytes): seq<Read>
    decreases |file|
  {
    if file == [] then []
    else if |file| <= MAX_BLOB_DATA_SIZE then [Chunk(file)]
    else [Chunk(file[..MAX_BLOB_DATA_SIZE])] + FullReads(file[MAX_BLOB_DATA_SIZE..])
  }

  /** Every chunk but the last is as long as the buffer, and the last is not empty. */
  predicate FullChunks(chunks: seq<Bytes>) {
    forall k :: 0 <= k < |chunks| ==>
      if k < |chunks| - 1 then |chunks[k]| == MAX_BLOB_DATA_SIZE else 0 < |chunks[k]| <= MAX_BLOB_DATA_SIZE
  }

  lemma {:induction false} FullReadsAreFull(file: Bytes)
    ensures var chunks := ChunksOf(FullReads(file));
            FullChunks(chunks) && Concat(chunks) == file && LastOf(FullReads(file)) == AtEnd([])
    decreases |file|
  {
    if file == [] {
    } else if |file| <= MAX_BLOB_DATA_SIZE {
      var one := FullReads(file);
      assert one[1..] == [] && ChunksOf(one) == [file] && [file][1..] == [];
    } else {
      var rest := FullReads(file[MAX_BLOB_DATA_SIZE..]);
      FullReadsAreFull(file[MAX_BLOB_DATA_SIZE..]);
      assert FullReads(file)[1..] == rest;
      var chunks := ChunksOf(FullReads(file));
      assert chunks[1..] == ChunksOf(rest);
      NonEmptyChunks(file[MAX_BLOB_DATA_SIZE..]);
      assert file == file[..MAX_BLOB_DATA_SIZE] + file[MAX_BLOB_DATA_SIZE..];
    }
  }

  lemma NonEmptyChunks(file: Bytes)
    requires file != []
    ensures ChunksOf(FullReads(file)) != []
  {
  }

  /** Full chunks are determined by their concatenation. */
  lemma {:induction false} FullChunksUnique(a: seq<Bytes>, b: seq<Bytes>)
    requires FullChunks(a) && FullChunks(b) && Concat(a) == Concat(b)
    ensures a == b
    decreases |a|
  {
    ConcatEmpty(a);
    ConcatEmpty(b);
    if a != [] && b != [] {
      ConcatEmpty(a[1..]);
      ConcatEmpty(b[1..]);
      ConcatLength(a);
      ConcatLength(b);
      assert a[0] == Concat(a)[..|a[0]|] && b[0] == Concat(b)[..|b[0]|];
      assert Concat(a[1..]) == Concat(a)[|a[0]|..] && Concat(b[1..]) == Concat(b)[|b[0]|..];
      FullChunksUnique(a[1..], b[1..]);
      assert a == [a[0]] + a[1..] && b == [b[0]] + b[1..];
    }
  }

  lemma ConcatEmpty(chunks: seq<Bytes>)
    requires FullChunks(chunks)
    ensures Concat(chunks) == [] <==> chunks == []
  {
  }

  /** The first chunk is what a full buffer would take from the whole. */
  lemma ConcatLength(chunks: seq<Bytes>)
    requires FullChunks(chunks) && chunks != []
    ensures |chunks[0]| == if |Concat(chunks)| <= MAX_BLOB_DATA_SIZE then |Concat(chunks)| else MAX_BLOB_DATA_SIZE
  {
    if |chunks| > 1 {
      ConcatEmpty(chunks[1..]);
    } else {
      assert chunks[1..] == [];
    }
  }

  /** `NewEncoderFromSD` on a source, with the random draws that follow. */
  function EncoderFromSD(src: seq<Read>, sd: SDBlob, drawn: nat): EncoderState {
    NewEncoder(src, sd.key, seq(|sd.blobInfos|, i requires 0 <= i < |sd.blobInfos| => sd.blobInfos[i].iv), drawn,
               sd.streamName, sd.suggestedFileName)
  }

  /** A re-encoder reading src, from e's descriptor with only its first m infos. */
  function Again(env: Env, e: EncoderState, src: seq<Read>, m: nat, drawn: nat): EncoderState
    requires m <= |e.sd.blobInfos| + |ChunksOf(e.src)| + 1
  {
    var sd := Sealed(env, Final(env, e));
    EncoderFromSD(src, sd.(blobInfos := sd.blobInfos[..m]), drawn)
  }

  /** It has e's key and names and, as far as the infos go, e's IVs. */
  lemma AgainMaterial(env: Env, e: EncoderState, src: seq<Read>, m: nat, drawn: nat)
    requires Fresh(e) && m <= |ChunksOf(e.src)| + 1
    ensures var e' := Again(env, e, src, m, drawn);
            && e'.sd == e.sd && e'.src == src
            && (forall k: nat :: k < m ==> IvAt(env, e', k) == IvAt(env, e, k))
            && (forall k: nat :: k >= m ==> IvAt(env, e', k) == env.random(drawn + k - m))
  {
    forall k: nat | k < m ensures IvAt(env, Again(env, e, src, m, drawn), k) == IvAt(env, e, k) {
      AgainIv(env, e, src, m, drawn, k);
    }
  }

  lemma AgainIv(env: Env, e: EncoderState, src: seq<Read>, m: nat, drawn: nat, k: nat)
    requires Fresh(e) && m <= |ChunksOf(e.src)| + 1 && k < m
    ensures IvAt(env, Again(env, e, src, m, drawn), k) == IvAt(env, e, k)
  {
    InfoIv(env, e, k);
    assert Again(env, e, src, m, drawn).ivs[k] == Final(env, e).blobInfos[..m][k].iv;
  }

  lemma InfoIv(env: Env, e: EncoderState, k: nat)
    requires Fresh(e) && k <= |ChunksOf(e.src)|
    ensures |Final(env, e).blobInfos| == |ChunksOf(e.src)| + 1 && Final(env, e).blobInfos[k].iv == IvAt(env, e, k)
  {
  }

  lemma SameMaterial(env: Env, e: EncoderState, e': EncoderState, chunks: seq<Bytes>)
    requires e'.sd.key == e.sd.key && |e'.sd.blobInfos| == |e.sd.blobInfos|
    requires forall k: nat :: k <= |chunks| ==> IvAt(env, e', k) == IvAt(env, e, k)
    ensures BlobsOf(env, e', chunks) == BlobsOf(env, e, chunks) && InfosOf(env, e', chunks) == InfosOf(env, e, chunks)
    ensures Ready(env, e', chunks) <==> Ready(env, e, chunks)
  {
    forall k: nat | k < |chunks|
      ensures BlobAt(env, e', chunks[k], k) == BlobAt(env, e, chunks[k], k)
      ensures ChunkOK(env, e', chunks[k], k) <==> ChunkOK(env, e, chunks[k], k)
    {
    }
  }

  /** Equal content blobs under the same key and IVs come from equal chunks: each decrypts to its own. */
  lemma BlobsDetermineChunks(env: Env, e: EncoderState, e': EncoderState, m: nat)
    requires Sane(env) && Ready(env, e, ChunksOf(e.src)) && Ready(env, e', ChunksOf(e'.src)) && e'.sd.key == e.sd.key
    requires m <= |ChunksOf(e.src)| && m <= |ChunksOf(e'.src)|
    requires forall k: nat :: k < m ==> IvAt(env, e', k) == IvAt(env, e, k)
    ensures var c, c' := ChunksOf(e.src), ChunksOf(e'.src);
            BlobsOf(env, e', c')[..m] == BlobsOf(env, e, c)[..m] <==> c'[..m] == c[..m]
  {
    var c, c' := ChunksOf(e.src), ChunksOf(e'.src);
    var b, b' := BlobsOf(env, e, c), BlobsOf(env, e', c');
    forall k: nat | k < m ensures b[k] == b'[k] <==> c[k] == c'[k] {
      BlobShape(env, e, k);
      BlobShape(env, e', k);
    }
    PrefixesAgree(b', b, m);
    PrefixesAgree(c', c, m);
  }

  lemma PrefixesAgree<T>(a: seq<T>, b: seq<T>, m: nat)
    requires m <= |a| && m <= |b|
    ensures a[..m] == b[..m] <==> forall k: nat :: k < m ==> a[k] == b[k]
  {
    var x, y := a[..m], b[..m];
    if x == y {
      forall k: nat | k < m ensures a[k] == b[k] { assert x[k] == y[k]; }
    }
  }

  predicate SameStream(env: Env, e: EncoderState, e': EncoderState) { Stream(env, e') == Stream(env, e) }

  predicate SameReads(src: seq<Read>, src': seq<Read>) { ChunksOf(src') == ChunksOf(src) && LastOf(src').AtEnd? }

  /**
    Encoding from the whole descriptor yields the identical stream exactly when the reader delivers the chunks of the
    original one and ends without a failure.
  */
  lemma ReconstructionIff(env: Env, e: EncoderState, src: seq<Read>, drawn: nat, e': EncoderState)
    requires Sane(env) && Fresh(e) && Stream(env, e).Ok? && e' == Again(env, e, src, |ChunksOf(e.src)| + 1, drawn)
    ensures SameStream(env, e, e') <==> SameReads(e.src, src)
  {
    AgainRebuilds(env, e, src, drawn);
    RebuildIff(env, e, e', src);
  }

  /** e' reads src with e's key, names and IVs, up to that of e's terminator. */
  ghost predicate Rebuilds(env: Env, e: EncoderState, e': EncoderState, src: seq<Read>) {
    && e'.sd == e.sd && e'.src == src
    && forall k: nat :: k <= |ChunksOf(e.src)| ==> IvAt(env, e', k) == IvAt(env, e, k)
  }

  lemma AgainRebuilds(env: Env, e: EncoderState, src: seq<Read>, drawn: nat)
    requires Fresh(e)
    ensures Rebuilds(env, e, Again(env, e, src, |ChunksOf(e.src)| + 1, drawn), src)
  {
    AgainMaterial(env, e, src, |ChunksOf(e.src)| + 1, drawn);
  }

  lemma RebuildIff(env: Env, e: EncoderState, e': EncoderState, src: seq<Read>)
    requires Sane(env) && e.sd.blobInfos == [] && Stream(env, e).Ok? && Rebuilds(env, e, e', src)
    ensures SameStream(env, e, e') <==> SameReads(e.src, src)
  {
    StreamIs(env, e);
    StreamIs(env, e');
    if ChunksOf(e'.src) == ChunksOf(e.src) {
      SameMaterial(env, e, e', ChunksOf(e.src));
      assert Final(env, e') == Final(env, e);
    } else if Stream(env, e') == Stream(env, e) {
      SameStreamSameChunks(env, e, e');
    }
  }

  lemma SameStreamSameChunks(env: Env, e: EncoderState, e': EncoderState)
    requires Sane(env) && Ready(env, e, ChunksOf(e.src)) && Ready(env, e', ChunksOf(e'.src)) && e'.sd.key == e.sd.key
    requires Encoding(env, e) == Encoding(env, e')
    requires forall k: nat :: k < |ChunksOf(e.src)| ==> IvAt(env, e', k) == IvAt(env, e, k)
    ensures ChunksOf(e.src) == ChunksOf(e'.src)
  {
    var c, c' := ChunksOf(e.src), ChunksOf(e'.src);
    var b, b' := BlobsOf(env, e, c), BlobsOf(env, e', c');
    assert b == Encoding(env, e)[1..] == b';
    assert |c| == |b| == |b'| == |c'|;
    BlobsDetermineChunks(env, e, e', |c|);
    assert c[..|c|] == c && c'[..|c|] == c';
  }

  /**
    End to end: encoding the decoded file from the descriptor blob, with a reader that fills the buffer, returns the
    stream exactly when the original reader filled the buffer on every read but the last.
  */
  lemma FullReadsReconstructIff(env: Env, e: EncoderState, s: seq<Bytes>, drawn: nat)
    requires Sane(env) && Fresh(e) && Stream(env, e) == Ok(s) && Decode(env, s).Ok?
    ensures var file, sd := Decode(env, s).value, env.fromJson(s[0]).value;
            Stream(env, EncoderFromSD(FullReads(file), sd, drawn)) == Ok(s) <==> FullChunks(ChunksOf(e.src))
  {
    var src := FullReads(Concat(ChunksOf(e.src)));
    DecodeStream(env, e);
    DescriptorOf(env, e, s);
    WholeDescriptor(env, e, src, drawn);
    FullReadsAgainIff(env, e, src, drawn, Again(env, e, src, |ChunksOf(e.src)| + 1, drawn));
  }

  lemma FullReadsAgainIff(env: Env, e: EncoderState, src: seq<Read>, drawn: nat, e': EncoderState)
    requires Sane(env) && Fresh(e) && Stream(env, e).Ok? && e' == Again(env, e, src, |ChunksOf(e.src)| + 1, drawn)
    requires src == FullReads(Concat(ChunksOf(e.src)))
    ensures SameStream(env, e, e') <==> FullChunks(ChunksOf(e.src))
  {
    FullReadsAreFull(Concat(ChunksOf(e.src)));
    ReconstructionIff(env, e, src, drawn, e');
    if FullChunks(ChunksOf(e.src)) { FullChunksUnique(ChunksOf(src), ChunksOf(e.src)); }
  }

  lemma DescriptorOf(env: Env, e: EncoderState, s: seq<Bytes>)
    requires Sane(env) && Fresh(e) && Stream(env, e) == Ok(s)
    ensures |s| > 0 && env.fromJson(s[0]) == Ok(Sealed(env, Final(env, e)))
  {
    StreamIs(env, e);
  }

  lemma WholeDescriptor(env: Env, e: EncoderState, src: seq<Read>, drawn: nat)
    requires Fresh(e)
    ensures Again(env, e, src, |ChunksOf(e.src)| + 1, drawn) == EncoderFromSD(src, Sealed(env, Final(env, e)), drawn)
  {
    var sd := Sealed(env, Final(env, e));
    assert sd.blobInfos[..|ChunksOf(e.src)| + 1] == sd.blobInfos;
  }

  /**
    From the first m infos alone, for any reader without empty chunks: the first m content blobs come out the same
    exactly when the first m chunks are the same.
  */
  lemma PrefixReconstructsIff(env: Env, e: EncoderState, src: seq<Read>, m: nat, drawn: nat)
    requires Sane(env) && Fresh(e) && Stream(env, e).Ok? && KeyOK(e.sd.key)
    requires NoEmptyChunk(src) && LastOf(src).AtEnd? && m <= |ChunksOf(e.src)| && m <= |ChunksOf(src)|
    ensures var r := Stream(env, Again(env, e, src, m, drawn));
            && r.Ok? && |r.value| == |ChunksOf(src)| + 1 && |Stream(env, e).value| == |ChunksOf(e.src)| + 1
            && (r.value[1..m + 1] == Stream(env, e).value[1..m + 1] <==> ChunksOf(src)[..m] == ChunksOf(e.src)[..m])
  {
    var e' := Again(env, e, src, m, drawn);
    StreamIs(env, e);
    StreamIs(env, e');
    AgainMaterial(env, e, src, m, drawn);
    AgainReady(env, e, src, m, drawn);
    BlobsDetermineChunks(env, e, e', m);
    EncodingPrefix(env, e, m);
    EncodingPrefix(env, e', m);
  }

  lemma EncodingPrefix(env: Env, e: EncoderState, m: nat)
    requires m <= |ChunksOf(e.src)|
    ensures |Encoding(env, e)| == |ChunksOf(e.src)| + 1
    ensures Encoding(env, e)[1..m + 1] == BlobsOf(env, e, ChunksOf(e.src))[..m]
  {
  }

  lemma AgainReady(env: Env, e: EncoderState, src: seq<Read>, m: nat, drawn: nat)
    requires Sane(env) && Fresh(e) && Ready(env, e, ChunksOf(e.src)) && KeyOK(e.sd.key)
    requires NoEmptyChunk(src) && m <= |ChunksOf(e.src)|
    ensures Ready(env, Again(env, e, src, m, drawn), ChunksOf(src))
  {
    var e' := Again(env, e, src, m, drawn);
    AgainMaterial(env, e, src, m, drawn);
    forall k: nat ensures |IvAt(env, e', k)| == BLOCK {
      if k < m { assert ChunkOK(env, e, ChunksOf(e.src)[k], k); }
    }
  }
}
