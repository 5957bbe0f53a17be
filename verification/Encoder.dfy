/** The encoder object and the decoding loop as the program runs them (stream/stream.go, stream/sdBlob.go). */
module Encoder {
  import opened Results
  import opened Blobs
  import S = Streams

  class Encoder {
    const env: S.Env
    var src: seq<S.Read>
    var ivs: seq<Bytes>
    var drawn: nat
    var sd: S.SDBlob
    var srcLen: nat
    var srcData: Bytes

    function State(): S.EncoderState
      reads this
    {
      S.EncoderState(src, ivs, drawn, sd, srcLen, srcData)
    }

    /** `NewEncoderWithIVs` */
    constructor (env: S.Env, src: seq<S.Read>, key: Bytes, ivs: seq<Bytes>, drawn: nat)
      ensures this.env == env && State() == S.NewEncoder(src, key, ivs, drawn, "", "")
    {
      this.env, this.src, this.ivs, this.drawn := env, src, ivs, drawn;
      sd := S.SDBlob("", [], S.STREAM_TYPE, key, "", []);
      srcLen, srcData := 0, [];
    }

    /** `nextIV` */
    method NextIv() returns (iv: Bytes)
      modifies this`ivs, this`drawn
      ensures (iv, State()) == S.NextIv(env, old(State()))
    {
      if |ivs| == 0 {
        iv := env.random(drawn);
        drawn := drawn + 1;
      } else {
        iv := ivs[0];
        ivs := ivs[1..];
      }
    }

    /** `addBlob` on the descriptor under construction. */
    method AddBlob(blob: Bytes, iv: Bytes) returns (r: Result<(), Error>)
      modifies this`sd
      ensures r.Err? ==> S.AddBlob(env, old(sd), blob, iv) == Err(r.error) && sd == old(sd)
      ensures r.Ok? ==> S.AddBlob(env, old(sd), blob, iv) == Ok(sd)
    {
      if |iv| == 0 { return Err(EmptyIv); }
      sd := sd.(blobInfos := sd.blobInfos + [S.BlobInfo(|blob|, |sd.blobInfos|, S.HashOf(env, blob), iv)]);
      return Ok(());
    }

    /** `ensureTerminated` */
    method EnsureTerminated() returns (r: Result<(), Error>)
      modifies this`ivs, this`drawn, this`sd
      ensures (State(), r) == S.EnsureTerminated(env, old(State()))
    {
      if |sd.blobInfos| >= 1 && sd.blobInfos[|sd.blobInfos| - 1].length == 0 { return Ok(()); }
      var iv := NextIv();
      r := AddBlob([], iv);
      if r.Ok? { return Ok(()); }
    }

    /** `Next` */
    method Next() returns (r: Result<Bytes, Error>)
      modifies this
      ensures (State(), r) == S.Next(env, old(State()))
    {
      var read := S.AtEnd([]);
      if |src| > 0 { read, src := src[0], src[1..]; }
      match read
      case AtEnd(_) =>
        var t := EnsureTerminated();
        return Err(if t.Ok? then Eof else t.error);
      case Broken(_) =>
        return Err(ReadFailed);
      case Chunk(data) =>
        srcLen := srcLen + |data|;
        srcData := srcData + data;
        var iv := NextIv();
        r := NewBlob(env.cipher, data, sd.key, iv);
        if r.Err? { return; }
        var added := AddBlob(r.value, iv);
        if added.Err? { r := Err(added.error); }
    }

    /** The loop of `Stream`. */
    method Collect() returns (r: Result<seq<Bytes>, Error>)
      modifies this
      ensures (State(), r) == S.EncodeAll(env, old(State()))
    {
      ghost var start := State();
      var blobs := [];
      PrependNothing(S.EncodeAll(env, start));
      while true
        invariant S.EncodeAll(env, start) == Prepend(blobs, S.EncodeAll(env, State()))
        decreases |src|
      {
        ghost var now := State();
        EncodeAllStep(env, now);
        var b := Next();
        if b.Err? {
          assert blobs + [] == blobs;
          return if b.error == Eof then Ok(blobs) else Err(b.error);
        }
        PrependMore(blobs, b.value, S.EncodeAll(env, State()));
        blobs := blobs + [b.value];
      }
    }

    /** `Stream` */
    method Stream() returns (r: Result<seq<Bytes>, Error>)
      modifies this
      ensures r == S.Stream(env, old(State()))
      ensures r.Ok? ==> sd == S.Sealed(env, S.EncodeAll(env, old(State())).0.sd)
    {
      var blobs := Collect();
      if blobs.Err? { return blobs; }
      sd := S.Sealed(env, sd);
      return Ok([env.toJson(sd)] + blobs.value);
    }
  }

  /** One turn of the loop: it stops with `Next`'s error, or goes on with a shorter source. */
  lemma EncodeAllStep(env: S.Env, e: S.EncoderState)
    ensures var (e', b) := S.Next(env, e);
            match b
            case Err(x) => S.EncodeAll(env, e) == (e', if x == Eof then Ok([]) else Err(x))
            case Ok(blob) => S.EncodeAll(env, e) == Prepend([blob], S.EncodeAll(env, e')) && |e'.src| < |e.src|
  {
  }

  lemma PrependNothing(r: (S.EncoderState, Result<seq<Bytes>, Error>))
    ensures Prepend([], r) == r
  {
    if r.1.Ok? { assert [] + r.1.value == r.1.value; }
  }

  /** The outcome of the whole loop, given what it has collected and the outcome from here on. */
  function Prepend(blobs: seq<Bytes>, r: (S.EncoderState, Result<seq<Bytes>, Error>))
    : (S.EncoderState, Result<seq<Bytes>, Error>)
  {
    (r.0, if r.1.Ok? then Ok(blobs + r.1.value) else r.1)
  }

  lemma PrependMore(blobs: seq<Bytes>, b: Bytes, r: (S.EncoderState, Result<seq<Bytes>, Error>))
    ensures Prepend(blobs, Prepend([b], r)) == Prepend(blobs + [b], r)
  {
    if r.1.Ok? { assert blobs + ([b] + r.1.value) == blobs + [b] + r.1.value; }
  }

  /** `Decode` */
  method Decode(env: S.Env, s: seq<Bytes>) returns (r: Result<Bytes, Error>)
    ensures r == S.Decode(env, s)
  {
    if |s| < 2 { return Err(TooShort); }
    var parsed := env.fromJson(s[0]);
    if parsed.Err? { return Err(BadSdBlob); }
    var sd := parsed.value;
    if !S.IsValid(env, sd) { return Err(BadStreamHash); }
    var infos := sd.blobInfos;
    if |infos| == 0 { return Err(IndexOutOfRange); }
    if infos[|infos| - 1].length != 0 { return Err(NotTerminated); }
    if |s| - 1 != |infos| - 1 { return Err(BlobCountMismatch); }
    r := DecodeBlobs(env, sd, s);
  }

  /** The loop of `Decode`. */
  method DecodeBlobs(env: S.Env, sd: S.SDBlob, s: seq<Bytes>) returns (r: Result<Bytes, Error>)
    requires |sd.blobInfos| == |s| > 0 && sd.blobInfos[|s| - 1].length == 0
    ensures r == S.DecodeFrom(env, sd, s, 0)
  {
    var infos, file := sd.blobInfos, [];
    AfterNothing(S.DecodeFrom(env, sd, s, 0));
    for i := 0 to |infos|
      invariant S.DecodeFrom(env, sd, s, 0) == After(file, S.DecodeFrom(env, sd, s, i))
    {
      if infos[i].length == 0 {
        assert file + [] == file;
        return if i != |infos| - 1 then Err(EarlyTerminator) else Ok(file);
      }
      if infos[i].blobNum != i { return Err(OutOfOrder); }
      var blob := s[i + 1];
      if S.HashOf(env, blob) != infos[i].blobHash { return Err(HashMismatch); }
      var data := Plaintext(env.cipher, blob, sd.key, infos[i].iv);
      if data.Err? { return Err(data.error); }
      AfterMore(file, data.value, S.DecodeFrom(env, sd, s, i + 1));
      assert S.DecodeFrom(env, sd, s, i) == After(data.value, S.DecodeFrom(env, sd, s, i + 1));
      file := file + data.value;
    }
    assert file + [] == file;
    return Ok(file);
  }

  lemma AfterNothing(r: Result<Bytes, Error>)
    ensures After([], r) == r
  {
    if r.Ok? { assert [] + r.value == r.value; }
  }

  function After(file: Bytes, r: Result<Bytes, Error>): Result<Bytes, Error> { if r.Ok? then Ok(file + r.value) else r }

  lemma AfterMore(file: Bytes, data: Bytes, r: Result<Bytes, Error>)
    ensures After(file, After(data, r)) == After(file + data, r)
  {
    if r.Ok? { assert file + (data + r.value) == file + data + r.value; }
  }
}
