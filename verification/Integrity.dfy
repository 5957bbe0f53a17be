/** What the decoder accepts, and what its hashes bind (stream/stream.go, stream/sdBlob.go). */
module Integrity {
  import opened Results
  import opened Blobs
  import opened Streams

  // ---------------------------------------------------------------------------
  // Exactly what is accepted
  // ---------------------------------------------------------------------------

  /** Content blob k is the one that info k names, and decrypts under its IV. */
  predicate BlobFits(env: Env, sd: SDBlob, s: seq<Bytes>, k: nat)
    requires k < |sd.blobInfos| && k + 1 < |s|
  {
    var info, blob := sd.blobInfos[k], s[k + 1];
    && info.length != 0 && info.blobNum == k
    && blob != [] && env.sha(blob) == info.blobHash
    && Plaintext(env.cipher, blob, sd.key, info.iv).Ok?
  }

  function PlaintextAt(env: Env, sd: SDBlob, s: seq<Bytes>, k: nat): Bytes
    requires k < |sd.blobInfos| && k + 1 < |s|
  {
    var p := Plaintext(env.cipher, s[k + 1], sd.key, sd.blobInfos[k].iv);
    if p.Ok? then p.value else []
  }

  function Plaintexts(env: Env, sd: SDBlob, s: seq<Bytes>): seq<Bytes>
    requires 0 < |s| == |sd.blobInfos|
  {
    seq(|s| - 1, k requires 0 <= k < |s| - 1 => PlaintextAt(env, sd, s, k))
  }

  /** There is nothing to decrypt in an empty blob. */
  lemma EmptyBlobFails(c: Cipher, key: Bytes, iv: Bytes)
    ensures Plaintext(c, [], key, iv).Err?
  {
  }

  lemma {:induction false} DecodesFromIff(env: Env, sd: SDBlob, s: seq<Bytes>, i: nat)
    requires i < |s| == |sd.blobInfos| && sd.blobInfos[|s| - 1].length == 0
    ensures var r := DecodeFrom(env, sd, s, i);
            && (r.Ok? <==> forall k :: i <= k < |s| - 1 ==> BlobFits(env, sd, s, k))
            && (r.Ok? ==> r.value == Concat(Plaintexts(env, sd, s)[i..]))
    decreases |s| - i
  {
    if i < |s| - 1 {
      DecodesOne(env, sd, s, i);
      DecodesFromIff(env, sd, s, i + 1);
      if BlobFits(env, sd, s, i) && DecodeFrom(env, sd, s, i + 1).Ok? {
        forall k | i <= k < |s| - 1 ensures BlobFits(env, sd, s, k) {}
      }
      assert Plaintexts(env, sd, s)[i..][1..] == Plaintexts(env, sd, s)[i + 1..];
    }
  }

  /** One turn of the loop. */
  lemma DecodesOne(env: Env, sd: SDBlob, s: seq<Bytes>, i: nat)
    requires i < |s| - 1 && |s| == |sd.blobInfos|
    ensures var r, rest := DecodeFrom(env, sd, s, i), DecodeFrom(env, sd, s, i + 1);
            && (r.Ok? <==> BlobFits(env, sd, s, i) && rest.Ok?)
            && (r.Ok? ==> r.value == PlaintextAt(env, sd, s, i) + rest.value)
  {
    EmptyBlobFails(env.cipher, sd.key, sd.blobInfos[i].iv);
  }

  /** The descriptor is consistent with itself and with the number of blobs. */
  predicate DescriptorFits(env: Env, sd: SDBlob, s: seq<Bytes>) {
    && sd.streamHash == env.sha(StreamText(env, sd))
    && |sd.blobInfos| == |s| > 0 && sd.blobInfos[|s| - 1].length == 0
  }

  /**
    `Decode` accepts exactly the streams whose descriptor fits, with one zero-length info at the end, and whose content
    blobs are those it names, in order; and returns their plaintexts one after the other.
  */
  lemma DecodeIff(env: Env, s: seq<Bytes>, data: Bytes)
    ensures Decode(env, s) == Ok(data) <==>
            && |s| >= 2 && env.fromJson(s[0]).Ok?
            && var sd := env.fromJson(s[0]).value;
               && DescriptorFits(env, sd, s)
               && (forall k :: 0 <= k < |s| - 1 ==> BlobFits(env, sd, s, k))
               && data == Concat(Plaintexts(env, sd, s))
  {
    if |s| >= 2 && env.fromJson(s[0]).Ok? && DescriptorFits(env, env.fromJson(s[0]).value, s) {
      var sd := env.fromJson(s[0]).value;
      DecodesFromIff(env, sd, s, 0);
      assert Plaintexts(env, sd, s)[0..] == Plaintexts(env, sd, s);
    }
  }

  // ---------------------------------------------------------------------------
  // Same hash, same stream
  // ---------------------------------------------------------------------------

  /** Two different byte strings with the same hash. */
  predicate Collide(env: Env, a: Bytes, b: Bytes) { a != b && env.sha(a) == env.sha(b) }

  /** Two accepted streams whose descriptors have the same hash are the same stream, or contain a hash collision. */
  lemma SameStream(env: Env, s: seq<Bytes>, s': seq<Bytes>)
    requires Decode(env, s).Ok? && Decode(env, s').Ok? && env.sha(s[0]) == env.sha(s'[0])
    ensures s == s' || exists k :: 0 <= k < |s| && k < |s'| && Collide(env, s[k], s'[k])
  {
    DecodeIff(env, s, Decode(env, s).value);
    DecodeIff(env, s', Decode(env, s').value);
    if s[0] != s'[0] {
      assert Collide(env, s[0], s'[0]);
    } else {
      var sd := env.fromJson(s[0]).value;
      forall k | 1 <= k < |s| ensures s[k] == s'[k] || Collide(env, s[k], s'[k]) {
        assert BlobFits(env, sd, s, k - 1) && BlobFits(env, sd, s', k - 1);
      }
    }
  }

  // ---------------------------------------------------------------------------
  // What the stream hash covers
  // ---------------------------------------------------------------------------

  /** The text forms are injective, hexadecimal has two characters a byte, and hashes have 48 bytes. */
  ghost predicate TextForms(env: Env) {
    && (forall x :: |env.sha(x)| == 48)
    && (forall b :: |env.hex(b)| == 2 * |b|)
    && (forall a, b :: env.hex(a) == env.hex(b) ==> a == b)
    && (forall a, b :: env.itoa(a) == env.itoa(b) ==> a == b)
  }

  /** Numbered in order, with whole-block IVs and full hashes, and only the last info empty. */
  predicate Regular(sd: SDBlob) {
    && sd.blobInfos != []
    && forall k :: 0 <= k < |sd.blobInfos| ==>
         var info := sd.blobInfos[k];
         && info.blobNum == k && |info.iv| == BLOCK
         && (info.length == 0 <==> k == |sd.blobInfos| - 1)
         && (info.length != 0 ==> |info.blobHash| == 48)
  }

  /** Everything of an info that its hash covers; the hash of an empty blob is not. */
  predicate SameInfo(a: BlobInfo, b: BlobInfo) {
    a.length == b.length && a.blobNum == b.blobNum && a.iv == b.iv && (a.length > 0 ==> a.blobHash == b.blobHash)
  }

  lemma Pieces(a: Bytes, b: Bytes, a': Bytes, b': Bytes)
    requires a + b == a' + b' && (|a| == |a'| || |b| == |b'|)
    ensures a == a' && b == b'
  {
    assert |a + b| == |a| + |b| && |a' + b'| == |a'| + |b'|;
    assert a == (a + b)[..|a|] && b == (a + b)[|a|..];
    assert a' == (a' + b')[..|a'|] && b' == (a' + b')[|a'|..];
  }

  lemma InfoTextBinds(env: Env, a: BlobInfo, b: BlobInfo)
    requires TextForms(env) && InfoText(env, a) == InfoText(env, b)
    requires a.blobNum == b.blobNum && |a.iv| == |b.iv| && (a.length == 0 <==> b.length == 0)
    requires a.length != 0 ==> |a.blobHash| == |b.blobHash|
    ensures SameInfo(a, b)
  {
    var ha, hb := if a.length > 0 then env.hex(a.blobHash) else [], if b.length > 0 then env.hex(b.blobHash) else [];
    assert |ha| == |hb|;
    Pieces(ha + env.itoa(a.blobNum) + env.hex(a.iv), env.itoa(a.length),
           hb + env.itoa(b.blobNum) + env.hex(b.iv), env.itoa(b.length));
    Pieces(ha + env.itoa(a.blobNum), env.hex(a.iv), hb + env.itoa(b.blobNum), env.hex(b.iv));
    Pieces(ha, env.itoa(a.blobNum), hb, env.itoa(b.blobNum));
  }

  lemma {:induction false} InfoHashesLength(env: Env, infos: seq<BlobInfo>)
    requires TextForms(env)
    ensures |InfoHashes(env, infos)| == 48 * |infos|
  {
    if infos != [] { InfoHashesLength(env, infos[..|infos| - 1]); }
  }

  lemma {:induction false} InfoHashesBind(env: Env, a: seq<BlobInfo>, b: seq<BlobInfo>, k: nat)
    requires TextForms(env) && InfoHashes(env, a) == InfoHashes(env, b) && k < |a|
    ensures |a| == |b| && InfoHash(env, a[k]) == InfoHash(env, b[k])
    decreases |a|
  {
    var n := |a| - 1;
    InfoHashesLength(env, a);
    InfoHashesLength(env, b);
    Pieces(InfoHashes(env, a[..n]), InfoHash(env, a[n]), InfoHashes(env, b[..n]), InfoHash(env, b[n]));
    if k < n { InfoHashesBind(env, a[..n], b[..n], k); }
  }

  /** A hash collision among what the two stream hashes are computed from. */
  predicate CollisionBetween(env: Env, sd: SDBlob, sd': SDBlob) {
    || Collide(env, StreamText(env, sd), StreamText(env, sd'))
    || Collide(env, InfoHashes(env, sd.blobInfos), InfoHashes(env, sd'.blobInfos))
    || exists k :: 0 <= k < |sd.blobInfos| && k < |sd'.blobInfos|
                   && Collide(env, InfoText(env, sd.blobInfos[k]), InfoText(env, sd'.blobInfos[k]))
  }

  /** Two descriptors say the same of their blobs; of key and names, what the hash sees is the same text. */
  predicate SameCovered(env: Env, sd: SDBlob, sd': SDBlob) {
    && |sd.blobInfos| == |sd'.blobInfos|
    && (forall k :: 0 <= k < |sd.blobInfos| ==> SameInfo(sd.blobInfos[k], sd'.blobInfos[k]))
    && HeadText(env, sd) == HeadText(env, sd')
  }

  /** Regular descriptors have the same stream hash exactly when they agree on all of that, or else a hash collides. */
  lemma StreamHashBinds(env: Env, sd: SDBlob, sd': SDBlob)
    requires TextForms(env) && Regular(sd) && Regular(sd') && !CollisionBetween(env, sd, sd')
    ensures ComputeStreamHash(env, sd) == ComputeStreamHash(env, sd') <==> SameCovered(env, sd, sd')
  {
    var a, b := sd.blobInfos, sd'.blobInfos;
    if ComputeStreamHash(env, sd) == ComputeStreamHash(env, sd') {
      Pieces(HeadText(env, sd), env.sha(InfoHashes(env, a)), HeadText(env, sd'), env.sha(InfoHashes(env, b)));
      InfoHashesBind(env, a, b, 0);
      forall k | 0 <= k < |a| ensures SameInfo(a[k], b[k]) {
        InfoHashesBind(env, a, b, k);
        assert !Collide(env, InfoText(env, a[k]), InfoText(env, b[k]));
        InfoTextBinds(env, a[k], b[k]);
      }
    }
    if SameCovered(env, sd, sd') { SameInfosSameHashes(env, a, b); }
  }

  lemma {:induction false} SameInfosSameHashes(env: Env, a: seq<BlobInfo>, b: seq<BlobInfo>)
    requires |a| == |b| && forall k :: 0 <= k < |a| ==> SameInfo(a[k], b[k])
    ensures InfoHashes(env, a) == InfoHashes(env, b)
  {
    if a != [] {
      var n := |a| - 1;
      SameInfosSameHashes(env, a[..n], b[..n]);
      assert SameInfo(a[n], b[n]);
    }
  }

  /** With keys and names of the same lengths the covered text determines them. */
  lemma HeadTextBinds(env: Env, sd: SDBlob, sd': SDBlob)
    requires TextForms(env) && HeadText(env, sd) == HeadText(env, sd')
    requires |sd.key| == |sd'.key| && |env.text(sd.streamName)| == |env.text(sd'.streamName)|
    ensures sd.key == sd'.key && env.text(sd.streamName) == env.text(sd'.streamName)
    ensures env.text(sd.suggestedFileName) == env.text(sd'.suggestedFileName)
  {
    var n, k, f := env.hex(env.text(sd.streamName)), env.hex(sd.key), env.hex(env.text(sd.suggestedFileName));
    var n', k', f' := env.hex(env.text(sd'.streamName)), env.hex(sd'.key), env.hex(env.text(sd'.suggestedFileName));
    Pieces(n + k, f, n' + k', f');
    Pieces(n, k, n', k');
  }

  /** Without, it does not: a byte moved from the end of the name to the front of the key leaves the hash as it is. */
  lemma NameAndKeyRunTogether(env: Env, sd: SDBlob, sd': SDBlob)
    requires forall a, b :: env.hex(a + b) == env.hex(a) + env.hex(b)
    requires env.text(sd.streamName) + sd.key == env.text(sd'.streamName) + sd'.key
    requires sd.suggestedFileName == sd'.suggestedFileName && sd.blobInfos == sd'.blobInfos
    ensures ComputeStreamHash(env, sd) == ComputeStreamHash(env, sd')
  {
    var n, n' := env.text(sd.streamName), env.text(sd'.streamName);
    assert env.hex(n + sd.key) == env.hex(n' + sd'.key);
  }
}
