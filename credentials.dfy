/**
 * The credential record and its storable text form. The record is produced
 * by the external WebAuthn library and the text form by `encoding/json`;
 * both are opaque here, so the codec is a pair of functions supplied from
 * outside, and its round trip is a stated assumption (`RoundTrips`) that a
 * lemma must name in its `requires`.
 */
module Credentials {
  import opened Wrappers

  /** A `webauthn.Credential`. */
  type Credential(!new)

  /** `serializeCredential` and `deserializeCredential`; `None` is the error return. */
  datatype Codec = Codec(serialize: Credential -> Option<string>, deserialize: string -> Option<Credential>)

  /** Deserializing what was serialized gives the same credential back. */
  ghost predicate RoundTrips(codec: Codec) {
    forall c :: codec.serialize(c).Some? ==> codec.deserialize(codec.serialize(c).value) == Some(c)
  }

  /** The credentials decoded from stored keys, in order, with every key that fails to decode left out. */
  function DecodeAll(codec: Codec, keys: seq<string>): seq<Credential>
    decreases |keys|
  {
    if keys == [] then []
    else
      var rest := DecodeAll(codec, keys[..|keys| - 1]);
      match codec.deserialize(keys[|keys| - 1])
      case None => rest
      case Some(c) => rest + [c]
  }

  /** Decoding a concatenation decodes each part in turn: the order of the keys is kept. */
  lemma {:induction false} DecodeAllAppend(codec: Codec, a: seq<string>, b: seq<string>)
    ensures DecodeAll(codec, a + b) == DecodeAll(codec, a) + DecodeAll(codec, b)
    decreases |b|
  {
    if b == [] {
      assert a + b == a;
    } else {
      var b' := b[..|b| - 1];
      assert (a + b)[..|a + b| - 1] == a + b';
      assert (a + b)[|a + b| - 1] == b[|b| - 1];
      DecodeAllAppend(codec, a, b');
    }
  }

  /** A key that fails to decode is skipped and nothing else changes: the fetch is not aborted. */
  lemma SkipUndecodable(codec: Codec, a: seq<string>, k: string, b: seq<string>)
    requires codec.deserialize(k).None?
    ensures DecodeAll(codec, a + [k] + b) == DecodeAll(codec, a + b)
  {
    DecodeAllAppend(codec, a + [k], b);
    DecodeAllAppend(codec, a, [k]);
    DecodeAllAppend(codec, a, b);
    assert [k][..0] == [];
  }

  /** When every key decodes, the result has one credential per key, in the same positions. */
  lemma {:induction false} DecodeAllValid(codec: Codec, keys: seq<string>)
    requires forall i :: 0 <= i < |keys| ==> codec.deserialize(keys[i]).Some?
    ensures |DecodeAll(codec, keys)| == |keys|
    ensures forall i :: 0 <= i < |keys| ==> DecodeAll(codec, keys)[i] == codec.deserialize(keys[i]).value
    decreases |keys|
  {
    if keys != [] {
      DecodeAllValid(codec, keys[..|keys| - 1]);
    }
  }

  /** A credential is in the result exactly when some key decodes to it. */
  lemma {:induction false} DecodeAllMember(codec: Codec, keys: seq<string>, c: Credential)
    ensures c in DecodeAll(codec, keys) <==> exists i :: 0 <= i < |keys| && codec.deserialize(keys[i]) == Some(c)
    decreases |keys|
  {
    if keys != [] {
      var init := keys[..|keys| - 1];
      DecodeAllMember(codec, init, c);
      if exists i :: 0 <= i < |init| && codec.deserialize(init[i]) == Some(c) {
        var i :| 0 <= i < |init| && codec.deserialize(init[i]) == Some(c);
        assert keys[i] == init[i];
      }
      if exists i :: 0 <= i < |keys| && codec.deserialize(keys[i]) == Some(c) {
        var i :| 0 <= i < |keys| && codec.deserialize(keys[i]) == Some(c);
        if i < |init| {
          assert init[i] == keys[i];
        }
      }
    }
  }

  /** The result never has more credentials than there are keys. */
  lemma {:induction false} DecodeAllLength(codec: Codec, keys: seq<string>)
    ensures |DecodeAll(codec, keys)| <= |keys|
    decreases |keys|
  {
    if keys != [] {
      DecodeAllLength(codec, keys[..|keys| - 1]);
    }
  }
}
