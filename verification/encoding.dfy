/** `XSStrikeEngine.encode_payload`: the payload as `base64` text of its
    UTF-8 bytes when the encoding is `"base64"`, unchanged otherwise. */
module PayloadEncoding {
  import opened Wrappers
  import Utf8
  import Base64

  const Base64Name := "base64"

  function EncodePayload(payload: string, encoding: string): (r: string)
    ensures encoding != Base64Name ==> r == payload
    ensures encoding == Base64Name ==> Base64.Decode(r).Some?
    ensures encoding == Base64Name ==> |r| % 4 == 0
  {
    if encoding == Base64Name then
      var bytes := Utf8.Encode(payload);
      Base64.DecodeEncode(bytes);
      Base64.EncodeLength(bytes);
      Base64.Encode(bytes)
    else payload
  }

  /** Reading the encoded payload back — base 64 decoding followed by UTF-8
      decoding — gives the payload again, whatever the encoding. */
  function DecodePayload(text: string, encoding: string): Option<string>
  {
    if encoding == Base64Name then
      var bytes := Base64.Decode(text);
      if bytes.Some? then Utf8.Decode(bytes.value) else None
    else Some(text)
  }

  lemma {:induction false} DecodeEncodePayload(payload: string, encoding: string)
    ensures DecodePayload(EncodePayload(payload, encoding), encoding) == Some(payload)
  {
    if encoding == Base64Name {
      var bytes := Utf8.Encode(payload);
      Base64.DecodeEncode(bytes);
      Utf8.DecodeEncode(payload);
    }
  }

  /** Every text the decoder accepts is the encoding of exactly the payload it
      decodes to, so distinct payloads never share an encoding. */
  lemma {:induction false} EncodeDecodePayload(text: string, encoding: string)
    requires DecodePayload(text, encoding).Some?
    ensures EncodePayload(DecodePayload(text, encoding).value, encoding) == text
  {
    if encoding == Base64Name {
      var bytes := Base64.Decode(text).value;
      Utf8.EncodeDecode(bytes);
      Base64.EncodeDecode(text);
    }
  }

  lemma EncodePayloadInjective(p: string, q: string, encoding: string)
    requires EncodePayload(p, encoding) == EncodePayload(q, encoding)
    ensures p == q
  {
    DecodeEncodePayload(p, encoding);
    DecodeEncodePayload(q, encoding);
  }
}
