/** `generateSignatureForMiddleware`: HMAC-SHA256 of the UTF-8 bytes of a
    string, keyed by the UTF-8 bytes of the secret, rendered as lower-case
    hexadecimal. The Web Crypto primitives and `TextEncoder` are foreign code,
    so they are supplied as functions. */
module Signer {
  import opened Wrappers
  import opened HexEncoding

  /** Bytes in an HMAC-SHA256 tag (the SHA-256 output size). */
  const DigestLength: nat := 32

  /** A MAC as returned by `crypto.subtle.sign('HMAC', ...)` with SHA-256. */
  type Digest = s: seq<byte> | |s| == DigestLength witness seq(DigestLength, _ => 0)

  /** The foreign primitives the signer relies on: `TextEncoder.encode` and
      HMAC-SHA256 keyed by its first argument over its second. */
  datatype WebCrypto = WebCrypto(
    encode: string -> seq<byte>,
    hmacSha256: (seq<byte>, seq<byte>) -> Digest)

  /** The MAC over `data` under `secret`, both first encoded as UTF-8. */
  function Mac(crypto: WebCrypto, data: string, secret: string): Digest {
    crypto.hmacSha256(crypto.encode(secret), crypto.encode(data))
  }

  /** The signature string: 64 lower-case hexadecimal digits which read back
      as exactly the MAC bytes. */
  function GenerateSignature(crypto: WebCrypto, data: string, secret: string): (signature: string)
    ensures |signature| == 2 * DigestLength
    ensures IsLowerHex(signature)
    ensures Decode(signature) == Some(Mac(crypto, data, secret))
  {
    var signature := Encode(Mac(crypto, data, secret));
    DecodeEncode(Mac(crypto, data, secret));
    signature
  }

  /** Two signatures agree exactly when the MACs behind them agree: the hex
      step neither hides nor introduces collisions. */
  lemma SignatureMatchesMac(crypto: WebCrypto, data1: string, secret1: string, data2: string, secret2: string)
    ensures GenerateSignature(crypto, data1, secret1) == GenerateSignature(crypto, data2, secret2)
        <==> Mac(crypto, data1, secret1) == Mac(crypto, data2, secret2)
  {
    EncodeInjective(Mac(crypto, data1, secret1), Mac(crypto, data2, secret2));
  }
}
