/** The library calls the core makes but does not implement, as values of function type: Ed25519
    key derivation and signing (tweetnacl), SHA-256 (node:crypto), UTF-8 encoding (TextEncoder)
    and base64 in both directions (Buffer). Each is uninterpreted. The types record the 32-byte public key and digest, the 64-byte secret
    key, and that a signed message is at least 64 bytes long; the encodings carry no length. */
module Primitives {
  import opened Common

  type Bytes32 = s: seq<byte> | |s| == 32 witness seq(32, _ => 0)
  type Bytes64 = s: seq<byte> | |s| == 64 witness seq(64, _ => 0)

  /** What `nacl.sign` returns, the 64-byte detached signature followed by the message; only the
      lower bound on its length is recorded, not that it is exactly 64 bytes longer than the
      message nor that its first 64 bytes are the signature. */
  type SignedMessage = s: seq<byte> | |s| >= 64 witness seq(64, _ => 0)

  /** An Ed25519 key pair as tweetnacl returns it. */
  datatype KeyPair = KeyPair(publicKey: Bytes32, secretKey: Bytes64)

  datatype Library = Library(
    fromSeed: Bytes32 -> KeyPair,                 // nacl.sign.keyPair.fromSeed
    fromSecretKey: Bytes64 -> KeyPair,            // nacl.sign.keyPair.fromSecretKey
    sha256: seq<byte> -> Bytes32,                 // crypto.createHash('sha256').update(..).digest()
    sign: (seq<byte>, Bytes64) -> SignedMessage,  // nacl.sign(message, secretKey)
    utf8: string -> seq<byte>,                    // new TextEncoder().encode
    base64: seq<byte> -> string,                  // Buffer.from(..).toString('base64')
    fromBase64: string -> seq<byte>)              // Buffer.from(.., 'base64'), which never throws
}
