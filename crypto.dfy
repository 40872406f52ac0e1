/**
  The library calls the ledger relies on, left uninterpreted: the model is
  parametric in them and proves nothing that depends on what they compute.
 */
module Crypto {
  import opened JsonValue

  /**
    What happens when a signature is checked: `rsa.PublicKey.load_pkcs1`,
    `bytes.fromhex` and `rsa.verify` either succeed, raise
    `rsa.VerificationError` (a signature that does not match), or raise some
    other exception (a key or hex string that cannot be parsed).
   */
  datatype SigOutcome = Verified | Mismatch | Malformed

  /**
    - `canonical`: `json.dumps(v, sort_keys=True, separators=(",", ":"))`.
      Keys of a `map` carry no order, so two dictionaries that differ only in
      insertion order are the same `Json` value and encode identically.
    - `sha256Hex`: `hashlib.sha256(s.encode()).hexdigest()`.
    - `rsaVerify(publicKeyPem, message, signatureHex)`: RSA PKCS#1 v1.5
      verification of `message` under the PEM-encoded key.
   */
  datatype Primitives = Primitives(
    canonical: Json -> string,
    sha256Hex: string -> string,
    rsaVerify: (string, string, string) -> SigOutcome)
}
