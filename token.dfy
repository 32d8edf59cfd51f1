/**
 * `pqc_encrypt` / `pqc_decrypt`: a Fernet token wrapped once more in
 * URL-safe base64 (section 5 of RFC 4648).
 *
 * Fernet is kept abstract: a pair of functions over a key, where
 * encryption also draws fresh entropy (an IV and the current time), and
 * decryption may refuse its input. `Sound` is the hypothesis every
 * authenticated cipher of this kind meets: decryption under the same key
 * inverts encryption, a ciphertext is never empty, and the empty string
 * is never accepted. UTF-8 encoding of the text is folded into the cipher.
 */
module Token {
  import opened Common
  import Base64Url

  type Key = Bytes

  /** What an encryption draws from the environment. */
  datatype Entropy = Entropy(iv: Bytes, issuedAt: int)

  datatype Fernet = Fernet(
    encrypt: (Key, Entropy, string) -> Bytes,
    decrypt: (Key, Bytes) -> Option<string>)

  ghost predicate Sound(f: Fernet) {
    (forall k, e, p :: f.decrypt(k, f.encrypt(k, e, p)) == Some(p) && |f.encrypt(k, e, p)| > 0)
    && forall k :: f.decrypt(k, []) == None
  }

  /** `pqc_encrypt`: the token is made only of the URL-safe alphabet and
      `=` padding, and its length is a multiple of 4. */
  function PqcEncrypt(f: Fernet, key: Key, entropy: Entropy, data: string): (token: string)
    ensures |token| % 4 == 0
    ensures forall i :: 0 <= i < |token| ==> Base64Url.IsSym(token[i]) || token[i] == Base64Url.Pad
  {
    var c := f.encrypt(key, entropy, data);
    Base64Url.EncodeAlphabet(c);
    Base64Url.EncodedLengthFormula(|c|);
    Base64Url.Encode(c)
  }

  /** `pqc_decrypt`: base64url-decode the token, then Fernet-decrypt it;
      None stands for any exception raised by the decoder or by Fernet.
      With `canonical` false the decoder is the one the code calls, which
      ignores the bits that padding leaves unused; with `canonical` true it
      is the strict decoder of section 3.5 of RFC 4648. The strict version
      decrypts only exact encodings, and on those both versions hand the
      cipher the same ciphertext. */
  function PqcDecryptWith(f: Fernet, key: Key, token: string, canonical: bool): (r: Option<string>)
    ensures canonical && r.Some? ==>
      (Base64Url.Decode(token).Some? && Base64Url.Encode(Base64Url.Decode(token).value) == token)
    ensures Base64Url.Decode(token).Some? ==> r == f.decrypt(key, Base64Url.Decode(token).value)
  {
    var strict := Base64Url.Decode(token);
    var lenient := Base64Url.DecodeAsWritten(token);
    match Base64Url.DecodeWith(token, canonical)
    case None => None
    case Some(c) => f.decrypt(key, c)
  }

  /** `pqc_decrypt` as written. Wherever the strict version decrypts, it
      decrypts to the same text. */
  function PqcDecryptAsWritten(f: Fernet, key: Key, token: string): (r: Option<string>)
    ensures PqcDecrypt(f, key, token).Some? ==> r == PqcDecrypt(f, key, token)
  {
    PqcDecryptWith(f, key, token, false)
  }

  /** `pqc_decrypt` with the strict decoder: a token decrypts only if it is
      exactly the encoding of the Fernet ciphertext it carries. */
  function PqcDecrypt(f: Fernet, key: Key, token: string): (r: Option<string>)
    ensures r.Some? ==>
      (Base64Url.Decode(token).Some? && Base64Url.Encode(Base64Url.Decode(token).value) == token
       && f.decrypt(key, Base64Url.Decode(token).value) == r)
  {
    PqcDecryptWith(f, key, token, true)
  }

  /** Decryption under the same key gives back the encrypted text, with
      either decoder. */
  lemma PqcRoundTrip(f: Fernet, key: Key, entropy: Entropy, data: string)
    requires Sound(f)
    ensures PqcDecrypt(f, key, PqcEncrypt(f, key, entropy, data)) == Some(data)
    ensures PqcDecryptAsWritten(f, key, PqcEncrypt(f, key, entropy, data)) == Some(data)
  {
    var c := f.encrypt(key, entropy, data);
    Base64Url.DecodeEncode(c, true);
    Base64Url.DecodeEncode(c, false);
  }

  /** A token is never the empty string, and the empty string never
      decrypts. */
  lemma EmptyToken(f: Fernet, key: Key, entropy: Entropy, data: string)
    requires Sound(f)
    ensures PqcEncrypt(f, key, entropy, data) != ""
    ensures PqcDecrypt(f, key, "") == None
    ensures PqcDecryptAsWritten(f, key, "") == None
  {
    var c := f.encrypt(key, entropy, data);
    assert |c| > 0;
    assert Base64Url.DecodeWith("", true) == Some([]);
    assert Base64Url.DecodeWith("", false) == Some([]);
  }

  /** When the Fernet ciphertext's length is not a multiple of 3, the
      decryption as written accepts a second token, one character away from
      the issued one, as the same plaintext; the canonical decoder refuses it. */
  lemma AsWrittenAcceptsAlteredToken(f: Fernet, key: Key, entropy: Entropy, data: string)
    requires Sound(f) && |f.encrypt(key, entropy, data)| % 3 != 0
    ensures var c := f.encrypt(key, entropy, data);
      var t := Base64Url.TamperedEncoding(c);
      t != PqcEncrypt(f, key, entropy, data)
      && |t| == |PqcEncrypt(f, key, entropy, data)|
      && PqcDecryptAsWritten(f, key, t) == Some(data)
      && PqcDecrypt(f, key, t) == None
  {
    var c := f.encrypt(key, entropy, data);
    Base64Url.AsWrittenAcceptsTampered(c);
  }
}
