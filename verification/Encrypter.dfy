/** The versioned token framing of `src/crypt/encrypter.rs`, over an abstract AEAD. */
module Encrypter {
  import opened Wrappers
  import opened Base64Url

  const NONCE_BYTES: nat := 24
  const TAG_BYTES: nat := 16

  /** The ASCII codes of "v1.". */
  const PREFIX: Bytes := [118, 49, 46]

  /** The cipher under one key and the fixed associated data: seal may refuse an oversized message. */
  datatype Cipher = Cipher(seal: (Bytes, Bytes) -> Option<Bytes>, open: (Bytes, Bytes) -> Option<Bytes>)

  /** All that is asked of the AEAD: a sealed message is one tag longer and opens to itself. */
  ghost predicate Correct(c: Cipher) {
    forall nonce, plain :: |nonce| == NONCE_BYTES && c.seal(nonce, plain).Some? ==>
      && |c.seal(nonce, plain).value| == |plain| + TAG_BYTES
      && c.open(nonce, c.seal(nonce, plain).value) == Some(plain)
  }

  datatype EncryptError = Rng | Oversized
  datatype DecryptError = UnknownVersion | Malformed | Authentication

  /** The one spelling of a nonce and a sealed message. */
  function Token(nonce: Bytes, sealed: Bytes): Bytes {
    PREFIX + Encode(nonce + sealed)
  }

  /** `encrypt`, given what the random number generator returned. */
  method Encrypt(c: Cipher, rng: Option<Bytes>, plain: Bytes) returns (r: Result<Bytes, EncryptError>)
    requires rng.Some? ==> |rng.value| == NONCE_BYTES
    ensures r.Err? && r.error.Rng? <==> rng.None?
    ensures r.Err? && r.error.Oversized? <==> rng.Some? && c.seal(rng.value, plain).None?
    ensures r.Ok? ==> r.value == Token(rng.value, c.seal(rng.value, plain).value)
  {
    if rng.None? {
      return Err(Rng);
    }
    var sealed := c.seal(rng.value, plain);
    if sealed.None? {
      return Err(Oversized);
    }
    var raw := rng.value;
    raw := raw + sealed.value;
    var body := EncodeText(raw);
    r := Ok(PREFIX + body);
  }

  /** `decrypt`: version tag, then base64url, then length, then the AEAD. */
  function Decrypt(c: Cipher, token: Bytes): Result<Bytes, DecryptError> {
    if !(PREFIX <= token) then Err(UnknownVersion)
    else
      match Decode(token[|PREFIX|..])
      case None => Err(Malformed)
      case Some(raw) =>
        if |raw| < NONCE_BYTES + TAG_BYTES then Err(Malformed)
        else
          match c.open(raw[..NONCE_BYTES], raw[NONCE_BYTES..])
          case None => Err(Authentication)
          case Some(plain) => Ok(plain)
  }

  /** A token whose frame is intact: it spells a full nonce and at least a tag. */
  ghost predicate Framed(token: Bytes, nonce: Bytes, sealed: Bytes) {
    |nonce| == NONCE_BYTES && |sealed| >= TAG_BYTES && token == Token(nonce, sealed)
  }

  lemma DecodeToken(nonce: Bytes, sealed: Bytes)
    ensures PREFIX <= Token(nonce, sealed)
    ensures Decode(Token(nonce, sealed)[|PREFIX|..]) == Some(nonce + sealed)
  {
    DecodeEncode(nonce + sealed);
    assert Token(nonce, sealed)[|PREFIX|..] == Encode(nonce + sealed);
  }

  lemma DecryptFramed(c: Cipher, token: Bytes, nonce: Bytes, sealed: Bytes)
    requires Framed(token, nonce, sealed)
    ensures Decrypt(c, token) ==
      if c.open(nonce, sealed).Some? then Ok(c.open(nonce, sealed).value) else Err(Authentication)
  {
    DecodeToken(nonce, sealed);
    var raw := nonce + sealed;
    assert raw[..NONCE_BYTES] == nonce && raw[NONCE_BYTES..] == sealed;
  }

  /** Decryption undoes encryption, for every plaintext and every nonce. */
  lemma DecryptEncrypt(c: Cipher, nonce: Bytes, plain: Bytes)
    requires Correct(c) && |nonce| == NONCE_BYTES && c.seal(nonce, plain).Some?
    ensures Decrypt(c, Token(nonce, c.seal(nonce, plain).value)) == Ok(plain)
  {
    DecryptFramed(c, Token(nonce, c.seal(nonce, plain).value), nonce, c.seal(nonce, plain).value);
  }

  /** The frame of a token, when it has one. */
  lemma FrameOf(token: Bytes) returns (nonce: Bytes, sealed: Bytes)
    requires PREFIX <= token && Decode(token[|PREFIX|..]).Some?
    requires |Decode(token[|PREFIX|..]).value| >= NONCE_BYTES + TAG_BYTES
    ensures Framed(token, nonce, sealed)
  {
    var raw := Decode(token[|PREFIX|..]).value;
    EncodeDecode(token[|PREFIX|..]);
    nonce, sealed := raw[..NONCE_BYTES], raw[NONCE_BYTES..];
    assert nonce + sealed == raw;
    assert token == PREFIX + token[|PREFIX|..];
  }

  /** Two tokens with an intact frame are equal exactly when their nonces and sealed parts are. */
  lemma OneSpelling(n1: Bytes, s1: Bytes, n2: Bytes, s2: Bytes)
    requires |n1| == NONCE_BYTES && |n2| == NONCE_BYTES
    ensures Token(n1, s1) == Token(n2, s2) <==> n1 == n2 && s1 == s2
  {
    DecodeToken(n1, s1);
    DecodeToken(n2, s2);
    if Token(n1, s1) == Token(n2, s2) {
      assert n1 + s1 == n2 + s2;
      assert n1 == (n1 + s1)[..NONCE_BYTES] && n2 == (n2 + s2)[..NONCE_BYTES];
      assert s1 == (n1 + s1)[NONCE_BYTES..] && s2 == (n2 + s2)[NONCE_BYTES..];
    }
  }

  /** What decrypts is the unique spelling of a pair the AEAD opens. */
  lemma DecryptedTokens(c: Cipher, token: Bytes, plain: Bytes)
    ensures Decrypt(c, token) == Ok(plain) <==>
      exists nonce, sealed :: Framed(token, nonce, sealed) && c.open(nonce, sealed) == Some(plain)
  {
    if Decrypt(c, token) == Ok(plain) {
      var nonce, sealed := FrameOf(token);
      DecryptFramed(c, token, nonce, sealed);
    }
    forall nonce, sealed | Framed(token, nonce, sealed) && c.open(nonce, sealed) == Some(plain)
      ensures Decrypt(c, token) == Ok(plain)
    {
      DecryptFramed(c, token, nonce, sealed);
    }
  }

  /** The spelling of a body: canonical base64url of enough bytes. */
  ghost predicate WellShaped(body: Bytes) {
    && |body| % 4 != 1 && InAlphabet(body) && TrailingBitsZero(body)
    && |body| * 6 / 8 >= NONCE_BYTES + TAG_BYTES
  }

  lemma DecodedLength(text: Bytes)
    requires Decode(text).Some?
    ensures |Decode(text).value| == |text| * 6 / 8
  {
    EncodeDecode(text);
    EncodeLength(Decode(text).value);
  }

  /** Every token starts with the text `v1.`, and no text but a token's body follows. */
  lemma TokenStarts(nonce: Bytes, sealed: Bytes)
    ensures |Token(nonce, sealed)| >= 3 && Token(nonce, sealed)[..3] == ['v' as bv8, '1' as bv8, '.' as bv8]
    ensures Token(nonce, sealed)[3..] == Encode(nonce + sealed)
  {
  }

  /** The three errors partition the refused tokens: by prefix, by shape and length, by the AEAD. */
  lemma DecryptErrors(c: Cipher, token: Bytes)
    ensures Decrypt(c, token) == Err(UnknownVersion) <==> !(PREFIX <= token)
    ensures Decrypt(c, token) == Err(Malformed) <==> PREFIX <= token && !WellShaped(token[|PREFIX|..])
    ensures Decrypt(c, token) == Err(Authentication) <==>
      exists nonce, sealed :: Framed(token, nonce, sealed) && c.open(nonce, sealed).None?
  {
    if PREFIX <= token {
      var body := token[|PREFIX|..];
      AcceptedTexts(body);
      if Decode(body).Some? {
        DecodedLength(body);
      }
      if WellShaped(body) {
        var nonce, sealed := FrameOf(token);
        DecryptFramed(c, token, nonce, sealed);
      }
    }
    forall nonce, sealed | Framed(token, nonce, sealed) && c.open(nonce, sealed).None?
      ensures Decrypt(c, token) == Err(Authentication)
    {
      DecryptFramed(c, token, nonce, sealed);
    }
  }
}
