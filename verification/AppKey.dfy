/** Hexadecimal text, as `src/auth/csrf.rs` writes it and `src/crypt/key.rs` reads it. */
module Hex {
  import opened Wrappers
  import opened Text

  type Byte = x: int | 0 <= x < 256

  /** One hexadecimal digit, either case, as its value. */
  function HexDigit(code: int): Option<int> {
    if '0' as int <= code <= '9' as int then Some(code - '0' as int)
    else if 'a' as int <= code <= 'f' as int then Some(code - 'a' as int + 10)
    else if 'A' as int <= code <= 'F' as int then Some(code - 'A' as int + 10)
    else None
  }

  predicate IsHex(c: char) { HexDigit(c as int).Some? }

  predicate AllHex(s: string) { forall c <- s :: IsHex(c) }

  /** The table `hex_encode` indexes. */
  const DIGITS := "0123456789abcdef"

  /** The digit of a value. */
  function LowerDigit(v: int): (c: char)
    requires 0 <= v < 16
    ensures HexDigit(c as int) == Some(v)
  {
    if v < 10 then (v + '0' as int) as char else (v - 10 + 'a' as int) as char
  }

  lemma DigitTable(v: int)
    requires 0 <= v < 16
    ensures DIGITS[v] == LowerDigit(v)
  {
  }

  /** Lowercase hexadecimal, high nibble first. */
  function HexEncode(bytes: seq<Byte>): (s: string)
    ensures |s| == 2 * |bytes| && AllHex(s)
  {
    if bytes == [] then []
    else [LowerDigit(bytes[0] / 16), LowerDigit(bytes[0] % 16)] + HexEncode(bytes[1..])
  }

  lemma EncodeCons(byte: Byte, rest: seq<Byte>)
    ensures HexEncode([byte] + rest) == [LowerDigit(byte / 16), LowerDigit(byte % 16)] + HexEncode(rest)
  {
    assert ([byte] + rest)[1..] == rest;
  }

  /** Byte `i` is spelled at position `2 * i`, its high nibble first. */
  lemma {:induction false} EncodeAt(bytes: seq<Byte>, i: nat)
    requires i < |bytes|
    ensures HexEncode(bytes)[2 * i] == DIGITS[bytes[i] / 16] && HexEncode(bytes)[2 * i + 1] == DIGITS[bytes[i] % 16]
  {
    if i == 0 {
      DigitTable(bytes[0] / 16);
      DigitTable(bytes[0] % 16);
    } else {
      EncodeAt(bytes[1..], i - 1);
    }
  }

  /** `hex_encode`. */
  method EncodeLoop(bytes: seq<Byte>) returns (out: string)
    ensures out == HexEncode(bytes)
  {
    out := [];
    assert bytes[0..] == bytes;
    for i := 0 to |bytes|
      invariant HexEncode(bytes) == out + HexEncode(bytes[i..])
    {
      var pair := [DIGITS[bytes[i] / 16], DIGITS[bytes[i] % 16]];
      DigitTable(bytes[i] / 16);
      DigitTable(bytes[i] % 16);
      assert bytes[i..][1..] == bytes[i + 1..];
      assert out + (pair + HexEncode(bytes[i + 1..])) == (out + pair) + HexEncode(bytes[i + 1..]);
      out := out + pair;
    }
  }

  /** Pairs of digit codes to bytes; `None` as soon as one is not a digit. */
  function DecodePairs(codes: seq<int>): (r: Option<seq<Byte>>)
    requires |codes| % 2 == 0
    ensures r.Some? ==> 2 * |r.value| == |codes|
  {
    if codes == [] then Some([])
    else
      match (HexDigit(codes[0]), HexDigit(codes[1]), DecodePairs(codes[2..]))
      case (Some(high), Some(low), Some(rest)) => Some([high * 16 + low] + rest)
      case _ => None
  }

  lemma {:induction false} DecodePairsCondition(codes: seq<int>)
    requires |codes| % 2 == 0
    ensures DecodePairs(codes).Some? <==> forall code <- codes :: HexDigit(code).Some?
  {
    if codes != [] {
      DecodePairsCondition(codes[2..]);
      assert codes == [codes[0], codes[1]] + codes[2..];
    }
  }

  /** The decoding loop of `from_hex`. */
  method DecodeLoop(codes: seq<int>) returns (r: Option<seq<Byte>>)
    requires |codes| % 2 == 0
    ensures r == DecodePairs(codes)
  {
    var bytes: seq<Byte> := [];
    var rest := codes;
    assert DecodePairs(codes).Some? ==> [] + DecodePairs(codes).value == DecodePairs(codes).value;
    while rest != []
      invariant |rest| % 2 == 0
      invariant DecodePairs(codes) ==
        if DecodePairs(rest).Some? then Some(bytes + DecodePairs(rest).value) else None
      decreases |rest|
    {
      var high, low := HexDigit(rest[0]), HexDigit(rest[1]);
      if high.None? || low.None? {
        return None;
      }
      var byte: Byte := high.value * 16 + low.value;
      if DecodePairs(rest[2..]).Some? {
        assert bytes + ([byte] + DecodePairs(rest[2..]).value) == (bytes + [byte]) + DecodePairs(rest[2..]).value;
      }
      bytes := bytes + [byte];
      rest := rest[2..];
    }
    assert bytes + [] == bytes;
    r := Some(bytes);
  }

  function Codes(s: string): (r: seq<int>)
    ensures |r| == |s|
  {
    seq(|s|, i requires 0 <= i < |s| => s[i] as int)
  }

  /** Decoding inverts encoding on every byte string. */
  lemma {:induction false} DecodeEncode(bytes: seq<Byte>)
    ensures DecodePairs(Codes(HexEncode(bytes))) == Some(bytes)
  {
    if bytes != [] {
      var byte, rest := bytes[0], bytes[1..];
      DecodeEncode(rest);
      assert bytes == [byte] + rest;
      EncodeCons(byte, rest);
      var codes := Codes(HexEncode(bytes));
      assert codes[2..] == Codes(HexEncode(rest));
      assert HexDigit(codes[0]) == Some(byte / 16) && HexDigit(codes[1]) == Some(byte % 16);
      assert byte / 16 * 16 + byte % 16 == byte;
    }
  }

  /** Encoding what was decoded gives the text in lower case. */
  lemma {:induction false} EncodeDecode(s: string)
    requires |s| % 2 == 0 && AllHex(s)
    ensures DecodePairs(Codes(s)).Some?
    ensures HexEncode(DecodePairs(Codes(s)).value) == LowerAll(s)
  {
    if s != [] {
      EncodeDecode(s[2..]);
      assert IsHex(s[0]) && IsHex(s[1]);
      var rest := DecodePairs(Codes(s[2..])).value;
      DecodeCons(s, rest);
      EncodePair(s[0], s[1], rest);
      LowerCons(s);
    }
  }

  function PairValue(c: char, d: char): Byte
    requires IsHex(c) && IsHex(d)
  {
    HexDigit(c as int).value * 16 + HexDigit(d as int).value
  }

  lemma DecodeCons(s: string, rest: seq<Byte>)
    requires |s| >= 2 && |s| % 2 == 0 && IsHex(s[0]) && IsHex(s[1]) && DecodePairs(Codes(s[2..])) == Some(rest)
    ensures DecodePairs(Codes(s)) == Some([PairValue(s[0], s[1])] + rest)
  {
    assert Codes(s)[2..] == Codes(s[2..]);
  }

  lemma EncodePair(c: char, d: char, rest: seq<Byte>)
    requires IsHex(c) && IsHex(d)
    ensures HexEncode([PairValue(c, d)] + rest) == [Lower(c), Lower(d)] + HexEncode(rest)
  {
    EncodeCons(PairValue(c, d), rest);
    PairLower(c, d);
  }

  lemma LowerCons(s: string)
    requires |s| >= 2
    ensures LowerAll(s) == [Lower(s[0]), Lower(s[1])] + LowerAll(s[2..])
  {
  }

  lemma PairLower(c: char, d: char)
    requires IsHex(c) && IsHex(d)
    ensures LowerDigit(PairValue(c, d) / 16) == Lower(c) && LowerDigit(PairValue(c, d) % 16) == Lower(d)
  {
    LowerOfValue(c);
    LowerOfValue(d);
    Nibbles(HexDigit(c as int).value, HexDigit(d as int).value);
  }

  lemma Nibbles(high: int, low: int)
    requires 0 <= high < 16 && 0 <= low < 16
    ensures (high * 16 + low) / 16 == high && (high * 16 + low) % 16 == low
  {
  }

  lemma LowerOfValue(c: char)
    requires IsHex(c)
    ensures LowerDigit(HexDigit(c as int).value) == Lower(c)
  {
  }

  /** Case does not change what a digit means. */
  lemma {:induction false} DecodeIgnoresCase(s: string)
    requires |s| % 2 == 0 && AllHex(s)
    ensures DecodePairs(Codes(LowerAll(s))) == DecodePairs(Codes(s))
  {
    if s != [] {
      DecodeIgnoresCase(s[2..]);
      assert IsHex(s[0]) && IsHex(s[1]);
      assert Codes(s)[2..] == Codes(s[2..]);
      assert Codes(LowerAll(s))[2..] == Codes(LowerAll(s[2..]));
    }
  }
}

/** The application key of `src/crypt/key.rs`: reading it from hexadecimal, framing its subkeys. */
module AppKey {
  import opened Wrappers
  import opened Text
  import opened Hex

  const KEY_BYTES: nat := 64

  datatype AppKeyError = Empty | NotHexadecimal | WrongLength

  function Utf8Char(c: char): (r: seq<int>)
    ensures c as int < 0x80 ==> r == [c as int]
    ensures c as int >= 0x80 ==> |r| >= 2 && forall x <- r :: 0x80 <= x < 0x100
  {
    var u := c as int;
    if u < 0x80 then [u]
    else if u < 0x800 then [0xC0 + u / 0x40, 0x80 + u % 0x40]
    else if u < 0x1_0000 then [0xE0 + u / 0x1000, 0x80 + u / 0x40 % 0x40, 0x80 + u % 0x40]
    else [0xF0 + u / 0x4_0000, 0x80 + u / 0x1000 % 0x40, 0x80 + u / 0x40 % 0x40, 0x80 + u % 0x40]
  }

  /** The bytes of a string, which is what `len` counts and the loop reads. */
  function Utf8(s: string): seq<int> {
    if s == [] then [] else Utf8Char(s[0]) + Utf8(s[1..])
  }

  /** No byte of a multi-byte character is a hexadecimal digit, so bytes and characters agree. */
  lemma {:induction false} Utf8Hex(s: string)
    ensures (forall code <- Utf8(s) :: HexDigit(code).Some?) <==> AllHex(s)
    ensures AllHex(s) ==> Utf8(s) == Codes(s)
  {
    if s != [] {
      Utf8Hex(s[1..]);
      assert s == [s[0]] + s[1..];
      if s[0] as int >= 0x80 {
        assert Utf8Char(s[0])[0] in Utf8(s);
      } else {
        assert Utf8(s)[0] == s[0] as int;
        assert forall code :: code in Utf8(s) <==> code == s[0] as int || code in Utf8(s[1..]);
      }
      if AllHex(s) {
        assert IsHex(s[0]);
        assert Codes(s) == [s[0] as int] + Codes(s[1..]);
      }
    }
  }

  /** `from_hex`. */
  method FromHex(hex: string) returns (r: Result<seq<Byte>, AppKeyError>)
    ensures r == FromHexSpec(hex)
  {
    var digits := Trim(hex);
    if digits == [] {
      return Err(Empty);
    }
    if |Utf8(digits)| % 2 != 0 {
      return Err(NotHexadecimal);
    }
    var bytes := DecodeLoop(Utf8(digits));
    if bytes.None? {
      return Err(NotHexadecimal);
    }
    if |bytes.value| != KEY_BYTES {
      return Err(WrongLength);
    }
    r := Ok(bytes.value);
  }

  function FromHexSpec(hex: string): Result<seq<Byte>, AppKeyError> {
    var codes := Utf8(Trim(hex));
    if Trim(hex) == [] then Err(Empty)
    else if |codes| % 2 != 0 || DecodePairs(codes).None? then Err(NotHexadecimal)
    else if |DecodePairs(codes).value| != KEY_BYTES then Err(WrongLength)
    else Ok(DecodePairs(codes).value)
  }

  /** Exactly the strings that trim to 128 hexadecimal digits are keys, and each refusal has its cause. */
  lemma AcceptedKeys(hex: string)
    ensures FromHexSpec(hex).Ok? <==> |Trim(hex)| == 128 && AllHex(Trim(hex))
    ensures FromHexSpec(hex).Ok? <==> exists digits :: IsTrimOf(hex, digits) && |digits| == 128 && AllHex(digits)
    ensures FromHexSpec(hex) == Err(Empty) <==> Trim(hex) == []
    ensures FromHexSpec(hex) == Err(NotHexadecimal) <==>
      Trim(hex) != [] && (!AllHex(Trim(hex)) || |Trim(hex)| % 2 == 1)
    ensures FromHexSpec(hex) == Err(WrongLength) <==>
      Trim(hex) != [] && AllHex(Trim(hex)) && |Trim(hex)| % 2 == 0 && |Trim(hex)| != 128
  {
    var digits := Trim(hex);
    TrimTrims(hex);
    forall t | IsTrimOf(hex, t) ensures t == digits {
      TrimExactly(hex, t);
    }
    Utf8Hex(digits);
    if |Utf8(digits)| % 2 == 0 {
      DecodePairsCondition(Utf8(digits));
    }
  }

  /** The generator's text reads back as the key, whatever whitespace or capitals it picked up. */
  lemma KeyFromItsHex(key: seq<Byte>, hex: string)
    requires |key| == KEY_BYTES && LowerAll(Trim(hex)) == HexEncode(key)
    ensures FromHexSpec(hex) == Ok(key)
  {
    var digits := Trim(hex);
    assert AllHex(digits) by {
      forall c | c in digits ensures IsHex(c) {
        var i :| 0 <= i < |digits| && digits[i] == c;
        assert IsHex(LowerAll(digits)[i]);
      }
    }
    AcceptedKeys(hex);
    Utf8Hex(digits);
    DecodeIgnoresCase(digits);
    DecodeEncode(key);
  }

  /** Two accepted strings are the same key exactly when they agree up to case and outer whitespace. */
  lemma SameKey(a: string, b: string)
    requires FromHexSpec(a).Ok? && FromHexSpec(b).Ok?
    ensures FromHexSpec(a) == FromHexSpec(b) <==> LowerAll(Trim(a)) == LowerAll(Trim(b))
  {
    AcceptedKeys(a);
    AcceptedKeys(b);
    Utf8Hex(Trim(a));
    Utf8Hex(Trim(b));
    EncodeDecode(Trim(a));
    EncodeDecode(Trim(b));
    DecodeIgnoresCase(Trim(a));
    DecodeIgnoresCase(Trim(b));
  }

  // ---------- subkey messages ----------

  /** The ASCII codes of "arcature/kdf/v1". */
  const DERIVATION_DOMAIN: seq<Byte> := [97, 114, 99, 97, 116, 117, 114, 101, 47, 107, 100, 102, 47, 118, 49]

  /** The low `k` bytes of `n`, most significant first. */
  function BigEndian(n: nat, k: nat): (r: seq<Byte>)
    ensures |r| == k
  {
    if k == 0 then [] else BigEndian(n / 256, k - 1) + [n % 256]
  }

  function Power256(k: nat): nat { if k == 0 then 1 else 256 * Power256(k - 1) }

  lemma {:induction false} BigEndianInjective(m: nat, n: nat, k: nat)
    requires m < Power256(k) && n < Power256(k) && BigEndian(m, k) == BigEndian(n, k)
    ensures m == n
  {
    if k > 0 {
      var a, b := BigEndian(m, k), BigEndian(n, k);
      assert a[..k - 1] == BigEndian(m / 256, k - 1) && b[..k - 1] == BigEndian(n / 256, k - 1);
      assert a[k - 1] == m % 256 && b[k - 1] == n % 256;
      BigEndianInjective(m / 256, n / 256, k - 1);
    }
  }

  /** What is fed to the MAC for a label: the domain, the label's length as a 64-bit integer, the label. */
  function SubkeyMessage(name: seq<Byte>): seq<Byte> {
    DERIVATION_DOMAIN + BigEndian(|name|, 8) + name
  }

  /** The number a sequence of bytes spells, the first one most significant. */
  function Value256(bytes: seq<Byte>): nat {
    if bytes == [] then 0 else bytes[0] * Power256(|bytes| - 1) + Value256(bytes[1..])
  }

  lemma {:induction false} Value256Snoc(bytes: seq<Byte>, b: Byte)
    ensures Value256(bytes + [b]) == 256 * Value256(bytes) + b
  {
    var all := bytes + [b];
    if bytes == [] {
      assert all[1..] == [];
    } else {
      assert all[1..] == bytes[1..] + [b];
      Value256Snoc(bytes[1..], b);
      Shift(bytes[0], Power256(|bytes| - 1), Value256(bytes[1..]), b);
    }
  }

  lemma Shift(x: int, p: int, v: int, b: int)
    ensures x * (256 * p) + (256 * v + b) == 256 * (x * p + v) + b
  {
  }

  lemma {:induction false} BigEndianValue(n: nat, k: nat)
    requires n < Power256(k)
    ensures Value256(BigEndian(n, k)) == n
  {
    if k > 0 {
      BigEndianValue(n / 256, k - 1);
      Value256Snoc(BigEndian(n / 256, k - 1), n % 256);
    }
  }

  /** A subkey message reads back: the domain, eight bytes that spell the label's length, the label. */
  lemma SubkeyMessageReadsBack(name: seq<Byte>)
    requires |name| < Power256(8)
    ensures var x := SubkeyMessage(name);
      && |x| == 23 + |name| && x[..15] == Codes("arcature/kdf/v1") && Value256(x[15..23]) == |name| && x[23..] == name
  {
    var x := SubkeyMessage(name);
    BigEndianValue(|name|, 8);
    assert x[15..23] == BigEndian(|name|, 8) && x[23..] == name;
    var text := "arcature/kdf/v1";
    assert DERIVATION_DOMAIN == Codes(text);
    assert x[..15] == DERIVATION_DOMAIN;
  }

  /** No message is a prefix of the message of another label; a label's length fits in 64 bits. */
  lemma SubkeyPrefixFree(a: seq<Byte>, b: seq<Byte>)
    requires |a| < Power256(8) && |b| < Power256(8)
    ensures SubkeyMessage(a) <= SubkeyMessage(b) <==> a == b
  {
    if SubkeyMessage(a) <= SubkeyMessage(b) {
      var x, y := SubkeyMessage(a), SubkeyMessage(b);
      var d := |DERIVATION_DOMAIN|;
      assert x[d..d + 8] == BigEndian(|a|, 8) && y[d..d + 8] == BigEndian(|b|, 8);
      assert x[d..d + 8] == y[d..d + 8];
      BigEndianInjective(|a|, |b|, 8);
      assert x[d + 8..] == a && y[d + 8..] == b;
    }
  }
}
