/** Unpadded base64url (section 5 of RFC 4648) as `src/crypt/base64url.rs` writes it out. */
module Base64Url {
  import opened Wrappers
  import Text

  /** Bytes; a text is the sequence of its UTF-8 bytes, which is what the source's loops read. */
  type Bytes = seq<bv8>

  // ---------- the alphabet ----------

  /** The URL-safe alphabet as ASCII codes: A-Z, a-z, 0-9, '-', '_'. */
  const ALPHABET: Bytes := CAPITALS + SMALLS + OTHERS

  const CAPITALS: Bytes :=
    [65, 66, 67, 68, 69, 70, 71, 72, 73, 74, 75, 76, 77, 78, 79, 80, 81, 82, 83, 84, 85, 86, 87, 88, 89, 90]

  const SMALLS: Bytes :=
    [97, 98, 99, 100, 101, 102, 103, 104, 105, 106, 107, 108, 109, 110, 111, 112, 113, 114, 115, 116, 117, 118, 119,
     120, 121, 122]

  const OTHERS: Bytes := [48, 49, 50, 51, 52, 53, 54, 55, 56, 57, 45, 95]

  /** The alphabet index of a byte, if it has one. */
  function ValueOf(c: bv8): Option<bv6> {
    if 65 <= c <= 90 then Some((c - 65) as bv6)
    else if 97 <= c <= 122 then Some((c - 97 + 26) as bv6)
    else if 48 <= c <= 57 then Some((c - 48 + 52) as bv6)
    else if c == 45 then Some(62)
    else if c == 95 then Some(63)
    else None
  }

  /** The alphabet symbol at an index; `AlphabetTable` ties it to the literal table. */
  function Symbol(v: bv6): bv8 {
    if v < 26 then v as bv8 + 65
    else if v < 52 then v as bv8 - 26 + 97
    else if v < 62 then v as bv8 - 52 + 48
    else if v == 62 then 45
    else 95
  }

  /** The symbol of an index stands in the table at that index. */
  lemma AlphabetTable(v: bv6)
    ensures v as int < |ALPHABET| && ALPHABET[v as int] == Symbol(v)
  {
    if v < 26 {
      CapitalsTable(v);
    } else if v < 52 {
      SmallsTable(v);
    } else {
      OthersTable(v);
    }
  }

  lemma CapitalsTable(v: bv6)
    requires v < 26
    ensures v as int < |CAPITALS| && CAPITALS[v as int] == Symbol(v)
  {
    assert v == 0 || v == 1 || v == 2 || v == 3 || v == 4 || v == 5 || v == 6 || v == 7 || v == 8 || v == 9
           || v == 10 || v == 11 || v == 12 || v == 13 || v == 14 || v == 15 || v == 16 || v == 17 || v == 18
           || v == 19 || v == 20 || v == 21 || v == 22 || v == 23 || v == 24 || v == 25;
  }

  lemma SmallsTable(v: bv6)
    requires 26 <= v < 52
    ensures 26 <= v as int < 26 + |SMALLS| && SMALLS[v as int - 26] == Symbol(v)
  {
    assert v == 26 || v == 27 || v == 28 || v == 29 || v == 30 || v == 31 || v == 32 || v == 33 || v == 34
           || v == 35 || v == 36 || v == 37 || v == 38 || v == 39 || v == 40 || v == 41 || v == 42 || v == 43
           || v == 44 || v == 45 || v == 46 || v == 47 || v == 48 || v == 49 || v == 50 || v == 51;
  }

  lemma OthersTable(v: bv6)
    requires 52 <= v
    ensures 52 <= v as int < 52 + |OTHERS| && OTHERS[v as int - 52] == Symbol(v)
  {
    assert v == 52 || v == 53 || v == 54 || v == 55 || v == 56 || v == 57 || v == 58 || v == 59 || v == 60
           || v == 61 || v == 62 || v == 63;
  }

  lemma SymbolValue(v: bv6)
    ensures ValueOf(Symbol(v)) == Some(v)
  {
  }

  lemma ValueSymbol(c: bv8)
    requires ValueOf(c).Some?
    ensures Symbol(ValueOf(c).value) == c
  {
  }

  ghost predicate InAlphabet(s: Bytes) {
    forall c <- s :: ValueOf(c).Some?
  }

  function Symbols(vs: seq<bv6>): (s: Bytes)
    ensures |s| == |vs|
  {
    if vs == [] then [] else [Symbol(vs[0])] + Symbols(vs[1..])
  }

  function Values(s: Bytes): (r: Option<seq<bv6>>)
    ensures r.Some? ==> |r.value| == |s|
  {
    if s == [] then Some([])
    else
      match (ValueOf(s[0]), Values(s[1..]))
      case (Some(v), Some(vs)) => Some([v] + vs)
      case _ => None
  }

  lemma {:induction false} ValuesSymbols(vs: seq<bv6>)
    ensures Values(Symbols(vs)) == Some(vs)
  {
    if vs != [] {
      SymbolValue(vs[0]);
      ValuesSymbols(vs[1..]);
      assert Symbols(vs)[1..] == Symbols(vs[1..]);
      assert [vs[0]] + vs[1..] == vs;
    }
  }

  lemma {:induction false} SymbolsValues(s: Bytes)
    ensures Values(s).Some? <==> InAlphabet(s)
    ensures Values(s).Some? ==> Symbols(Values(s).value) == s
  {
    if s != [] {
      SymbolsValues(s[1..]);
      assert forall c :: c in s <==> c == s[0] || c in s[1..];
      if Values(s).Some? {
        ValueSymbol(s[0]);
        assert Values(s).value[1..] == Values(s[1..]).value;
      }
    }
  }

  // ---------- one group: up to three bytes, one digit more ----------

  function Triple(b0: bv8, b1: bv8, b2: bv8): bv32 {
    (b0 as bv32 << 16) | (b1 as bv32 << 8) | b2 as bv32
  }

  function Digit(triple: bv32, shift: bv5): bv6 {
    ((triple >> shift) & 63) as bv6
  }

  /** The digits of a chunk: its 24-bit word read six bits at a time, missing bytes zero. */
  function Split(chunk: Bytes): (vs: seq<bv6>)
    requires 1 <= |chunk| <= 3
    ensures |vs| == |chunk| + 1
  {
    if |chunk| == 1 then
      var t := Triple(chunk[0], 0, 0); [Digit(t, 18), Digit(t, 12)]
    else if |chunk| == 2 then
      var t := Triple(chunk[0], chunk[1], 0); [Digit(t, 18), Digit(t, 12), Digit(t, 6)]
    else
      var t := Triple(chunk[0], chunk[1], chunk[2]); [Digit(t, 18), Digit(t, 12), Digit(t, 6), Digit(t, 0)]
  }

  function Word(v0: bv6, v1: bv6, v2: bv6, v3: bv6): bv32 {
    (v0 as bv32 << 18) | (v1 as bv32 << 12) | (v2 as bv32 << 6) | v3 as bv32
  }

  function Byte(packed: bv32, shift: bv5): bv8 {
    ((packed >> shift) & 0xFF) as bv8
  }

  /** The bytes of a group of digits, unless a bit below them is set. */
  function Join(vs: seq<bv6>): (r: Option<Bytes>)
    requires 2 <= |vs| <= 4
    ensures r.Some? ==> |r.value| == |vs| - 1
  {
    if |vs| == 2 then
      var t := Word(vs[0], vs[1], 0, 0);
      if t & 0xFFFF != 0 then None else Some([Byte(t, 16)])
    else if |vs| == 3 then
      var t := Word(vs[0], vs[1], vs[2], 0);
      if t & 0xFF != 0 then None else Some([Byte(t, 16), Byte(t, 8)])
    else
      var t := Word(vs[0], vs[1], vs[2], vs[3]);
      Some([Byte(t, 16), Byte(t, 8), Byte(t, 0)])
  }

  lemma TripleDigits(b0: bv8, b1: bv8, b2: bv8)
    ensures var t := Triple(b0, b1, b2);
      && Word(Digit(t, 18), Digit(t, 12), Digit(t, 6), Digit(t, 0)) == t
      && Byte(t, 16) == b0 && Byte(t, 8) == b1 && Byte(t, 0) == b2
      && (b2 == 0 ==> Digit(t, 0) == 0 && t & 0xFF == 0)
      && (b2 == 0 && b1 == 0 ==> Digit(t, 6) == 0 && t & 0xFFFF == 0)
  {
  }

  lemma WordBytes(v0: bv6, v1: bv6, v2: bv6, v3: bv6)
    ensures var t := Word(v0, v1, v2, v3);
      && Triple(Byte(t, 16), Byte(t, 8), Byte(t, 0)) == t
      && (t & 0xFF == 0 ==> Byte(t, 0) == 0)
      && (t & 0xFFFF == 0 ==> Byte(t, 8) == 0 && Byte(t, 0) == 0)
      && Digit(t, 18) == v0 && Digit(t, 12) == v1 && Digit(t, 6) == v2 && Digit(t, 0) == v3
  {
  }

  lemma JoinSplit(chunk: Bytes)
    requires 1 <= |chunk| <= 3
    ensures Join(Split(chunk)) == Some(chunk)
  {
    TripleDigits(chunk[0], if |chunk| > 1 then chunk[1] else 0, if |chunk| > 2 then chunk[2] else 0);
    assert Join(Split(chunk)).value == chunk;
  }

  lemma SplitJoin(vs: seq<bv6>)
    requires 2 <= |vs| <= 4 && Join(vs).Some?
    ensures Split(Join(vs).value) == vs
  {
    WordBytes(vs[0], vs[1], if |vs| > 2 then vs[2] else 0, if |vs| > 3 then vs[3] else 0);
  }

  // ---------- whole texts ----------

  function Min(a: nat, b: nat): nat { if a < b then a else b }

  function Encode(bytes: Bytes): (text: Bytes)
  {
    if bytes == [] then []
    else
      var n := Min(3, |bytes|);
      Symbols(Split(bytes[..n])) + Encode(bytes[n..])
  }

  /** Decode group by group; a single left-over symbol is refused. */
  function DecodeGroups(text: Bytes): (r: Option<Bytes>)
    requires |text| % 4 != 1
  {
    if text == [] then Some([])
    else
      var n := Min(4, |text|);
      match Values(text[..n])
      case None => None
      case Some(vs) =>
        match (Join(vs), DecodeGroups(text[n..]))
        case (Some(chunk), Some(rest)) => Some(chunk + rest)
        case _ => None
  }

  function Decode(text: Bytes): (r: Option<Bytes>) {
    if |text| % 4 == 1 then None else DecodeGroups(text)
  }

  lemma {:induction false} EncodeLength(bytes: Bytes)
    ensures |Encode(bytes)| == (4 * |bytes| + 2) / 3
    ensures |Encode(bytes)| % 4 != 1
  {
    if |bytes| > 3 {
      EncodeLength(bytes[3..]);
    } else if bytes != [] {
      assert bytes[|bytes|..] == [];
    }
  }

  /** A full chunk, or a last one, is encoded on its own. */
  lemma EncodeConcat(chunk: Bytes, tail: Bytes)
    requires 1 <= |chunk| <= 3 && (tail != [] ==> |chunk| == 3)
    ensures Encode(chunk + tail) == Symbols(Split(chunk)) + Encode(tail)
  {
    var bytes := chunk + tail;
    assert Min(3, |bytes|) == |chunk| && bytes[..|chunk|] == chunk && bytes[|chunk|..] == tail;
  }

  lemma GroupCut(group: Bytes, tail: Bytes)
    requires 2 <= |group| <= 4 && |tail| % 4 != 1 && (tail != [] ==> |group| == 4)
    ensures var text := group + tail;
      && |text| % 4 != 1 && Min(4, |text|) == |group| && group == text[..|group|] && tail == text[|group|..]
  {
  }

  lemma DecodeUnfold(text: Bytes, group: Bytes, tail: Bytes)
    requires text != [] && |text| % 4 != 1 && |tail| % 4 != 1
    requires group == text[..Min(4, |text|)] && tail == text[Min(4, |text|)..]
    ensures DecodeGroups(text) ==
      match Values(group)
      case None => None
      case Some(vs) =>
        match (Join(vs), DecodeGroups(tail))
        case (Some(chunk), Some(rest)) => Some(chunk + rest)
        case _ => None
  {
  }

  /** A full group, or a last one, is decoded on its own. */
  lemma DecodeConcat(group: Bytes, tail: Bytes, vs: seq<bv6>, chunk: Bytes, rest: Bytes)
    requires 2 <= |group| <= 4 && |tail| % 4 != 1 && (tail != [] ==> |group| == 4)
    requires Values(group) == Some(vs) && Join(vs) == Some(chunk) && Decode(tail) == Some(rest)
    ensures Decode(group + tail) == Some(chunk + rest)
  {
    GroupCut(group, tail);
    DecodeUnfold(group + tail, group, tail);
  }

  /** Every byte string decodes back from its encoding. */
  lemma {:induction false} DecodeEncode(bytes: Bytes)
    ensures Decode(Encode(bytes)) == Some(bytes)
  {
    if bytes != [] {
      var n := Min(3, |bytes|);
      var chunk, rest := bytes[..n], bytes[n..];
      DecodeEncode(rest);
      EncodeLength(rest);
      assert chunk + rest == bytes;
      EncodeConcat(chunk, rest);
      ValuesSymbols(Split(chunk));
      JoinSplit(chunk);
      DecodeConcat(Symbols(Split(chunk)), Encode(rest), Split(chunk), chunk, rest);
    }
  }

  /** A text that decodes is the one spelling of the bytes it decodes to. */
  lemma {:induction false} EncodeDecode(text: Bytes)
    requires Decode(text).Some?
    ensures Encode(Decode(text).value) == text
  {
    if text != [] {
      var n := Min(4, |text|);
      var group, rest := text[..n], text[n..];
      SymbolsValues(group);
      var vs := Values(group).value;
      SplitJoin(vs);
      EncodeDecode(rest);
      var chunk, tail := Join(vs).value, Decode(rest).value;
      assert tail != [] ==> rest != [];
      EncodeConcat(chunk, tail);
      assert Decode(text).value == chunk + tail;
      assert group + rest == text;
    }
  }

  // ---------- which texts are accepted ----------

  /** The bits of the last symbol that lie below the last whole byte are zero. */
  ghost predicate TrailingBitsZero(text: Bytes)
    requires InAlphabet(text)
  {
    && (|text| % 4 == 2 ==> ValueOf(text[|text| - 1]).value & 15 == 0)
    && (|text| % 4 == 3 ==> ValueOf(text[|text| - 1]).value & 3 == 0)
  }

  lemma JoinCondition(vs: seq<bv6>)
    requires 2 <= |vs| <= 4
    ensures Join(vs).Some? <==> (|vs| == 2 ==> vs[1] & 15 == 0) && (|vs| == 3 ==> vs[2] & 3 == 0)
  {
  }

  lemma AcceptGroup(group: Bytes)
    requires 2 <= |group| <= 4
    ensures Values(group).Some? && Join(Values(group).value).Some? <==> InAlphabet(group) && TrailingBitsZero(group)
  {
    SymbolsValues(group);
    if InAlphabet(group) {
      JoinCondition(Values(group).value);
      LastValue(group);
    }
  }

  /** The decoder accepts exactly the canonical texts of section 3.5 of RFC 4648. */
  lemma {:induction false} AcceptedTexts(text: Bytes)
    ensures Decode(text).Some? <==> |text| % 4 != 1 && InAlphabet(text) && TrailingBitsZero(text)
  {
    if 0 < |text| < 4 && |text| != 1 {
      assert text[..|text|] == text && text[|text|..] == [];
      AcceptGroup(text);
      assert DecodeGroups([]) == Some([]);
    } else if |text| >= 4 && |text| % 4 != 1 {
      var group, rest := text[..4], text[4..];
      AcceptGroup(group);
      AcceptedTexts(rest);
      AlphabetSplit(text);
      assert Decode(text).Some? <==> (Values(group).Some? && Join(Values(group).value).Some?) && Decode(rest).Some?;
    }
  }

  lemma AlphabetSplit(text: Bytes)
    requires |text| >= 4
    ensures InAlphabet(text) <==> InAlphabet(text[..4]) && InAlphabet(text[4..])
    ensures InAlphabet(text) ==> (TrailingBitsZero(text) <==> TrailingBitsZero(text[4..]))
  {
    assert text == text[..4] + text[4..];
    if InAlphabet(text[..4]) && InAlphabet(text[4..]) {
      forall c | c in text ensures ValueOf(c).Some? {
        assert c in text[..4] || c in text[4..];
      }
    }
    if |text| % 4 != 0 {
      assert text[4..][|text| - 5] == text[|text| - 1];
    }
  }

  lemma {:induction false} LastValue(s: Bytes)
    requires s != [] && Values(s).Some?
    ensures ValueOf(s[|s| - 1]) == Some(Values(s).value[|s| - 1])
  {
    if |s| > 1 {
      LastValue(s[1..]);
    }
  }

  // ---------- the bits a text spells ----------

  function ByteBits(b: bv8): seq<bool> {
    [b & 128 != 0, b & 64 != 0, b & 32 != 0, b & 16 != 0, b & 8 != 0, b & 4 != 0, b & 2 != 0, b & 1 != 0]
  }

  function DigitBits(v: bv6): seq<bool> {
    [v & 32 != 0, v & 16 != 0, v & 8 != 0, v & 4 != 0, v & 2 != 0, v & 1 != 0]
  }

  function Flatten<T>(f: T -> seq<bool>, s: seq<T>): seq<bool> {
    if s == [] then [] else f(s[0]) + Flatten(f, s[1..])
  }

  lemma {:induction false} FlattenConcat<T>(f: T -> seq<bool>, a: seq<T>, b: seq<T>)
    ensures Flatten(f, a + b) == Flatten(f, a) + Flatten(f, b)
  {
    if a == [] {
      assert a + b == b;
    } else {
      FlattenConcat(f, a[1..], b);
      assert (a + b)[1..] == a[1..] + b;
    }
  }

  lemma FlattenFew<T>(f: T -> seq<bool>, s: seq<T>)
    requires 1 <= |s| <= 4
    ensures Flatten(f, s) ==
      f(s[0]) + (if |s| > 1 then f(s[1]) else []) + (if |s| > 2 then f(s[2]) else []) + (if |s| > 3 then f(s[3]) else [])
  {
    if |s| > 1 {
      FlattenFew(f, s[1..]);
    }
  }

  function BitsOfBytes(bytes: Bytes): seq<bool> { Flatten(ByteBits, bytes) }

  function BitsOfDigits(vs: seq<bv6>): seq<bool> { Flatten(DigitBits, vs) }

  function Zeros(n: nat): seq<bool> { seq(n, _ => false) }

  /** The 24 bits of three bytes, most significant first. */
  function Bits24(b0: bv8, b1: bv8, b2: bv8): (r: seq<bool>)
    ensures |r| == 24
  {
    ByteBits(b0) + ByteBits(b1) + ByteBits(b2)
  }

  lemma Cut8(x: seq<bool>, y: seq<bool>, z: seq<bool>)
    requires |x| == 8 && |y| == 8 && |z| == 8
    ensures (x + y + z)[6..12] == [x[6], x[7], y[0], y[1], y[2], y[3]]
    ensures (x + y + z)[12..18] == [y[4], y[5], y[6], y[7], z[0], z[1]]
  {
  }

  lemma DigitBitsAt18(b0: bv8, b1: bv8, b2: bv8)
    ensures DigitBits(Digit(Triple(b0, b1, b2), 18)) ==
      [b0 & 128 != 0, b0 & 64 != 0, b0 & 32 != 0, b0 & 16 != 0, b0 & 8 != 0, b0 & 4 != 0]
  {
  }

  lemma CutAt18(b0: bv8, b1: bv8, b2: bv8)
    ensures Bits24(b0, b1, b2)[0..6] ==
      [b0 & 128 != 0, b0 & 64 != 0, b0 & 32 != 0, b0 & 16 != 0, b0 & 8 != 0, b0 & 4 != 0]
  {
  }

  lemma DigitBitsAt12(b0: bv8, b1: bv8, b2: bv8)
    ensures DigitBits(Digit(Triple(b0, b1, b2), 12)) ==
      [b0 & 2 != 0, b0 & 1 != 0, b1 & 128 != 0, b1 & 64 != 0, b1 & 32 != 0, b1 & 16 != 0]
  {
  }

  lemma CutAt12(b0: bv8, b1: bv8, b2: bv8)
    ensures Bits24(b0, b1, b2)[6..12] ==
      [b0 & 2 != 0, b0 & 1 != 0, b1 & 128 != 0, b1 & 64 != 0, b1 & 32 != 0, b1 & 16 != 0]
  {
    Cut8(ByteBits(b0), ByteBits(b1), ByteBits(b2));
  }

  lemma DigitBitsAt6(b0: bv8, b1: bv8, b2: bv8)
    ensures DigitBits(Digit(Triple(b0, b1, b2), 6)) ==
      [b1 & 8 != 0, b1 & 4 != 0, b1 & 2 != 0, b1 & 1 != 0, b2 & 128 != 0, b2 & 64 != 0]
  {
  }

  lemma CutAt6(b0: bv8, b1: bv8, b2: bv8)
    ensures Bits24(b0, b1, b2)[12..18] ==
      [b1 & 8 != 0, b1 & 4 != 0, b1 & 2 != 0, b1 & 1 != 0, b2 & 128 != 0, b2 & 64 != 0]
  {
    Cut8(ByteBits(b0), ByteBits(b1), ByteBits(b2));
  }

  lemma DigitBitsAt0(b0: bv8, b1: bv8, b2: bv8)
    ensures DigitBits(Digit(Triple(b0, b1, b2), 0)) ==
      [b2 & 32 != 0, b2 & 16 != 0, b2 & 8 != 0, b2 & 4 != 0, b2 & 2 != 0, b2 & 1 != 0]
  {
  }

  lemma CutAt0(b0: bv8, b1: bv8, b2: bv8)
    ensures Bits24(b0, b1, b2)[18..24] ==
      [b2 & 32 != 0, b2 & 16 != 0, b2 & 8 != 0, b2 & 4 != 0, b2 & 2 != 0, b2 & 1 != 0]
  {
  }

  lemma ZeroByte()
    ensures ByteBits(0) == Zeros(8)
  {
  }

  lemma SplitDigitBits(chunk: Bytes, b1: bv8, b2: bv8)
    requires 1 <= |chunk| <= 3
    requires b1 == (if |chunk| > 1 then chunk[1] else 0) && b2 == (if |chunk| > 2 then chunk[2] else 0)
    ensures BitsOfDigits(Split(chunk)) == Bits24(chunk[0], b1, b2)[..6 * |chunk| + 6]
  {
    FlattenFew(DigitBits, Split(chunk));
    CutAll(chunk[0], b1, b2);
  }

  lemma PaddedBits(x: seq<bool>, y: seq<bool>, z: seq<bool>)
    requires |x| == 8 && |y| == 8 && |z| == 8
    ensures y == Zeros(8) ==> x + Zeros(4) == (x + y + z)[..12]
    ensures z == Zeros(8) ==> x + y + Zeros(2) == (x + y + z)[..18]
    ensures x + y + z + Zeros(0) == (x + y + z)[..24]
  {
  }

  /** Cutting the same bits by eights and by sixes. */
  lemma SplitBits(chunk: Bytes)
    requires 1 <= |chunk| <= 3
    ensures BitsOfDigits(Split(chunk)) == BitsOfBytes(chunk) + Zeros(6 - 2 * |chunk|)
  {
    var b0, b1, b2 := chunk[0], if |chunk| > 1 then chunk[1] else 0, if |chunk| > 2 then chunk[2] else 0;
    SplitDigitBits(chunk, b1, b2);
    FlattenFew(ByteBits, chunk);
    ZeroByte();
    PaddedBits(ByteBits(b0), ByteBits(b1), ByteBits(b2));
  }

  lemma CutAll(b0: bv8, b1: bv8, b2: bv8)
    ensures var t := Triple(b0, b1, b2); var all := Bits24(b0, b1, b2);
      && DigitBits(Digit(t, 18)) + DigitBits(Digit(t, 12)) == all[..12]
      && DigitBits(Digit(t, 18)) + DigitBits(Digit(t, 12)) + DigitBits(Digit(t, 6)) == all[..18]
      && DigitBits(Digit(t, 18)) + DigitBits(Digit(t, 12)) + DigitBits(Digit(t, 6)) + DigitBits(Digit(t, 0)) == all[..24]
  {
    DigitBitsAt18(b0, b1, b2);
    CutAt18(b0, b1, b2);
    DigitBitsAt12(b0, b1, b2);
    CutAt12(b0, b1, b2);
    DigitBitsAt6(b0, b1, b2);
    CutAt6(b0, b1, b2);
    DigitBitsAt0(b0, b1, b2);
    CutAt0(b0, b1, b2);
  }

  /** Values of concatenated texts. */
  lemma {:induction false} ValuesConcat(a: Bytes, b: Bytes)
    requires Values(a).Some? && Values(b).Some?
    ensures Values(a + b) == Some(Values(a).value + Values(b).value)
  {
    if a == [] {
      assert a + b == b && [] + Values(b).value == Values(b).value;
    } else {
      ValuesConcat(a[1..], b);
      assert (a + b)[1..] == a[1..] + b;
      var v, va, vb := ValueOf(a[0]).value, Values(a[1..]).value, Values(b).value;
      assert [v] + (va + vb) == ([v] + va) + vb;
    }
  }

  /** `text` spells the bits of `bytes` in order, followed by fewer than six zero bits. */
  ghost predicate Spells(text: Bytes, bytes: Bytes) {
    && Values(text).Some?
    && 0 <= 6 * |text| - 8 * |bytes| < 6
    && BitsOfDigits(Values(text).value) == BitsOfBytes(bytes) + Zeros(6 * |text| - 8 * |bytes|)
  }

  lemma SpellsChunk(chunk: Bytes)
    requires 1 <= |chunk| <= 3
    ensures Spells(Symbols(Split(chunk)), chunk)
  {
    ValuesSymbols(Split(chunk));
    SplitBits(chunk);
  }

  lemma SpellsConcat(t: Bytes, u: Bytes, a: Bytes, b: Bytes)
    requires Spells(t, a) && Spells(u, b) && |a| == 3 && |t| == 4
    ensures Spells(t + u, a + b)
  {
    ValuesConcat(t, u);
    var vt, vu := Values(t).value, Values(u).value;
    FlattenConcat(DigitBits, vt, vu);
    FlattenConcat(ByteBits, a, b);
    var pad := Zeros(6 * |u| - 8 * |b|);
    assert BitsOfDigits(vt) == BitsOfBytes(a) + Zeros(0) == BitsOfBytes(a);
    assert BitsOfBytes(a) + (BitsOfBytes(b) + pad) == (BitsOfBytes(a) + BitsOfBytes(b)) + pad;
  }

  /** The encoding is the bit string of the bytes, cut by sixes and padded with zeros. */
  lemma {:induction false} EncodeSpellsBits(bytes: Bytes)
    ensures Spells(Encode(bytes), bytes)
  {
    if bytes == [] {
      assert BitsOfDigits([]) == [] && BitsOfBytes([]) == [] && Zeros(0) == [];
    } else if |bytes| <= 3 {
      EncodeConcat(bytes, []);
      assert bytes + [] == bytes && Encode([]) == [] && Symbols(Split(bytes)) + [] == Symbols(Split(bytes));
      SpellsChunk(bytes);
    } else {
      SpellsChunk(bytes[..3]);
      EncodeSpellsBits(bytes[3..]);
      SpellsConcat(Symbols(Split(bytes[..3])), Encode(bytes[3..]), bytes[..3], bytes[3..]);
      assert bytes == bytes[..3] + bytes[3..];
      EncodeConcat(bytes[..3], bytes[3..]);
    }
  }

  // ---------- the loops of the source ----------

  /** A byte of the chunk, or zero past its end. */
  function ByteAt(chunk: Bytes, i: nat): bv8 { if i < |chunk| then chunk[i] else 0 }

  function TripleOf(chunk: Bytes): bv32 {
    Triple(ByteAt(chunk, 0), ByteAt(chunk, 1), ByteAt(chunk, 2))
  }

  /** The first `n + 1` symbols of a 24-bit word. */
  function Spelled(triple: bv32, n: nat): Bytes
    requires 1 <= n <= 3
  {
    [Symbol(Digit(triple, 18)), Symbol(Digit(triple, 12))]
    + (if n > 1 then [Symbol(Digit(triple, 6))] else [])
    + (if n > 2 then [Symbol(Digit(triple, 0))] else [])
  }

  lemma SpelledIsSplit(chunk: Bytes)
    requires 1 <= |chunk| <= 3
    ensures Spelled(TripleOf(chunk), |chunk|) == Symbols(Split(chunk))
  {
    SymbolsAt(Split(chunk));
  }

  lemma EncodeStep(out: Bytes, bytes: Bytes)
    requires bytes != []
    ensures var n := Min(3, |bytes|);
      out + Encode(bytes) == (out + Symbols(Split(bytes[..n]))) + Encode(bytes[n..])
  {
    var n := Min(3, |bytes|);
    Text.ConcatAssociates(out, Symbols(Split(bytes[..n])), Encode(bytes[n..]));
  }

  /** `encode`: three bytes at a time. */
  method EncodeText(bytes: Bytes) returns (out: Bytes)
    ensures out == Encode(bytes)
  {
    out := [];
    var rest := bytes;
    assert out + Encode(rest) == Encode(rest);
    while rest != []
      invariant out + Encode(rest) == Encode(bytes)
      decreases |rest|
    {
      EncodeStep(out, rest);
      var n := Min(3, |rest|);
      var group := EncodeChunk(rest[..n]);
      out := out + group;
      rest := rest[n..];
    }
    assert out + [] == out;
  }

  method EncodeChunk(chunk: Bytes) returns (out: Bytes)
    requires 1 <= |chunk| <= 3
    ensures out == Symbols(Split(chunk))
  {
    var triple := PackTriple(chunk);
    out := PushDigits(triple, |chunk|);
    SpelledIsSplit(chunk);
  }

  method PackTriple(chunk: Bytes) returns (triple: bv32)
    ensures triple == TripleOf(chunk)
  {
    triple := ByteAt(chunk, 0) as bv32 << 16;
    triple := triple | (ByteAt(chunk, 1) as bv32 << 8);
    triple := triple | ByteAt(chunk, 2) as bv32;
  }

  method PushDigits(triple: bv32, n: nat) returns (out: Bytes)
    requires 1 <= n <= 3
    ensures out == Spelled(triple, n)
  {
    var first := LookUp(Digit(triple, 18));
    var second := LookUp(Digit(triple, 12));
    out := [first, second];
    if n > 1 {
      var third := LookUp(Digit(triple, 6));
      out := out + [third];
    }
    if n > 2 {
      var fourth := LookUp(Digit(triple, 0));
      out := out + [fourth];
    }
  }

  method LookUp(v: bv6) returns (symbol: bv8)
    ensures symbol == Symbol(v)
  {
    AlphabetTable(v);
    symbol := ALPHABET[v as int];
  }

  lemma {:induction false} SymbolsAt(vs: seq<bv6>)
    ensures forall i :: 0 <= i < |vs| ==> Symbols(vs)[i] == Symbol(vs[i])
  {
    if vs != [] {
      SymbolsAt(vs[1..]);
    }
  }

  /** The word of up to four digits, missing digits zero. */
  function WordOf(vs: seq<bv6>): bv32
    requires |vs| <= 4
  {
    Word(if |vs| > 0 then vs[0] else 0, if |vs| > 1 then vs[1] else 0,
         if |vs| > 2 then vs[2] else 0, if |vs| > 3 then vs[3] else 0)
  }

  /** A digit at its place in the word, `18 - 6 * i` bits up. */
  function Placed(v: bv6, i: nat): bv32
    requires i < 4
  {
    if i == 0 then v as bv32 << 18
    else if i == 1 then v as bv32 << 12
    else if i == 2 then v as bv32 << 6
    else v as bv32
  }

  /** Or-ing in the next digit. */
  lemma WordSnoc(vs: seq<bv6>, v: bv6)
    requires |vs| < 4
    ensures WordOf(vs + [v]) ==
      WordOf(vs) | Placed(v, |vs|)
  {
  }

  lemma ValuesSnoc(s: Bytes, c: bv8)
    requires Values(s).Some? && ValueOf(c).Some?
    ensures Values(s + [c]) == Some(Values(s).value + [ValueOf(c).value])
  {
    var v := ValueOf(c).value;
    assert Values([c]) == Some([v]) by {
      assert [c][1..] == [] && [v] + [] == [v];
    }
    ValuesConcat(s, [c]);
  }

  /** Digits or-ed in one after another, each `6` bits below the one before. */
  function Packed(vs: seq<bv6>): bv32
    requires |vs| <= 4
  {
    if vs == [] then 0
    else Packed(vs[..|vs| - 1]) | Placed(vs[|vs| - 1], |vs| - 1)
  }

  lemma {:induction false} PackedIsWord(vs: seq<bv6>)
    requires |vs| <= 4
    ensures Packed(vs) == WordOf(vs)
  {
    if vs != [] {
      var n := |vs| - 1;
      PackedIsWord(vs[..n]);
      WordSnoc(vs[..n], vs[n]);
      assert vs[..n] + [vs[n]] == vs;
    }
  }

  /** One turn of the inner loop. */
  lemma PackStep(group: Bytes, i: nat, vs: seq<bv6>)
    requires i < |group| <= 4 && Values(group[..i]) == Some(vs) && ValueOf(group[i]).Some?
    ensures Values(group[..i + 1]) == Some(vs + [ValueOf(group[i]).value])
    ensures Packed(vs + [ValueOf(group[i]).value]) == Packed(vs) | Placed(ValueOf(group[i]).value, i)
  {
    ValuesSnoc(group[..i], group[i]);
    assert group[..i] + [group[i]] == group[..i + 1];
    PackedSnoc(vs, ValueOf(group[i]).value);
  }

  lemma PackedSnoc(vs: seq<bv6>, v: bv6)
    requires |vs| < 4
    ensures Packed(vs + [v]) == Packed(vs) | Placed(v, |vs|)
  {
    assert (vs + [v])[..|vs|] == vs;
  }

  lemma NotAllValues(s: Bytes, i: nat)
    requires i < |s| && ValueOf(s[i]).None?
    ensures Values(s).None?
  {
    SymbolsValues(s);
  }

  /** The inner loop of `decode`: symbol values or-ed into the packed word. */
  method PackGroup(group: Bytes) returns (r: Option<bv32>)
    requires 1 <= |group| <= 4
    ensures r == if Values(group).Some? then Some(Packed(Values(group).value)) else None
  {
    var packed: bv32 := 0;
    ghost var vs: seq<bv6> := [];
    for i := 0 to |group|
      invariant Values(group[..i]) == Some(vs) && |vs| == i
      invariant packed == Packed(vs)
    {
      var value := ValueOf(group[i]);
      if value.None? {
        NotAllValues(group, i);
        return None;
      }
      PackStep(group, i, vs);
      packed := packed | Placed(value.value, i);
      vs := vs + [value.value];
    }
    assert group[..|group|] == group;
    r := Some(packed);
  }

  /** One group of `decode`: refuse set bits below the whole bytes, then push those bytes. */
  method DecodeGroup(group: Bytes) returns (r: Option<Bytes>)
    requires 2 <= |group| <= 4
    ensures r == if Values(group).Some? then Join(Values(group).value) else None
  {
    var p := PackGroup(group);
    if p.None? {
      return None;
    }
    PackedIsWord(Values(group).value);
    var packed := p.value;
    var bytes := |group| - 1;
    var unused: bv32 := if bytes == 1 then 0xFFFF else if bytes == 2 then 0xFF else 0;
    if packed & unused != 0 {
      return None;
    }
    var out := [Byte(packed, 16)];
    if bytes > 1 {
      out := out + [Byte(packed, 8)];
    }
    if bytes > 2 {
      out := out + [Byte(packed, 0)];
    }
    assert Join(Values(group).value).value == out;
    r := Some(out);
  }

  /** What is still to decode after `out`, as a whole. */
  ghost function Finish(out: Bytes, rest: Bytes): Option<Bytes>
    requires |rest| % 4 != 1
  {
    if DecodeGroups(rest).Some? then Some(out + DecodeGroups(rest).value) else None
  }

  lemma FinishStep(out: Bytes, text: Bytes)
    requires |text| % 4 != 1 && text != []
    ensures var n := Min(4, |text|); var vs := Values(text[..n]);
      Finish(out, text) ==
        if vs.Some? && Join(vs.value).Some? then Finish(out + Join(vs.value).value, text[n..]) else None
  {
    var n := Min(4, |text|);
    var vs := Values(text[..n]);
    if vs.Some? && Join(vs.value).Some? && DecodeGroups(text[n..]).Some? {
      var chunk, rest := Join(vs.value).value, DecodeGroups(text[n..]).value;
      assert out + (chunk + rest) == (out + chunk) + rest;
    }
  }

  lemma FinishStart(text: Bytes)
    requires |text| % 4 != 1
    ensures Finish([], text) == Decode(text)
  {
    assert DecodeGroups(text).Some? ==> [] + DecodeGroups(text).value == DecodeGroups(text).value;
  }

  lemma FinishEnd(out: Bytes)
    ensures Finish(out, []) == Some(out)
  {
    assert out + [] == out;
  }

  /** `decode`: refuse an impossible length, then go group by group. */
  method DecodeText(text: Bytes) returns (r: Option<Bytes>)
    ensures r == Decode(text)
  {
    if |text| % 4 == 1 {
      return None;
    }
    var out: Bytes := [];
    var rest := text;
    FinishStart(text);
    while rest != []
      invariant |rest| % 4 != 1
      invariant Finish(out, rest) == Decode(text)
      decreases |rest|
    {
      FinishStep(out, rest);
      var n := Min(4, |rest|);
      var bytes := DecodeGroup(rest[..n]);
      if bytes.None? {
        return None;
      }
      out := out + bytes.value;
      rest := rest[n..];
    }
    FinishEnd(out);
    r := Some(out);
  }
}
