/** Secrets at rest: base64 text around initialisation vector, tag and ciphertext
    (pg_llm_support.cpp). */
module Envelope {
  import opened Common

  type Byte = x: int | 0 <= x < 256

  // ---------- base64 (section 4 of RFC 4648) ----------

  type Digit = x: int | 0 <= x < 64

  function EncodeDigit(d: Digit): char {
    if d < 26 then (d + 'A' as int) as char
    else if d < 52 then (d - 26 + 'a' as int) as char
    else if d < 62 then (d - 52 + '0' as int) as char
    else if d == 62 then '+'
    else '/'
  }

  /** Table 1 of RFC 4648. */
  lemma EncodeDigitTable(d: Digit)
    ensures d < 26 ==> EncodeDigit(d) == "ABCDEFGHIJKLMNOPQRSTUVWXYZ"[d]
    ensures 26 <= d < 52 ==> EncodeDigit(d) == "abcdefghijklmnopqrstuvwxyz"[d - 26]
    ensures 52 <= d ==> EncodeDigit(d) == "0123456789+/"[d - 52]
  {
  }

  /** `EVP_DecodeBlock` reads the padding character as digit zero. */
  function DecodeDigit(c: char): Option<Digit> {
    if 'A' <= c <= 'Z' then Some(c as int - 'A' as int)
    else if 'a' <= c <= 'z' then Some(c as int - 'a' as int + 26)
    else if '0' <= c <= '9' then Some(c as int - '0' as int + 52)
    else if c == '+' then Some(62)
    else if c == '/' then Some(63)
    else if c == '=' then Some(0)
    else None
  }

  function ByteAt(data: seq<Byte>, i: nat): Byte {
    if i < |data| then data[i] else 0
  }

  function AfterGroup(data: seq<Byte>): seq<Byte> {
    if |data| > 3 then data[3..] else []
  }

  /** Four characters for up to three bytes; missing bytes are shown as `=`. */
  function EncodeGroup(data: seq<Byte>): (text: string)
    requires data != []
    ensures |text| == 4
  {
    var a, b, c := ByteAt(data, 0), ByteAt(data, 1), ByteAt(data, 2);
    [EncodeDigit(a / 4),
     EncodeDigit(a % 4 * 16 + b / 16),
     if |data| > 1 then EncodeDigit(b % 16 * 4 + c / 64) else '=',
     if |data| > 2 then EncodeDigit(c % 64) else '=']
  }

  function Base64Encode(data: seq<Byte>): string
    decreases |data|
  {
    if data == [] then "" else EncodeGroup(data) + Base64Encode(AfterGroup(data))
  }

  /** `EVP_DecodeBlock`: three bytes for every four characters, padding included. */
  function DecodeBlock(text: string): Option<seq<Byte>> {
    if text == "" then Some([])
    else if |text| < 4 then None
    else
      match (DecodeDigit(text[0]), DecodeDigit(text[1]), DecodeDigit(text[2]), DecodeDigit(text[3]), DecodeBlock(text[4..]))
      case (Some(p), Some(q), Some(r), Some(s), Some(rest)) => Some(Triple(p, q, r, s) + rest)
      case _ => None
  }

  function Triple(p: Digit, q: Digit, r: Digit, s: Digit): seq<Byte> {
    [p * 4 + q / 16, q % 16 * 16 + r / 4, r % 4 * 64 + s]
  }

  predicate InAlphabet(c: char) {
    'A' <= c <= 'Z' || 'a' <= c <= 'z' || '0' <= c <= '9' || c in {'+', '/', '='}
  }

  /** Whole groups of four characters of the alphabet. */
  predicate IsBase64(text: string) {
    |text| % 4 == 0 && forall i :: 0 <= i < |text| ==> InAlphabet(text[i])
  }

  lemma DecodeDigitIff(c: char)
    ensures DecodeDigit(c).Some? <==> InAlphabet(c)
  {
  }

  lemma IsBase64Later(text: string)
    requires |text| >= 4
    ensures IsBase64(text)
       <==> InAlphabet(text[0]) && InAlphabet(text[1]) && InAlphabet(text[2]) && InAlphabet(text[3]) && IsBase64(text[4..])
  {
    var rest := text[4..];
    assert forall i :: 0 <= i < |rest| ==> rest[i] == text[i + 4];
    assert forall i :: 4 <= i < |text| ==> text[i] == rest[i - 4];
  }

  lemma DecodeBlockLater(text: string)
    requires |text| >= 4
    ensures DecodeBlock(text).Some?
       <==> && DecodeDigit(text[0]).Some? && DecodeDigit(text[1]).Some? && DecodeDigit(text[2]).Some?
            && DecodeDigit(text[3]).Some? && DecodeBlock(text[4..]).Some?
  {
  }

  /** Exactly base64 text decodes. */
  lemma {:induction false} DecodesIff(text: string)
    ensures DecodeBlock(text).Some? <==> IsBase64(text)
    decreases |text|
  {
    if |text| >= 4 {
      DecodesIff(text[4..]);
      DecodeDigitIff(text[0]); DecodeDigitIff(text[1]); DecodeDigitIff(text[2]); DecodeDigitIff(text[3]);
      DecodeBlockLater(text);
      IsBase64Later(text);
    }
  }

  /** `data` without its trailing zero bytes. */
  function StripZeros(data: seq<Byte>): seq<Byte> {
    if data != [] && data[|data| - 1] == 0 then StripZeros(data[..|data| - 1]) else data
  }

  predicate EndsInZero(data: seq<Byte>) {
    data != [] && data[|data| - 1] == 0
  }

  datatype Error = InvalidBase64 | PayloadTooShort | MasterKeyNotSet | NotAuthentic

  function Decoded(input: string): Result<seq<Byte>, Error> {
    match DecodeBlock(input)
    case None => Err(InvalidBase64)
    case Some(bytes) => Ok(StripZeros(bytes))
  }

  function Zeros(n: nat): seq<Byte> {
    seq(n, i => 0)
  }

  /** The output vector has one byte per input character, so zeros follow the decoded bytes
      before the loop removes zeros from the end. */
  method Base64Decode(input: string) returns (output: Result<seq<Byte>, Error>)
    ensures output == Decoded(input)
  {
    DecodeBlockLength(input);
    var decoded := DecodeBlock(input);
    if decoded.None? { return Err(InvalidBase64); }
    var bytes := decoded.value + Zeros(|input| - |decoded.value|);
    StripPadding(decoded.value, |input| - |decoded.value|);
    while bytes != [] && bytes[|bytes| - 1] == 0
      invariant StripZeros(bytes) == StripZeros(decoded.value)
      decreases |bytes|
    {
      bytes := bytes[..|bytes| - 1];
    }
    output := Ok(bytes);
  }

  lemma {:induction false} DecodeBlockLength(text: string)
    ensures DecodeBlock(text).Some? ==> 4 * |DecodeBlock(text).value| == 3 * |text|
    decreases |text|
  {
    if |text| >= 4 {
      DecodeBlockLength(text[4..]);
    }
  }

  lemma {:induction false} StripPadding(data: seq<Byte>, n: nat)
    ensures StripZeros(data + Zeros(n)) == StripZeros(data)
  {
    if n == 0 {
      assert data + Zeros(0) == data;
    } else {
      var padded := data + Zeros(n);
      assert padded[..|padded| - 1] == data + Zeros(n - 1);
      StripPadding(data, n - 1);
    }
  }

  /** Stripping removes exactly a run of zeros and leaves nothing that ends in one. */
  lemma {:induction false} StripZerosMeaning(data: seq<Byte>)
    ensures var kept := StripZeros(data);
            && kept <= data && !EndsInZero(kept)
            && data == kept + Zeros(|data| - |kept|)
            && (kept == data <==> !EndsInZero(data))
  {
    if EndsInZero(data) {
      var init := data[..|data| - 1];
      StripZerosMeaning(init);
      assert data == init + [0];
      assert Zeros(|data| - |StripZeros(data)|) == Zeros(|init| - |StripZeros(init)|) + [0];
    }
  }

  lemma DigitRoundTrip(d: Digit)
    ensures DecodeDigit(EncodeDigit(d)) == Some(d)
  {
  }

  lemma TripleRoundTrip(a: Byte, b: Byte, c: Byte)
    ensures Triple(a / 4, a % 4 * 16 + b / 16, b % 16 * 4 + c / 64, c % 64) == [a, b, c]
  {
    FirstByte(a, b);
    SecondByte(a, b, c);
    ThirdByte(b, c);
  }

  lemma FirstByte(a: Byte, b: Byte)
    ensures a / 4 * 4 + (a % 4 * 16 + b / 16) / 16 == a
  {
  }

  lemma SecondByte(a: Byte, b: Byte, c: Byte)
    ensures (a % 4 * 16 + b / 16) % 16 * 16 + (b % 16 * 4 + c / 64) / 4 == b
  {
    assert (a % 4 * 16 + b / 16) % 16 == b / 16;
    assert (b % 16 * 4 + c / 64) / 4 == b % 16;
  }

  lemma ThirdByte(b: Byte, c: Byte)
    ensures (b % 16 * 4 + c / 64) % 4 * 64 + c % 64 == c
  {
    assert (b % 16 * 4 + c / 64) % 4 == c / 64;
  }

  lemma {:induction false} GroupRoundTrip(data: seq<Byte>, more: string)
    requires data != [] && DecodeBlock(more).Some?
    ensures DecodeBlock(EncodeGroup(data) + more)
         == Some([ByteAt(data, 0), ByteAt(data, 1), ByteAt(data, 2)] + DecodeBlock(more).value)
  {
    var a, b, c := ByteAt(data, 0), ByteAt(data, 1), ByteAt(data, 2);
    var text := EncodeGroup(data) + more;
    assert text[4..] == more;
    GroupDigits(data);
    assert text[0] == EncodeGroup(data)[0] && text[1] == EncodeGroup(data)[1];
    assert text[2] == EncodeGroup(data)[2] && text[3] == EncodeGroup(data)[3];
    TripleRoundTrip(a, b, c);
  }

  /** The padding characters read as the digits they stand for. */
  lemma GroupDigits(data: seq<Byte>)
    requires data != []
    ensures var a, b, c := ByteAt(data, 0), ByteAt(data, 1), ByteAt(data, 2);
            var text := EncodeGroup(data);
            && DecodeDigit(text[0]) == Some(a / 4)
            && DecodeDigit(text[1]) == Some(a % 4 * 16 + b / 16)
            && DecodeDigit(text[2]) == Some(b % 16 * 4 + c / 64)
            && DecodeDigit(text[3]) == Some(c % 64)
  {
    var a, b, c := ByteAt(data, 0), ByteAt(data, 1), ByteAt(data, 2);
    DigitRoundTrip(a / 4);
    DigitRoundTrip(a % 4 * 16 + b / 16);
    DigitRoundTrip(b % 16 * 4 + c / 64);
    DigitRoundTrip(c % 64);
  }

  function Padding(data: seq<Byte>): seq<Byte> {
    Zeros((3 - |data| % 3) % 3)
  }

  lemma PaddedGroup(data: seq<Byte>)
    requires data != []
    ensures [ByteAt(data, 0), ByteAt(data, 1), ByteAt(data, 2)] + (AfterGroup(data) + Padding(AfterGroup(data)))
         == data + Padding(data)
  {
    if |data| >= 3 {
      assert |AfterGroup(data)| == |data| - 3;
      assert data == data[..3] + AfterGroup(data);
    } else {
      assert AfterGroup(data) == [];
    }
  }

  /** Decoding an encoding yields the bytes followed by one zero per padding character. */
  lemma {:induction false} DecodeBlockEncode(data: seq<Byte>)
    ensures DecodeBlock(Base64Encode(data)) == Some(data + Padding(data))
    decreases |data|
  {
    if data == [] {
      assert data + Padding(data) == [];
    } else {
      DecodeBlockEncode(AfterGroup(data));
      GroupRoundTrip(data, Base64Encode(AfterGroup(data)));
      PaddedGroup(data);
    }
  }

  /** The size the encoder allocates for its output. */
  lemma {:induction false} EncodedLength(data: seq<Byte>)
    ensures |Base64Encode(data)| == 4 * ((|data| + 2) / 3)
    decreases |data|
  {
    if data != [] {
      EncodedLength(AfterGroup(data));
      GroupCount(|data|);
    }
  }

  lemma GroupCount(n: nat)
    ensures n > 3 ==> (n + 2) / 3 == (n - 3 + 2) / 3 + 1
    ensures 0 < n <= 3 ==> (n + 2) / 3 == 1
  {
  }

  /** Six bits of the concatenation of all bytes: those of position `i` of the encoding, missing
      bytes counting as zero. */
  function SixBits(data: seq<Byte>, i: nat): Digit {
    var g := i / 4 * 3;
    var group := ByteAt(data, g) * 0x1_0000 + ByteAt(data, g + 1) * 0x100 + ByteAt(data, g + 2);
    match i % 4
    case 0 => group / 0x4_0000
    case 1 => group / 0x1000 % 64
    case 2 => group / 64 % 64
    case _ => group % 64
  }

  lemma SixBitsLater(data: seq<Byte>, i: nat)
    requires i >= 4
    ensures SixBits(data, i) == SixBits(AfterGroup(data), i - 4)
  {
    assert (i - 4) / 4 == i / 4 - 1 && (i - 4) % 4 == i % 4;
    var g := i / 4 * 3;
    assert forall j: nat :: j >= 3 ==> ByteAt(data, j) == ByteAt(AfterGroup(data), j - 3);
    assert ByteAt(data, g) == ByteAt(AfterGroup(data), g - 3);
  }

  lemma By64(q: nat, r: Digit)
    ensures (64 * q + r) / 64 == q && (64 * q + r) % 64 == r
  {
  }

  lemma UpperBits(a: Byte, b: Byte, c: Byte)
    ensures (a * 0x1_0000 + b * 0x100 + c) / 0x4_0000 == a / 4
    ensures (a * 0x1_0000 + b * 0x100 + c) / 0x1000 % 64 == a % 4 * 16 + b / 16
  {
    var group := a * 0x1_0000 + b * 0x100 + c;
    assert group == a / 4 * 0x4_0000 + (a % 4 * 0x1_0000 + b * 0x100 + c);
    assert group / 0x1000 == a * 16 + b / 16;
    By64(a / 4, a % 4 * 16 + b / 16);
  }

  lemma LowerBits(a: Byte, b: Byte, c: Byte)
    ensures (a * 0x1_0000 + b * 0x100 + c) / 64 % 64 == b % 16 * 4 + c / 64
    ensures (a * 0x1_0000 + b * 0x100 + c) % 64 == c % 64
  {
    var high, middle, low := a * 16 + b / 16, b % 16 * 4 + c / 64, c % 64;
    assert a * 0x1_0000 + b * 0x100 + c == 64 * (64 * high + middle) + low;
    By64(64 * high + middle, low);
    By64(high, middle);
  }

  /** Whether position `i` of the encoding of `n` bytes holds a digit: it does for as many
      positions as are touched by the `8 * n` bits. */
  predicate HoldsDigit(n: nat, i: nat) {
    i < (8 * n + 5) / 6
  }

  /** Character `i`, in terms of the data: section 4 of RFC 4648. */
  function CharFor(data: seq<Byte>, i: nat): char {
    if HoldsDigit(|data|, i) then EncodeDigit(SixBits(data, i)) else '='
  }

  lemma FirstSixBits(data: seq<Byte>)
    ensures var a, b, c := ByteAt(data, 0), ByteAt(data, 1), ByteAt(data, 2);
            && SixBits(data, 0) == a / 4 && SixBits(data, 1) == a % 4 * 16 + b / 16
            && SixBits(data, 2) == b % 16 * 4 + c / 64 && SixBits(data, 3) == c % 64
  {
    UpperBits(ByteAt(data, 0), ByteAt(data, 1), ByteAt(data, 2));
    LowerBits(ByteAt(data, 0), ByteAt(data, 1), ByteAt(data, 2));
  }

  lemma FirstDigits(n: nat)
    requires n > 0
    ensures HoldsDigit(n, 0) && HoldsDigit(n, 1)
    ensures HoldsDigit(n, 2) <==> n > 1
    ensures HoldsDigit(n, 3) <==> n > 2
  {
  }

  lemma FirstGroup(data: seq<Byte>, i: nat)
    requires data != [] && i < 4
    ensures EncodeGroup(data)[i] == CharFor(data, i)
  {
    FirstSixBits(data);
    FirstDigits(|data|);
  }

  /** Every character of the encoding: the table's character for its six bits, and from the end of
      the bits on the padding character. */
  lemma {:induction false} EncodedChar(data: seq<Byte>, i: nat)
    requires i < |Base64Encode(data)|
    ensures Base64Encode(data)[i] == CharFor(data, i)
    ensures Base64Encode(data)[i] == '=' <==> i >= (8 * |data| + 5) / 6
    decreases |data|
  {
    if i < 4 {
      FirstGroup(data, i);
    } else {
      EncodedChar(AfterGroup(data), i - 4);
      SixBitsLater(data, i);
      AfterFirstGroup(data, i);
    }
    NoDigitIsPadding(SixBits(data, i));
  }

  lemma AfterFirstGroup(data: seq<Byte>, i: nat)
    requires 4 <= i < |Base64Encode(data)|
    ensures i - 4 < |Base64Encode(AfterGroup(data))|
    ensures Base64Encode(data)[i] == Base64Encode(AfterGroup(data))[i - 4]
    ensures HoldsDigit(|data|, i) <==> HoldsDigit(|AfterGroup(data)|, i - 4)
  {
  }

  lemma NoDigitIsPadding(d: Digit)
    ensures EncodeDigit(d) != '='
  {
  }

  lemma DigitsAndGroups(n: nat, q: nat, r: nat)
    requires n == 3 * q + r && r < 3
    ensures 4 * ((n + 2) / 3) - (8 * n + 5) / 6 == if r == 0 then 0 else 3 - r
  {
    assert (n + 2) / 3 == q + (r + 2) / 3;
    assert 8 * n + 5 == 6 * (4 * q) + (8 * r + 5);
    assert (8 * n + 5) / 6 == 4 * q + (8 * r + 5) / 6;
  }

  /** None, two or one padding characters, by the length modulo three. */
  lemma PaddingCount(data: seq<Byte>)
    ensures |Base64Encode(data)| - (8 * |data| + 5) / 6 == match |data| % 3 case 0 => 0 case 1 => 2 case _ => 1
  {
    EncodedLength(data);
    DigitsAndGroups(|data|, |data| / 3, |data| % 3);
  }

  /** The decoder inverts the encoder up to trailing zero bytes, hence exactly on data that
      does not end in one. */
  lemma {:induction false} Base64RoundTrip(data: seq<Byte>)
    ensures Decoded(Base64Encode(data)) == Ok(StripZeros(data))
    ensures Decoded(Base64Encode(data)) == Ok(data) <==> !EndsInZero(data)
  {
    DecodeBlockEncode(data);
    StripPadding(data, (3 - |data| % 3) % 3);
    StripZerosMeaning(data);
  }

  // ---------- The encrypted payload ----------

  type Key = seq<Byte>

  /** Plain text, one character per byte. */
  type Text = s: string | forall c :: c in s ==> c as int < 256

  const IV_SIZE := 12
  const TAG_SIZE := 16

  datatype Sealed = Sealed(cipher: seq<Byte>, tag: seq<Byte>)

  /** AES-256-GCM and the digest that derives the key. */
  datatype Crypto = Crypto(
    digest: string -> Key,
    seal: (Key, seq<Byte>, Text) -> Sealed,
    open: (Key, seq<Byte>, seq<Byte>, seq<Byte>) -> Option<Text>)

  /** What is assumed of the cipher: opening inverts sealing, tags have 16 bytes, sealing keeps the
      length of the text, and nothing opens that sealing does not make. */
  ghost predicate Lawful(crypto: Crypto) {
    && (forall key: Key, iv: seq<Byte>, plain: Text ::
          var sealed := crypto.seal(key, iv, plain);
          && |sealed.tag| == TAG_SIZE && |sealed.cipher| == |plain|
          && crypto.open(key, iv, sealed.tag, sealed.cipher) == Some(plain))
    && (forall key: Key, iv: seq<Byte>, tag: seq<Byte>, cipher: seq<Byte> ::
          var plain := crypto.open(key, iv, tag, cipher);
          plain.Some? ==> crypto.seal(key, iv, plain.value) == Sealed(cipher, tag))
  }

  function TextBytes(text: Text): seq<Byte> {
    seq(|text|, i requires 0 <= i < |text| => text[i] as int)
  }

  function BytesText(bytes: seq<Byte>): Text {
    seq(|bytes|, i requires 0 <= i < |bytes| => bytes[i] as char)
  }

  function Shift(bytes: seq<Byte>, shift: Byte): seq<Byte> {
    seq(|bytes|, i requires 0 <= i < |bytes| => (bytes[i] + shift) % 256)
  }

  function Negative(shift: Byte): Byte {
    (256 - shift) % 256
  }

  /** A toy stream cipher: every byte is shifted by the first byte of the vector, and the only tag
      is zero. */
  const SHIFT_CIPHER := Crypto(
    (masterKey: string) => [],
    (key: Key, iv: seq<Byte>, plain: Text) => Sealed(Shift(TextBytes(plain), ByteAt(iv, 0)), Zeros(TAG_SIZE)),
    (key: Key, iv: seq<Byte>, tag: seq<Byte>, cipher: seq<Byte>) =>
      if tag == Zeros(TAG_SIZE) then Some(BytesText(Shift(cipher, Negative(ByteAt(iv, 0))))) else None)

  lemma ShiftByte(x: Byte, shift: Byte)
    ensures ((x + shift) % 256 + Negative(shift)) % 256 == x
    ensures ((x + Negative(shift)) % 256 + shift) % 256 == x
  {
    assert Negative(shift) == if shift == 0 then 0 else 256 - shift;
    assert (x + shift) % 256 == if x + shift < 256 then x + shift else x + shift - 256;
    assert (x + Negative(shift)) % 256 == if x + Negative(shift) < 256 then x + Negative(shift) else x + Negative(shift) - 256;
  }

  lemma ShiftBack(plain: Text, shift: Byte)
    ensures BytesText(Shift(Shift(TextBytes(plain), shift), Negative(shift))) == plain
  {
    var back := BytesText(Shift(Shift(TextBytes(plain), shift), Negative(shift)));
    forall i | 0 <= i < |plain|
      ensures back[i] == plain[i]
    {
      ShiftByte(plain[i] as int, shift);
    }
  }

  lemma ShiftForth(cipher: seq<Byte>, shift: Byte)
    ensures Shift(TextBytes(BytesText(Shift(cipher, Negative(shift)))), shift) == cipher
  {
    var forth := Shift(TextBytes(BytesText(Shift(cipher, Negative(shift)))), shift);
    forall i | 0 <= i < |cipher|
      ensures forth[i] == cipher[i]
    {
      ShiftByte(cipher[i], shift);
    }
  }

  /** The laws can be met. */
  lemma ShiftCipherIsLawful()
    ensures Lawful(SHIFT_CIPHER)
  {
    forall iv: seq<Byte>, plain: Text
      ensures BytesText(Shift(Shift(TextBytes(plain), ByteAt(iv, 0)), Negative(ByteAt(iv, 0)))) == plain
    {
      ShiftBack(plain, ByteAt(iv, 0));
    }
    forall iv: seq<Byte>, cipher: seq<Byte>
      ensures Shift(TextBytes(BytesText(Shift(cipher, Negative(ByteAt(iv, 0))))), ByteAt(iv, 0)) == cipher
    {
      ShiftForth(cipher, ByteAt(iv, 0));
    }
  }

  /** The vector that shifts the last byte of `plain` to zero. */
  function UnluckyVector(plain: Text): (iv: seq<Byte>)
    ensures |iv| == IV_SIZE
  {
    seq(IV_SIZE, i => if plain == "" then 0 else Negative(plain[|plain| - 1] as int))
  }

  function DeriveKey(crypto: Crypto, masterKey: string): Result<Key, Error> {
    if masterKey == "" then Err(MasterKeyNotSet) else Ok(crypto.digest(masterKey))
  }

  function Payload(crypto: Crypto, key: Key, iv: seq<Byte>, plain: Text): seq<Byte> {
    var sealed := crypto.seal(key, iv, plain);
    iv + sealed.tag + sealed.cipher
  }

  /** `iv` stands for the twelve random bytes. */
  function Encrypt(crypto: Crypto, masterKey: string, iv: seq<Byte>, plain: Text): Result<string, Error> {
    match DeriveKey(crypto, masterKey)
    case Err(e) => Err(e)
    case Ok(key) => Ok(Base64Encode(Payload(crypto, key, iv, plain)))
  }

  function Decrypt(crypto: Crypto, masterKey: string, text: string): Result<Text, Error> {
    match Decoded(text)
    case Err(e) => Err(e)
    case Ok(payload) =>
      if |payload| < IV_SIZE + TAG_SIZE then Err(PayloadTooShort)
      else match DeriveKey(crypto, masterKey)
        case Err(e) => Err(e)
        case Ok(key) =>
          var iv, tag, cipher := payload[..12], payload[12..28], payload[28..];
          match crypto.open(key, iv, tag, cipher)
          case None => Err(NotAuthentic)
          case Some(plain) => Ok(plain)
  }

  /** Whether decryption will recover what is sealed with this vector. */
  predicate Recoverable(crypto: Crypto, masterKey: string, iv: seq<Byte>, plain: Text) {
    masterKey != "" && !EndsInZero(Payload(crypto, crypto.digest(masterKey), iv, plain))
  }

  lemma UnluckyShift(plain: Text)
    ensures var cipher := Shift(TextBytes(plain), ByteAt(UnluckyVector(plain), 0));
            |cipher| == |plain| && (plain != "" ==> cipher[|plain| - 1] == 0)
  {
    if plain != "" {
      var last := plain[|plain| - 1] as int;
      assert (last + Negative(last)) % 256 == 0;
    }
  }

  lemma UnluckyVectorLoses(masterKey: string, plain: Text)
    ensures !Recoverable(SHIFT_CIPHER, masterKey, UnluckyVector(plain), plain)
  {
    var payload := Payload(SHIFT_CIPHER, SHIFT_CIPHER.digest(masterKey), UnluckyVector(plain), plain);
    var cipher := Shift(TextBytes(plain), ByteAt(UnluckyVector(plain), 0));
    UnluckyShift(plain);
    assert payload == UnluckyVector(plain) + Zeros(TAG_SIZE) + cipher;
    assert payload[|payload| - 1] == 0;
  }

  lemma SealedFacts(crypto: Crypto, key: Key, iv: seq<Byte>, plain: Text)
    requires Lawful(crypto)
    ensures var sealed := crypto.seal(key, iv, plain);
            && |sealed.tag| == TAG_SIZE && |sealed.cipher| == |plain|
            && crypto.open(key, iv, sealed.tag, sealed.cipher) == Some(plain)
  {
  }

  lemma OpenedFacts(crypto: Crypto, key: Key, iv: seq<Byte>, tag: seq<Byte>, cipher: seq<Byte>)
    requires Lawful(crypto)
    ensures var plain := crypto.open(key, iv, tag, cipher);
            plain.Some? ==> |plain.value| == |cipher| && crypto.seal(key, iv, plain.value) == Sealed(cipher, tag)
  {
    var plain := crypto.open(key, iv, tag, cipher);
    if plain.Some? {
      SealedFacts(crypto, key, iv, plain.value);
    }
  }

  lemma PayloadParts(crypto: Crypto, key: Key, iv: seq<Byte>, plain: Text)
    requires Lawful(crypto) && |iv| == IV_SIZE
    ensures var payload, sealed := Payload(crypto, key, iv, plain), crypto.seal(key, iv, plain);
            && |payload| == IV_SIZE + TAG_SIZE + |plain|
            && payload[..12] == iv && payload[12..28] == sealed.tag && payload[28..] == sealed.cipher
            && crypto.open(key, payload[..12], payload[12..28], payload[28..]) == Some(plain)
  {
    SealedFacts(crypto, key, iv, plain);
    var payload, sealed := Payload(crypto, key, iv, plain), crypto.seal(key, iv, plain);
    assert payload[..12] == iv && payload[12..28] == sealed.tag && payload[28..] == sealed.cipher;
  }

  /** A shorter payload cannot decrypt to a text of the full length. */
  lemma ShortPayloadFails(crypto: Crypto, masterKey: string, text: string, kept: seq<Byte>, plain: Text)
    requires Lawful(crypto) && Decoded(text) == Ok(kept) && |kept| < IV_SIZE + TAG_SIZE + |plain|
    ensures Decrypt(crypto, masterKey, text) != Ok(plain)
  {
    if |kept| >= IV_SIZE + TAG_SIZE {
      OpenedFacts(crypto, crypto.digest(masterKey), kept[..12], kept[12..28], kept[28..]);
    }
  }

  lemma FullPayloadSucceeds(crypto: Crypto, masterKey: string, text: string, iv: seq<Byte>, plain: Text)
    requires Lawful(crypto) && |iv| == IV_SIZE && masterKey != ""
    requires Decoded(text) == Ok(Payload(crypto, crypto.digest(masterKey), iv, plain))
    ensures Decrypt(crypto, masterKey, text) == Ok(plain)
  {
    PayloadParts(crypto, crypto.digest(masterKey), iv, plain);
  }

  /** Decryption sees the payload without its trailing zeros and cannot make up for a loss. */
  lemma DecryptStripped(crypto: Crypto, masterKey: string, iv: seq<Byte>, plain: Text)
    requires Lawful(crypto) && |iv| == IV_SIZE && masterKey != ""
    ensures var payload := Payload(crypto, crypto.digest(masterKey), iv, plain);
            Decrypt(crypto, masterKey, Base64Encode(payload)) == Ok(plain) <==> StripZeros(payload) == payload
  {
    var payload := Payload(crypto, crypto.digest(masterKey), iv, plain);
    Base64RoundTrip(payload);
    StripZerosMeaning(payload);
    PayloadParts(crypto, crypto.digest(masterKey), iv, plain);
    if StripZeros(payload) == payload {
      FullPayloadSucceeds(crypto, masterKey, Base64Encode(payload), iv, plain);
    } else {
      ShortPayloadFails(crypto, masterKey, Base64Encode(payload), StripZeros(payload), plain);
    }
  }

  /** For every text, the empty one included: encryption fails exactly without a master key,
      and decryption returns the text exactly when the payload does not end in a zero byte. */
  lemma {:induction false} EnvelopeRoundTrip(crypto: Crypto, masterKey: string, iv: seq<Byte>, plain: Text)
    requires Lawful(crypto) && |iv| == IV_SIZE
    ensures Encrypt(crypto, masterKey, iv, plain).Ok? <==> masterKey != ""
    ensures masterKey != "" ==>
              var text := Encrypt(crypto, masterKey, iv, plain).value;
              && text != ""
              && (Decrypt(crypto, masterKey, text) == Ok(plain) <==> Recoverable(crypto, masterKey, iv, plain))
  {
    if masterKey != "" {
      var payload := Payload(crypto, crypto.digest(masterKey), iv, plain);
      StripZerosMeaning(payload);
      DecryptStripped(crypto, masterKey, iv, plain);
    }
  }

  /** Only what encryption makes decrypts: a text yields `plain` exactly when, under a master key,
      it decodes to the payload that sealing `plain` with the text's own vector makes. */
  lemma {:induction false} DecryptIff(crypto: Crypto, masterKey: string, text: string, plain: Text)
    requires Lawful(crypto)
    ensures Decrypt(crypto, masterKey, text) == Ok(plain)
       <==> && masterKey != "" && Decoded(text).Ok? && |Decoded(text).value| >= 28
            && Decoded(text).value == Payload(crypto, crypto.digest(masterKey), Decoded(text).value[..12], plain)
  {
    if masterKey != "" && Decoded(text).Ok? && |Decoded(text).value| >= 28 {
      var payload, key := Decoded(text).value, crypto.digest(masterKey);
      OpenedFacts(crypto, key, payload[..12], payload[12..28], payload[28..]);
      assert payload == payload[..12] + payload[12..28] + payload[28..];
      PayloadParts(crypto, key, payload[..12], plain);
    }
  }

  /** Which of the four errors is reported, in the order of the checks. */
  lemma {:induction false} DecryptErrors(crypto: Crypto, masterKey: string, text: string)
    requires Lawful(crypto)
    ensures var outcome := Decrypt(crypto, masterKey, text);
            && (outcome == Err(InvalidBase64) <==> !IsBase64(text))
            && (IsBase64(text) ==>
                  var payload := Decoded(text).value;
                  && (outcome == Err(PayloadTooShort) <==> |payload| < 28)
                  && (outcome == Err(MasterKeyNotSet) <==> |payload| >= 28 && masterKey == "")
                  && (outcome == Err(NotAuthentic) <==>
                        && |payload| >= 28 && masterKey != ""
                        && forall plain: Text :: payload != Payload(crypto, crypto.digest(masterKey), payload[..12], plain)))
  {
    DecodesIff(text);
    forall plain: Text
      ensures Decrypt(crypto, masterKey, text) == Ok(plain)
         <==> && masterKey != "" && Decoded(text).Ok? && |Decoded(text).value| >= 28
              && Decoded(text).value == Payload(crypto, crypto.digest(masterKey), Decoded(text).value[..12], plain)
    {
      DecryptIff(crypto, masterKey, text, plain);
    }
  }
}
