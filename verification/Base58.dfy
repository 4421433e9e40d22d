/** Base58Check decoding as the storage tools do it, against Base58 encoding.

    The hash is a parameter, so every statement holds for whatever hash is used.
 */
module Base58 {
  import opened Wrappers
  import opened Numerals

  const ALPHABET: string := "123456789" + "ABCDEFGHJKLMNPQRSTUVWXYZ" + "abcdefghijkmnopqrstuvwxyz"

  // ----- the alphabet -----

  /** The characters are in ascending order, so none occurs twice. */
  lemma AlphabetAscends()
    ensures |ALPHABET| == 58
    ensures forall i, j :: 0 <= i < j < 58 ==> ALPHABET[i] < ALPHABET[j]
  {
    var d, u, l := "123456789", "ABCDEFGHJKLMNPQRSTUVWXYZ", "abcdefghijkmnopqrstuvwxyz";
    assert |d| == 9 && |u| == 24 && |l| == 25;
    assert forall i :: 0 <= i < 9 ==> d[i] as int == 49 + i;
    assert forall i :: 0 <= i < 24 ==> u[i] as int == if i < 8 then 65 + i else if i < 13 then 66 + i else 67 + i;
    assert forall i :: 0 <= i < 25 ==> l[i] as int == if i < 11 then 97 + i else 98 + i;
    forall i | 0 <= i < 58
      ensures ALPHABET[i] == if i < 9 then d[i] else if i < 33 then u[i - 9] else l[i - 33]
    {
    }
  }

  /** The alphabet: the digits and letters except those that look alike. */
  lemma AlphabetIs(c: char)
    ensures c in ALPHABET
       <==> ('0' <= c <= '9' || 'A' <= c <= 'Z' || 'a' <= c <= 'z') && c != '0' && c != 'O' && c != 'I' && c != 'l'
  {
    var d, u, l := "123456789", "ABCDEFGHJKLMNPQRSTUVWXYZ", "abcdefghijkmnopqrstuvwxyz";
    assert c in ALPHABET <==> c in d || c in u || c in l;
    DigitsAre(c);
    UpperAre(c);
    LowerAre(c);
  }

  lemma DigitsAre(c: char)
    ensures c in "123456789" <==> '1' <= c <= '9'
  {
    var d := "123456789";
    assert forall i :: 0 <= i < 9 ==> d[i] as int == 49 + i;
    if '1' <= c <= '9' {
      assert d[c as int - 49] == c;
    }
  }

  lemma UpperAre(c: char)
    ensures c in "ABCDEFGHJKLMNPQRSTUVWXYZ" <==> 'A' <= c <= 'Z' && c != 'O' && c != 'I'
  {
    var u := "ABCDEFGHJKLMNPQRSTUVWXYZ";
    assert forall i :: 0 <= i < 24 ==> u[i] as int == if i < 8 then 65 + i else if i < 13 then 66 + i else 67 + i;
    if 'A' <= c <= 'Z' && c != 'O' && c != 'I' {
      var n := c as int - 65;
      assert u[if n < 8 then n else if n < 14 then n - 1 else n - 2] == c;
    }
  }

  lemma LowerAre(c: char)
    ensures c in "abcdefghijkmnopqrstuvwxyz" <==> 'a' <= c <= 'z' && c != 'l'
  {
    var l := "abcdefghijkmnopqrstuvwxyz";
    assert forall i :: 0 <= i < 25 ==> l[i] as int == if i < 11 then 97 + i else 98 + i;
    if 'a' <= c <= 'z' && c != 'l' {
      var n := c as int - 97;
      assert l[if n < 11 then n else n - 1] == c;
    }
  }

  method Index(c: char) returns (r: Option<nat>)
    ensures r.Some? ==> r.value < |ALPHABET| && ALPHABET[r.value] == c
    ensures r.None? ==> c !in ALPHABET
  {
    for i := 0 to |ALPHABET|
      invariant c !in ALPHABET[..i]
    {
      if ALPHABET[i] == c {
        return Some(i);
      }
      assert ALPHABET[..i + 1] == ALPHABET[..i] + [ALPHABET[i]];
    }
    assert ALPHABET[..|ALPHABET|] == ALPHABET;
    return None;
  }

  /** The characters of Base58 digits. */
  function Text(digits: seq<nat>): string
    requires Digits(58, digits)
  {
    AlphabetAscends();
    seq(|digits|, i requires 0 <= i < |digits| => ALPHABET[digits[i]])
  }

  lemma TextIsInjective(a: seq<nat>, b: seq<nat>)
    requires Digits(58, a) && Digits(58, b) && Text(a) == Text(b)
    ensures a == b
  {
    AlphabetAscends();
    assert |a| == |Text(a)| == |b|;
    forall i | 0 <= i < |a| ensures a[i] == b[i] {
      assert Text(a)[i] == ALPHABET[a[i]] && Text(b)[i] == ALPHABET[b[i]];
    }
  }

  function LeadingOnes(value: string): nat {
    if value != "" && value[0] == '1' then 1 + LeadingOnes(value[1..]) else 0
  }

  lemma {:induction false} LeadingOnesAreZeros(digits: seq<nat>)
    requires Digits(58, digits)
    ensures LeadingOnes(Text(digits)) == LeadingZeros(digits)
  {
    AlphabetAscends();
    if digits != [] {
      assert ALPHABET[0] == '1' && Text(digits)[0] == ALPHABET[digits[0]];
      assert Text(digits)[1..] == Text(digits[1..]);
      LeadingOnesAreZeros(digits[1..]);
    }
  }

  // ----- bytes of a number -----

  function BitLength(n: nat): nat {
    if n == 0 then 0 else 1 + BitLength(n / 2)
  }

  function ByteLength(n: nat): nat {
    (BitLength(n) + 7) / 8
  }

  /** The `width` low-order bytes of `n`, most significant first. */
  function ToBytes(n: nat, width: nat): seq<nat> {
    if width == 0 then [] else ToBytes(n / 256, width - 1) + [n % 256]
  }

  lemma BitLengthOfQuotient(n: nat)
    ensures BitLength(n) == if n < 2 then n else if n < 4 then 2 else if n < 8 then 3 else if n < 16 then 4
                            else 4 + BitLength(n / 16)
  {
    assert n / 2 / 2 == n / 4 && n / 4 / 2 == n / 8 && n / 8 / 2 == n / 16;
    assert BitLength(n / 2) == if n < 2 then 0 else 1 + BitLength(n / 4);
    assert BitLength(n / 4) == if n < 4 then 0 else 1 + BitLength(n / 8);
    assert BitLength(n / 8) == if n < 8 then 0 else 1 + BitLength(n / 16);
  }

  lemma ByteLengthStep(n: nat)
    requires n != 0
    ensures ByteLength(n) == 1 + ByteLength(n / 256)
  {
    BitLengthOfQuotient(n);
    BitLengthOfQuotient(n / 16);
    assert n / 16 / 16 == n / 256;
  }

  /** The width computed from the bit length makes the bytes the shortest numeral in base 256. */
  lemma {:induction false} ShortestBytes(n: nat)
    ensures ToBytes(n, ByteLength(n)) == Numeral(256, n)
  {
    if n != 0 {
      ByteLengthStep(n);
      ShortestBytes(n / 256);
    }
  }

  // ----- decoding -----

  /** Base58 of a byte string: leading zero bytes become leading `1`s. */
  function Encode(bytes: seq<Byte>): string {
    Text(Convert(256, 58, bytes))
  }

  ghost predicate LongEnough(hash: seq<Byte> -> seq<Byte>) {
    forall x :: 4 <= |hash(x)|
  }

  /** Decoding before the checksum: `None` for a character outside the alphabet. */
  method DecodeDigits(value: string) returns (r: Option<seq<Byte>>)
    ensures r.None? ==> forall bytes: seq<Byte> :: value != Encode(bytes)
    ensures r.Some? ==> value == Encode(r.value)
  {
    AlphabetAscends();
    var number := 0;
    ghost var digits: seq<nat> := [];
    for i := 0 to |value|
      invariant Digits(58, digits) && Text(digits) == value[..i] && number == Value(58, digits)
    {
      var digit := Index(value[i]);
      if digit.None? {
        forall bytes: seq<Byte> ensures value != Encode(bytes) {
          NotEncoded(value, i, bytes);
        }
        return None;
      }
      number := number * 58 + digit.value;
      assert (digits + [digit.value])[..|digits|] == digits;
      assert value[..i + 1] == value[..i] + [value[i]];
      digits := digits + [digit.value];
    }
    assert value[..|value|] == value;
    var decoded := Zeros(LeadingOnes(value)) + ToBytes(number, ByteLength(number));
    LeadingOnesAreZeros(digits);
    ShortestBytes(number);
    assert decoded == Convert(58, 256, digits);
    ConvertBack(58, 256, digits);
    return Some(decoded);
  }

  lemma NotEncoded(value: string, i: nat, bytes: seq<Byte>)
    requires i < |value| && value[i] !in ALPHABET
    ensures value != Encode(bytes)
  {
    AlphabetAscends();
    var digits := Convert(256, 58, bytes);
    assert i < |digits| ==> Text(digits)[i] in ALPHABET;
  }

  /** Encoding is injective, so `DecodeDigits` inverts it on all byte strings. */
  lemma EncodeIsInjective(a: seq<Byte>, b: seq<Byte>)
    requires Encode(a) == Encode(b)
    ensures a == b
  {
    TextIsInjective(Convert(256, 58, a), Convert(256, 58, b));
    ConvertBack(256, 58, a);
    ConvertBack(256, 58, b);
  }

  /** Every string over the alphabet is the encoding of exactly one byte string. */
  lemma EncodeIsOnto(digits: seq<nat>)
    requires Digits(58, digits)
    ensures exists bytes: seq<Byte> :: Encode(bytes) == Text(digits)
  {
    var bytes: seq<Byte> := Convert(58, 256, digits);
    ConvertBack(58, 256, digits);
    assert Encode(bytes) == Text(digits);
  }

  /** The strings accepted are exactly the encodings of a payload followed by its checksum. */
  method Base58CheckDecode(hash: seq<Byte> -> seq<Byte>, value: string) returns (r: Result<seq<Byte>>)
    requires LongEnough(hash)
    ensures forall payload: seq<Byte> ::
              r == Success(payload) <==> value == Encode(payload + hash(hash(payload))[..4])
  {
    var digits := DecodeDigits(value);
    if digits.None? {
      return Failure;
    }
    var decoded := digits.value;
    forall payload: seq<Byte>
      ensures value == Encode(payload + hash(hash(payload))[..4]) <==> decoded == payload + hash(hash(payload))[..4]
    {
      if value == Encode(payload + hash(hash(payload))[..4]) {
        EncodeIsInjective(decoded, payload + hash(hash(payload))[..4]);
      }
    }
    if |decoded| < 4 {
      return Failure;
    }
    var n := |decoded| - 4;
    var payload, checksum := decoded[..n], decoded[n..];
    assert decoded == payload + checksum;
    if checksum != hash(hash(payload))[..4] {
      return Failure;
    }
    return Success(payload);
  }

  /** Addresses are the encodings of the version byte and twenty more bytes. */
  method AddressToScriptHash(hash: seq<Byte> -> seq<Byte>, address: string, version: Byte) returns (r: Result<seq<Byte>>)
    requires LongEnough(hash)
    ensures forall account: seq<Byte> ::
              r == Success(account)
              <==> |account| == 20 && address == Encode([version] + account + hash(hash([version] + account))[..4])
  {
    var payload := Base58CheckDecode(hash, address);
    if payload.Failure? || |payload.value| != 21 || payload.value[0] != version {
      forall account: seq<Byte> | |account| == 20
        ensures address != Encode([version] + account + hash(hash([version] + account))[..4])
      {
        assert ([version] + account)[0] == version;
        assert payload != Success([version] + account);
      }
      return Failure;
    }
    assert payload.value == [version] + payload.value[1..];
    forall account: seq<Byte> | |account| == 20
        && address == Encode([version] + account + hash(hash([version] + account))[..4])
      ensures account == payload.value[1..]
    {
      assert payload == Success([version] + account);
    }
    return Success(payload.value[1..]);
  }
}
