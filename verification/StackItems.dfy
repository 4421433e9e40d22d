/** Decoding of NEP-17 account records: a serialized struct whose first field is the balance. */
module StackItems {
  import opened Wrappers

  const STACK_ITEM_INTEGER: Byte := 0x21
  const STACK_ITEM_STRUCT: Byte := 0x41

  // ----- little-endian integers -----

  function Power(n: nat): (p: nat)
    ensures 1 <= p && (0 < n ==> p % 256 == 0)
  {
    if n == 0 then 1 else 256 * Power(n - 1)
  }

  function Unsigned(s: seq<Byte>): (v: nat)
    ensures v < Power(|s|)
  {
    if s == [] then 0 else s[0] + 256 * Unsigned(s[1..])
  }

  /** Two's complement; the top bit of the last byte is the sign. */
  function Signed(s: seq<Byte>): int {
    if s != [] && 128 <= s[|s| - 1] then Unsigned(s) - Power(|s|) else Unsigned(s)
  }

  function UnsignedBytes(v: nat, width: nat): (s: seq<Byte>)
    ensures |s| == width
  {
    if width == 0 then [] else [v % 256] + UnsignedBytes(v / 256, width - 1)
  }

  /** The two's-complement form of `v` in `width` bytes, sign-extended where that is wider than needed. */
  function SignedBytes(v: int, width: nat): (s: seq<Byte>)
    requires Fits(v, width)
    ensures |s| == width
  {
    UnsignedBytes(if v < 0 then v + Power(width) else v, width)
  }

  predicate Fits(v: int, width: nat) {
    if width == 0 then v == 0 else -(Power(width) / 2) <= v < Power(width) / 2
  }

  lemma {:induction false} UnsignedRoundTrip(v: nat, width: nat)
    requires v < Power(width)
    ensures Unsigned(UnsignedBytes(v, width)) == v
  {
    if width != 0 {
      UnsignedRoundTrip(v / 256, width - 1);
    }
  }

  lemma LowByte(b: Byte, rest: nat)
    ensures (b + 256 * rest) % 256 == b && (b + 256 * rest) / 256 == rest
  {
  }

  lemma {:induction false} BytesOfUnsigned(s: seq<Byte>)
    ensures UnsignedBytes(Unsigned(s), |s|) == s
  {
    hide Power;
    if s != [] {
      BytesOfUnsigned(s[1..]);
      LowByte(s[0], Unsigned(s[1..]));
    }
  }

  /** The sign bit tells whether the unsigned value lies in the upper half. */
  lemma {:induction false} SignBit(s: seq<Byte>)
    requires s != []
    ensures 128 <= s[|s| - 1] <==> Power(|s|) / 2 <= Unsigned(s)
  {
    if |s| != 1 {
      SignBit(s[1..]);
      HalfPower(|s| - 1);
    } else {
      assert Power(1) == 256;
      assert Unsigned(s[1..]) == 0;
    }
  }

  lemma HalfPower(n: nat)
    requires 0 < n
    ensures Power(n + 1) / 2 == 256 * (Power(n) / 2)
  {
  }

  /** Every integer is read back from each of its encodings, minimal or sign-extended. */
  lemma SignedRoundTrip(v: int, width: nat)
    requires Fits(v, width)
    ensures Signed(SignedBytes(v, width)) == v
  {
    UnsignedRoundTrip(if v < 0 then v + Power(width) else v, width);
    if width != 0 {
      SignBit(SignedBytes(v, width));
    }
  }

  lemma TwosComplement(p: nat, u: nat)
    requires u < p && p % 2 == 0
    ensures p / 2 <= u ==> -(p / 2) <= u - p < 0
    ensures u < p / 2 ==> -(p / 2) <= u
  {
  }

  /** Conversely, bytes that are read as `v` are the encoding of `v` at their width. */
  lemma BytesOfSigned(s: seq<Byte>)
    ensures Fits(Signed(s), |s|) && SignedBytes(Signed(s), |s|) == s
  {
    hide Unsigned, UnsignedBytes, Power;
    BytesOfUnsigned(s);
    if s == [] {
      assert Unsigned(s) == 0 by { NoBytes(); }
    } else {
      SignBit(s);
      TwosComplement(Power(|s|), Unsigned(s));
    }
  }

  /** No integer is too large: some width fits. */
  lemma SomeWidthFits(v: int)
    ensures exists width :: Fits(v, width)
  {
    var n := (if v < 0 then -v else v) + 1;
    PowerIsLarge(n);
    assert Fits(v, n);
  }

  lemma {:induction false} PowerIsLarge(n: nat)
    ensures 2 * n <= Power(n)
  {
    if n != 0 {
      PowerIsLarge(n - 1);
    }
  }

  lemma NoBytes()
    ensures Unsigned([]) == 0
  {
  }

  // ----- variable-length integers -----

  datatype Read<T> = Read(value: T, offset: nat)

  function ReadVarInt(data: seq<Byte>, offset: nat): (r: Result<Read<nat>>)
    ensures r.Success? ==> offset < r.value.offset <= |data|
  {
    if |data| <= offset then Failure
    else
      var first, next := data[offset], offset + 1;
      if first < 0xFD then Success(Read(first, next))
      else
        var size := if first == 0xFD then 2 else if first == 0xFE then 4 else 8;
        if |data| < next + size then Failure
        else Success(Read(Unsigned(data[next..next + size]), next + size))
  }

  datatype Width = One | Three | Five | Nine {
    function Payload(): nat {
      match this case One => 0 case Three => 2 case Five => 4 case Nine => 8
    }

    function Marker(): Byte {
      match this case One => 0 case Three => 0xFD case Five => 0xFE case Nine => 0xFF
    }

    predicate Holds(n: nat) {
      if One? then n < 0xFD else n < Power(Payload())
    }
  }

  /** The encoding of `n` at any width that holds it, not only at the shortest. */
  function VarInt(n: nat, w: Width): (s: seq<Byte>)
    requires w.Holds(n)
    ensures |s| == 1 + w.Payload()
  {
    if w.One? then [n] else [w.Marker()] + UnsignedBytes(n, w.Payload())
  }

  /** `s` occurs in `data` at `offset`. */
  predicate At(data: seq<Byte>, offset: nat, s: seq<Byte>) {
    offset + |s| <= |data| && data[offset..offset + |s|] == s
  }

  /** Reading gives `n` exactly where some encoding of `n` stands. */
  lemma ReadVarIntIff(data: seq<Byte>, offset: nat, n: nat, end: nat)
    ensures ReadVarInt(data, offset) == Success(Read(n, end))
       <==> exists w: Width :: w.Holds(n) && At(data, offset, VarInt(n, w)) && end == offset + 1 + w.Payload()
  {
    if ReadVarInt(data, offset) == Success(Read(n, end)) {
      var first := data[offset];
      var w := if first < 0xFD then One else if first == 0xFD then Three else if first == 0xFE then Five else Nine;
      VarIntHere(data, offset, n, end, w);
    }
    forall w: Width | w.Holds(n) && At(data, offset, VarInt(n, w)) && end == offset + 1 + w.Payload()
      ensures ReadVarInt(data, offset) == Success(Read(n, end))
    {
      VarIntRead(data, offset, n, w);
    }
  }

  lemma VarIntHere(data: seq<Byte>, offset: nat, n: nat, end: nat, w: Width)
    requires ReadVarInt(data, offset) == Success(Read(n, end))
    requires if w.One? then data[offset] < 0xFD else data[offset] == w.Marker()
    ensures w.Holds(n) && At(data, offset, VarInt(n, w)) && end == offset + 1 + w.Payload()
  {
    if !w.One? {
      var next := offset + 1;
      var bytes := data[next..next + w.Payload()];
      BytesOfUnsigned(bytes);
      assert data[offset..end] == [data[offset]] + bytes;
    }
  }

  lemma VarIntRead(data: seq<Byte>, offset: nat, n: nat, w: Width)
    requires w.Holds(n) && At(data, offset, VarInt(n, w))
    ensures ReadVarInt(data, offset) == Success(Read(n, offset + 1 + w.Payload()))
  {
    var s := VarInt(n, w);
    assert data[offset] == s[0];
    if !w.One? {
      var next := offset + 1;
      assert data[next..next + w.Payload()] == data[offset..offset + |s|][1..] == s[1..];
      UnsignedRoundTrip(n, w.Payload());
    }
  }

  // ----- stack items -----

  function DecodeStackInteger(data: seq<Byte>, offset: nat): (r: Result<Read<int>>)
    ensures r.Success? ==> offset < r.value.offset <= |data|
  {
    if |data| <= offset || data[offset] != STACK_ITEM_INTEGER then Failure
    else
      var length := ReadVarInt(data, offset + 1);
      if length.Failure? then Failure
      else
        var start, end := length.value.offset, length.value.offset + length.value.value;
        if |data| < end then Failure else Success(Read(Signed(data[start..end]), end))
  }

  function IntegerItem(v: int, width: nat, w: Width): seq<Byte>
    requires Fits(v, width) && w.Holds(width)
  {
    [0x21] + VarInt(width, w) + SignedBytes(v, width)
  }

  lemma AtSplit(data: seq<Byte>, offset: nat, a: seq<Byte>, b: seq<Byte>)
    ensures At(data, offset, a + b) <==> At(data, offset, a) && At(data, offset + |a|, b)
  {
    var n := |a| + |b|;
    if offset + n <= |data| {
      var part := data[offset..offset + n];
      assert data[offset..offset + |a|] == part[..|a|];
      assert data[offset + |a|..offset + n] == part[|a|..];
      assert part == part[..|a|] + part[|a|..];
      assert (a + b)[..|a|] == a && (a + b)[|a|..] == b;
    }
  }

  lemma OneByte(data: seq<Byte>, offset: nat)
    requires offset < |data|
    ensures At(data, offset, [data[offset]])
  {
  }

  lemma Slice(data: seq<Byte>, start: nat, end: nat)
    requires start <= end <= |data|
    ensures At(data, start, data[start..end])
  {
  }

  lemma Prefix(data: seq<Byte>, s: seq<Byte>)
    requires At(data, 0, s)
    ensures |s| <= |data| && data == s + data[|s|..]
  {
  }

  lemma DecodesItem(data: seq<Byte>, offset: nat, v: int, width: nat, w: Width)
    requires Fits(v, width) && w.Holds(width) && At(data, offset, IntegerItem(v, width, w))
    ensures DecodeStackInteger(data, offset) == Success(Read(v, offset + |IntegerItem(v, width, w)|))
  {
    var tag, length, bytes := [STACK_ITEM_INTEGER], VarInt(width, w), SignedBytes(v, width);
    AtSplit(data, offset, tag + length, bytes);
    AtSplit(data, offset, tag, length);
    assert data[offset..offset + 1][0] == tag[0];
    VarIntRead(data, offset + 1, width, w);
    SignedRoundTrip(v, width);
  }

  lemma ItemDecoded(data: seq<Byte>, offset: nat, v: int, end: nat)
    requires DecodeStackInteger(data, offset) == Success(Read(v, end))
    ensures exists width: nat, w: Width ::
              Fits(v, width) && w.Holds(width) && At(data, offset, IntegerItem(v, width, w))
              && end == offset + |IntegerItem(v, width, w)|
  {
    hide ReadVarInt, Signed, SignedBytes, Fits, VarInt, At;
    var length := ReadVarInt(data, offset + 1).value;
    var width, start := length.value, length.offset;
    ReadVarIntIff(data, offset + 1, width, start);
    var w: Width :| w.Holds(width) && At(data, offset + 1, VarInt(width, w)) && start == offset + 2 + w.Payload();
    BytesOfSigned(data[start..end]);
    OneByte(data, offset);
    Slice(data, start, end);
    AtSplit(data, offset, [STACK_ITEM_INTEGER], VarInt(width, w));
    AtSplit(data, offset, [STACK_ITEM_INTEGER] + VarInt(width, w), SignedBytes(v, width));
    assert At(data, offset, IntegerItem(v, width, w));
  }

  // ----- account records -----

  /** `record` is the decoded storage value; a missing or empty one stands for a zero balance. */
  function DecodeBalance(record: Option<seq<Byte>>): Result<int> {
    if record.None? || record.value == [] then Success(0)
    else
      var data := record.value;
      if data[0] != STACK_ITEM_STRUCT then Failure
      else
        var count := ReadVarInt(data, 1);
        if count.Failure? || count.value.value < 1 then Failure
        else
          var balance := DecodeStackInteger(data, count.value.offset);
          if balance.Failure? then Failure else Success(balance.value.value)
  }

  /** An account record: a struct with `count` fields, the balance first and `rest` behind it. */
  function Record(count: nat, cw: Width, v: int, width: nat, w: Width, rest: seq<Byte>): seq<Byte>
    requires cw.Holds(count) && Fits(v, width) && w.Holds(width)
  {
    [0x41] + VarInt(count, cw) + IntegerItem(v, width, w) + rest
  }

  /** Every balance is read back from every record of it. */
  lemma BalanceRoundTrip(count: nat, cw: Width, v: int, width: nat, w: Width, rest: seq<Byte>)
    requires 1 <= count && cw.Holds(count) && Fits(v, width) && w.Holds(width)
    ensures DecodeBalance(Some(Record(count, cw, v, width, w, rest))) == Success(v)
  {
    var data := Record(count, cw, v, width, w, rest);
    var tag, c, item := [STACK_ITEM_STRUCT], VarInt(count, cw), IntegerItem(v, width, w);
    Whole(data);
    AtSplit(data, 0, tag + c + item, rest);
    AtSplit(data, 0, tag + c, item);
    AtSplit(data, 0, tag, c);
    VarIntRead(data, 1, count, cw);
    DecodesItem(data, |tag + c|, v, width, w);
  }

  lemma Whole(data: seq<Byte>)
    ensures At(data, 0, data)
  {
    assert data[0..|data|] == data;
  }

  /** A non-empty record that decodes to `v` is a record of `v`; anything else is refused. */
  lemma BalanceOnlyFromRecords(data: seq<Byte>, v: int)
    requires data != [] && DecodeBalance(Some(data)) == Success(v)
    ensures exists count: nat, cw: Width, width: nat, w: Width, rest: seq<Byte> ::
              1 <= count && cw.Holds(count) && Fits(v, width) && w.Holds(width)
              && data == Record(count, cw, v, width, w, rest)
  {
    hide ReadVarInt, DecodeStackInteger, Fits, VarInt, IntegerItem, At;
    var c := ReadVarInt(data, 1).value;
    var count, start := c.value, c.offset;
    var end := DecodeStackInteger(data, start).value.offset;
    ReadVarIntIff(data, 1, count, start);
    var cw: Width :| cw.Holds(count) && At(data, 1, VarInt(count, cw)) && start == 2 + cw.Payload();
    ItemDecoded(data, start, v, end);
    var width: nat, w: Width :| Fits(v, width) && w.Holds(width) && At(data, start, IntegerItem(v, width, w))
                                && end == start + |IntegerItem(v, width, w)|;
    var tag, n, item := [STACK_ITEM_STRUCT], VarInt(count, cw), IntegerItem(v, width, w);
    OneByte(data, 0);
    AtSplit(data, 0, tag, n);
    AtSplit(data, 0, tag + n, item);
    Prefix(data, tag + n + item);
    assert data == Record(count, cw, v, width, w, data[end..]);
  }

  /** A balance is returned if and only if there is no record, or an empty one, and the balance is 0, or the bytes
      are a record of it. */
  lemma BalanceIff(record: Option<seq<Byte>>, v: int)
    ensures DecodeBalance(record) == Success(v)
       <==> if record.None? || record.value == [] then v == 0 else IsRecord(record.value, v)
  {
    hide ReadVarInt, DecodeStackInteger, Fits, Record;
    if record.Some? && record.value != [] {
      var data := record.value;
      if DecodeBalance(record) == Success(v) {
        BalanceOnlyFromRecords(data, v);
      }
      if IsRecord(data, v) {
        var count: nat, cw: Width, width: nat, w: Width, rest: seq<Byte> :|
          1 <= count && cw.Holds(count) && Fits(v, width) && w.Holds(width) && data == Record(count, cw, v, width, w, rest);
        BalanceRoundTrip(count, cw, v, width, w, rest);
      }
    }
  }

  ghost predicate IsRecord(data: seq<Byte>, v: int) {
    exists count: nat, cw: Width, width: nat, w: Width, rest: seq<Byte> ::
      1 <= count && cw.Holds(count) && Fits(v, width) && w.Holds(width) && data == Record(count, cw, v, width, w, rest)
  }
}
