/** Reading stored trie rows: the general reader and the check of persisted rows.

    A persisted row is the bytes of a row and its reference count. The check accepts
    exactly those, and the reader gives back from them what was written.
 */
module TrieStore {
  import opened Wrappers
  import opened StackItems
  import opened Trie
  import opened TrieProof
  import opened TrieRows

  const I32_LIMIT: nat := 0x8000_0000

  datatype NodeType = BranchNode | ExtensionNode | LeafNode | HashNode | EmptyNode

  function FromByte(b: Byte): Option<NodeType> {
    match b
    case 0 => Some(BranchNode)
    case 1 => Some(ExtensionNode)
    case 2 => Some(LeafNode)
    case 3 => Some(HashNode)
    case 4 => Some(EmptyNode)
    case _ => None
  }

  function TypeAt(data: seq<Byte>, offset: nat): Option<NodeType> {
    if offset < |data| then FromByte(data[offset]) else None
  }

  // ----- reading -----

  /** A node as the reader gives it; children may be nodes of any type. */
  datatype Parsed = Parsed(body: Body, reference: int)

  datatype Body =
    | BranchBody(children: seq<Parsed>)
    | ExtensionBody(key: seq<Byte>, next: Parsed)
    | LeafBody(value: seq<Byte>)
    | HashBody(hash: Hash)
    | EmptyBody

  function ReadVarBytes(data: seq<Byte>, offset: nat, max: nat): (r: Result<Read<seq<Byte>>>)
    ensures r.Success? ==> offset < r.value.offset <= |data|
  {
    var n := ReadVarInt(data, offset);
    if n.Failure? || max < n.value.value || |data| < n.value.offset + n.value.value then Failure
    else Success(Read(data[n.value.offset..n.value.offset + n.value.value], n.value.offset + n.value.value))
  }

  /** The low 32 bits as a signed integer. */
  function AsI32(n: nat): int {
    var low := n % (2 * I32_LIMIT);
    if low < I32_LIMIT then low else low - 2 * I32_LIMIT
  }

  function ReadBody(data: seq<Byte>, offset: nat, depth: nat): (r: Result<Read<Body>>)
    requires offset <= |data|
    ensures r.Success? ==> offset < r.value.offset <= |data|
    decreases |data| - offset, 0
  {
    if MAX_KEY_LENGTH < depth then Failure
    else
      match TypeAt(data, offset)
      case None => Failure
      case Some(BranchNode) =>
        var children := ReadChildren(data, offset + 1, depth + 1, CHILDREN);
        if children.Failure? then Failure
        else Success(Read(BranchBody(children.value.value), children.value.offset))
      case Some(ExtensionNode) =>
        var key := ReadVarBytes(data, offset + 1, MAX_KEY_LENGTH);
        if key.Failure? then Failure
        else
          var next := ReadNode(data, key.value.offset, depth + 1);
          if next.Failure? then Failure
          else Success(Read(ExtensionBody(key.value.value, next.value.value), next.value.offset))
      case Some(LeafNode) =>
        var value := ReadVarBytes(data, offset + 1, MAX_VALUE_LENGTH);
        if value.Failure? then Failure else Success(Read(LeafBody(value.value.value), value.value.offset))
      case Some(HashNode) =>
        if |data| < offset + 33 then Failure else Success(Read(HashBody(data[offset + 1..offset + 33]), offset + 33))
      case Some(EmptyNode) => Success(Read(EmptyBody, offset + 1))
  }

  /** A node with the reference count behind it, which hashes and empty nodes do not have. */
  function ReadNode(data: seq<Byte>, offset: nat, depth: nat): (r: Result<Read<Parsed>>)
    requires offset <= |data|
    ensures r.Success? ==> offset < r.value.offset <= |data|
    decreases |data| - offset, 1
  {
    var body := ReadBody(data, offset, depth);
    if body.Failure? then Failure
    else if body.value.value.HashBody? || body.value.value.EmptyBody? then
      Success(Read(Parsed(body.value.value, 0), body.value.offset))
    else
      var n := ReadVarInt(data, body.value.offset);
      if n.Failure? then Failure
      else Success(Read(Parsed(body.value.value, AsI32(n.value.value)), n.value.offset))
  }

  function ReadChildren(data: seq<Byte>, offset: nat, depth: nat, n: nat): (r: Result<Read<seq<Parsed>>>)
    requires offset <= |data|
    ensures r.Success? ==> offset <= r.value.offset <= |data|
    decreases |data| - offset, n + 2
  {
    if n == 0 then Success(Read([], offset))
    else
      var child := ReadNode(data, offset, depth);
      if child.Failure? then Failure
      else
        var rest := ReadChildren(data, child.value.offset, depth, n - 1);
        if rest.Failure? then Failure
        else Success(Read([child.value.value] + rest.value.value, rest.value.offset))
  }

  // ----- what is written is read back -----

  /** The limits that the trie keeps its keys and values to. */
  predicate Storable(row: Row) {
    match row
    case LeafRow(v) => |v| <= MAX_VALUE_LENGTH
    case ExtensionRow(key, _) => |key| <= MAX_KEY_LENGTH
    case BranchRow(children) => |children| == CHILDREN
  }

  function ChildOf(r: Ref): Parsed {
    match r
    case Nothing => Parsed(EmptyBody, 0)
    case To(hash) => Parsed(HashBody(hash), 0)
  }

  function ChildrenOf(refs: seq<Ref>): seq<Parsed> {
    if refs == [] then [] else [ChildOf(refs[0])] + ChildrenOf(refs[1..])
  }

  function BodyOf(row: Row): Body {
    match row
    case LeafRow(v) => LeafBody(v)
    case ExtensionRow(key, next) => ExtensionBody(key, ChildOf(next))
    case BranchRow(children) => BranchBody(ChildrenOf(children))
  }

  lemma FirstByte(data: seq<Byte>, offset: nat, b: Byte, s: seq<Byte>)
    requires At(data, offset, [b] + s)
    ensures offset < |data| && data[offset] == b && At(data, offset + 1, s)
  {
    AtSplit(data, offset, [b], s);
    assert data[offset..offset + 1][0] == b;
  }

  lemma VarBytesRead(data: seq<Byte>, offset: nat, s: seq<Byte>, max: nat)
    requires |s| < Power(8) && At(data, offset, VarBytes(s))
    ensures ReadVarBytes(data, offset, max)
         == if |s| <= max then Success(Read(s, offset + |VarBytes(s)|)) else Failure
  {
    hide VarInt, ReadVarInt, Power;
    var w := WidthFor(|s|);
    AtSplit(data, offset, VarInt(|s|, w), s);
    VarIntRead(data, offset, |s|, w);
  }

  lemma RefRead(data: seq<Byte>, offset: nat, ref: Ref, depth: nat)
    requires At(data, offset, RefBytes(ref)) && depth <= MAX_KEY_LENGTH
    ensures ReadNode(data, offset, depth) == Success(Read(ChildOf(ref), offset + |RefBytes(ref)|))
  {
    match ref
    case Nothing => FirstByte(data, offset, 4, []);
    case To(hash) => FirstByte(data, offset, 3, hash);
  }

  lemma {:induction false} RefsRead(data: seq<Byte>, offset: nat, refs: seq<Ref>, depth: nat)
    requires offset <= |data| && At(data, offset, RefsBytes(refs)) && depth <= MAX_KEY_LENGTH
    ensures ReadChildren(data, offset, depth, |refs|) == Success(Read(ChildrenOf(refs), offset + |RefsBytes(refs)|))
    decreases |refs|
  {
    hide RefBytes, ReadNode, ChildOf;
    if refs != [] {
      AtSplit(data, offset, RefBytes(refs[0]), RefsBytes(refs[1..]));
      RefRead(data, offset, refs[0], depth);
      RefsRead(data, offset + |RefBytes(refs[0])|, refs[1..], depth);
    }
  }

  /** The bytes of a row read back as the row, and are refused exactly if it exceeds the limits. */
  lemma RowRead(data: seq<Byte>, offset: nat, row: Row)
    requires Encodable(row) && At(data, offset, RowBytes(row))
    ensures offset <= |data|
    ensures ReadBody(data, offset, 0)
         == if Storable(row) then Success(Read(BodyOf(row), offset + |RowBytes(row)|)) else Failure
  {
    hide ReadBody, At, Power, VarBytes, RefBytes, RefsBytes;
    match row
    case BranchRow(children) => BranchRead(data, offset, children);
    case ExtensionRow(key, next) => ExtensionRead(data, offset, key, next);
    case LeafRow(v) => LeafRead(data, offset, v);
  }

  lemma BranchRead(data: seq<Byte>, offset: nat, children: seq<Ref>)
    requires |children| == CHILDREN && At(data, offset, [0] + RefsBytes(children))
    ensures offset <= |data|
    ensures ReadBody(data, offset, 0)
         == Success(Read(BranchBody(ChildrenOf(children)), offset + 1 + |RefsBytes(children)|))
  {
    hide At, RefsBytes, ReadChildren, ChildrenOf, ReadNode;
    FirstByte(data, offset, 0, RefsBytes(children));
    RefsRead(data, offset + 1, children, 1);
  }

  lemma ExtensionRead(data: seq<Byte>, offset: nat, key: seq<Byte>, next: Ref)
    requires |key| < Power(8) && At(data, offset, [1] + (VarBytes(key) + RefBytes(next)))
    ensures offset <= |data|
    ensures ReadBody(data, offset, 0)
         == if |key| <= MAX_KEY_LENGTH
            then Success(Read(ExtensionBody(key, ChildOf(next)), offset + 1 + |VarBytes(key)| + |RefBytes(next)|))
            else Failure
  {
    hide At, VarBytes, RefBytes, ReadVarBytes, ReadNode, ReadChildren, ChildOf, Power;
    FirstByte(data, offset, 1, VarBytes(key) + RefBytes(next));
    AtSplit(data, offset + 1, VarBytes(key), RefBytes(next));
    VarBytesRead(data, offset + 1, key, MAX_KEY_LENGTH);
    RefRead(data, offset + 1 + |VarBytes(key)|, next, 1);
  }

  lemma LeafRead(data: seq<Byte>, offset: nat, v: seq<Byte>)
    requires |v| < Power(8) && At(data, offset, [2] + VarBytes(v))
    ensures offset <= |data|
    ensures ReadBody(data, offset, 0)
         == if |v| <= MAX_VALUE_LENGTH then Success(Read(LeafBody(v), offset + 1 + |VarBytes(v)|)) else Failure
  {
    hide At, VarBytes, ReadVarBytes, ReadNode, ReadChildren, Power;
    FirstByte(data, offset, 2, VarBytes(v));
    VarBytesRead(data, offset + 1, v, MAX_VALUE_LENGTH);
  }

  // ----- persisted rows -----

  /** A row with its reference count. */
  function Persisted(row: Row, reference: nat): seq<Byte>
    requires Encodable(row) && reference < Power(8)
  {
    RowBytes(row) + VarInt(reference, WidthFor(reference))
  }

  lemma StorableIsEncodable(row: Row)
    requires Storable(row)
    ensures Encodable(row)
  {
    PowerOfEight();
  }

  lemma PowerOfEight()
    ensures Power(8) == 0x1_0000_0000_0000_0000
  {
    assert Power(2) == 0x1_0000;
    assert Power(4) == 0x1_0000_0000;
    assert Power(6) == 0x1_0000_0000_0000;
  }

  /** A persisted row reads back as the row and its reference count. */
  lemma PersistedReads(row: Row, reference: nat)
    requires Storable(row) && reference < I32_LIMIT
    ensures Encodable(row) && reference < Power(8)
    ensures var data := Persisted(row, reference);
            ReadNode(data, 0, 0) == Success(Read(Parsed(BodyOf(row), reference), |data|))
  {
    hide RowBytes, ReadBody, BodyOf, VarInt, ReadVarInt;
    PowerOfEight();
    StorableIsEncodable(row);
    var data := Persisted(row, reference);
    Whole(data);
    AtSplit(data, 0, RowBytes(row), VarInt(reference, WidthFor(reference)));
    RowRead(data, 0, row);
    VarIntRead(data, |RowBytes(row)|, reference, WidthFor(reference));
    assert !BodyOf(row).HashBody? && !BodyOf(row).EmptyBody? by { MaterializedBody(row); }
  }

  lemma MaterializedBody(row: Row)
    ensures !BodyOf(row).HashBody? && !BodyOf(row).EmptyBody?
  {
  }

  // ----- the check of persisted rows -----

  /** The end of bytes whose length prefix has the shortest width. */
  function SkipCanonical(data: seq<Byte>, offset: nat, max: nat): Option<nat> {
    var s := ReadVarBytes(data, offset, max);
    if s.Failure? || s.value.offset - offset - |s.value.value| != 1 + WidthFor(|s.value.value|).Payload() then None
    else Some(s.value.offset)
  }

  function SkipChild(data: seq<Byte>, offset: nat): Option<nat> {
    match TypeAt(data, offset)
    case Some(HashNode) => if |data| < offset + 33 then None else Some(offset + 33)
    case Some(EmptyNode) => Some(offset + 1)
    case _ => None
  }

  function SkipChildren(data: seq<Byte>, offset: nat, n: nat): Option<nat>
    decreases n
  {
    if n == 0 then Some(offset)
    else
      var next := SkipChild(data, offset);
      if next.None? then None else SkipChildren(data, next.value, n - 1)
  }

  /** `data` holds at `offset` exactly the bytes `s`, which end at `end`. */
  ghost predicate Spans(data: seq<Byte>, offset: nat, end: int, s: seq<Byte>) {
    At(data, offset, s) && end == offset + |s|
  }

  lemma CanonicalIff(data: seq<Byte>, offset: nat, max: nat, end: nat)
    requires max < Power(8)
    ensures SkipCanonical(data, offset, max) == Some(end)
       <==> exists s: seq<Byte> :: |s| <= max && Spans(data, offset, end, VarBytes(s))
  {
    hide SkipCanonical, VarBytes, Power, At;
    if SkipCanonical(data, offset, max) == Some(end) {
      var s := CanonicalThere(data, offset, max, end);
    }
    forall s: seq<Byte> | |s| <= max && Spans(data, offset, end, VarBytes(s))
      ensures SkipCanonical(data, offset, max) == Some(end)
    {
      CanonicalSkipped(data, offset, max, end, s);
    }
  }

  lemma CanonicalThere(data: seq<Byte>, offset: nat, max: nat, end: nat) returns (s: seq<Byte>)
    requires max < Power(8) && SkipCanonical(data, offset, max) == Some(end)
    ensures |s| <= max && Spans(data, offset, end, VarBytes(s))
  {
    hide ReadVarInt, VarInt, Power, At, WidthFor;
    var n := ReadVarInt(data, offset).value;
    s := data[n.offset..end];
    ReadVarIntIff(data, offset, n.value, n.offset);
    var w: Width :| w.Holds(n.value) && At(data, offset, VarInt(n.value, w)) && n.offset == offset + 1 + w.Payload();
    SameWidth(w, WidthFor(n.value));
    Slice(data, n.offset, end);
    AtSplit(data, offset, VarInt(n.value, w), s);
  }

  lemma CanonicalSkipped(data: seq<Byte>, offset: nat, max: nat, end: nat, s: seq<Byte>)
    requires |s| <= max < Power(8) && Spans(data, offset, end, VarBytes(s))
    ensures SkipCanonical(data, offset, max) == Some(end)
  {
    hide ReadVarBytes, VarInt, Power, At, WidthFor;
    VarBytesRead(data, offset, s, max);
  }

  lemma SameWidth(v: Width, w: Width)
    requires v.Payload() == w.Payload()
    ensures v == w
  {
  }

  lemma ChildIff(data: seq<Byte>, offset: nat, end: nat)
    ensures SkipChild(data, offset) == Some(end) <==> exists ref :: Spans(data, offset, end, RefBytes(ref))
  {
    hide SkipChild, RefBytes, At;
    if SkipChild(data, offset) == Some(end) {
      var ref := ChildThere(data, offset, end);
    }
    forall ref | Spans(data, offset, end, RefBytes(ref)) ensures SkipChild(data, offset) == Some(end) {
      ChildSkipped(data, offset, end, ref);
    }
  }

  lemma ChildThere(data: seq<Byte>, offset: nat, end: nat) returns (ref: Ref)
    requires SkipChild(data, offset) == Some(end)
    ensures Spans(data, offset, end, RefBytes(ref))
  {
    hide At;
    OneByte(data, offset);
    ref := if data[offset] == 3 then To(data[offset + 1..end]) else Nothing;
    if ref.To? {
      Slice(data, offset + 1, end);
      AtSplit(data, offset, [3], ref.hash);
    }
  }

  lemma ChildSkipped(data: seq<Byte>, offset: nat, end: nat, ref: Ref)
    requires Spans(data, offset, end, RefBytes(ref))
    ensures SkipChild(data, offset) == Some(end)
  {
    match ref
    case Nothing => FirstByte(data, offset, 4, []);
    case To(hash) => FirstByte(data, offset, 3, hash);
  }

  lemma {:induction false} ChildrenIff(data: seq<Byte>, offset: nat, n: nat, end: nat)
    requires offset <= |data|
    ensures SkipChildren(data, offset, n) == Some(end)
       <==> exists refs: seq<Ref> :: |refs| == n && Spans(data, offset, end, RefsBytes(refs))
    decreases n
  {
    hide RefBytes, SkipChild, At;
    if n == 0 {
      NothingThere(data, offset);
    } else {
      if SkipChildren(data, offset, n) == Some(end) {
        var next := SkipChild(data, offset).value;
        ChildIff(data, offset, next);
        var ref :| Spans(data, offset, next, RefBytes(ref));
        Inside(data, offset, RefBytes(ref));
        ChildrenIff(data, next, n - 1, end);
        var refs: seq<Ref> :| |refs| == n - 1 && Spans(data, next, end, RefsBytes(refs));
        AtSplit(data, offset, RefBytes(ref), RefsBytes(refs));
        assert ([ref] + refs)[1..] == refs;
        assert Spans(data, offset, end, RefsBytes([ref] + refs));
      }
      forall refs: seq<Ref> | |refs| == n && Spans(data, offset, end, RefsBytes(refs))
        ensures SkipChildren(data, offset, n) == Some(end)
      {
        var next := offset + |RefBytes(refs[0])|;
        AtSplit(data, offset, RefBytes(refs[0]), RefsBytes(refs[1..]));
        assert Spans(data, offset, next, RefBytes(refs[0]));
        Inside(data, offset, RefBytes(refs[0]));
        ChildIff(data, offset, next);
        assert Spans(data, next, end, RefsBytes(refs[1..]));
        ChildrenIff(data, next, n - 1, end);
      }
    }
  }

  lemma NothingThere(data: seq<Byte>, offset: nat)
    requires offset <= |data|
    ensures At(data, offset, RefsBytes([])) && RefsBytes([]) == []
  {
  }

  lemma Inside(data: seq<Byte>, offset: nat, s: seq<Byte>)
    requires At(data, offset, s)
    ensures offset + |s| <= |data|
  {
  }

  /** The end of the payload of a row, whatever comes behind it. */
  ghost function PayloadEnd(data: seq<Byte>): Option<nat> {
    match TypeAt(data, 0)
    case Some(BranchNode) => SkipChildren(data, 1, CHILDREN)
    case Some(ExtensionNode) =>
      var key := SkipCanonical(data, 1, MAX_KEY_LENGTH);
      if key.None? then None else SkipChild(data, key.value)
    case Some(LeafNode) => SkipCanonical(data, 1, MAX_VALUE_LENGTH)
    case _ => None
  }

  lemma PayloadIff(data: seq<Byte>, end: nat)
    ensures PayloadEnd(data) == Some(end)
       <==> exists row :: Storable(row) && Encodable(row) && Spans(data, 0, end, RowBytes(row))
  {
    if PayloadEnd(data) == Some(end) {
      var row := RowThere(data, end);
    }
    forall row | Storable(row) && Encodable(row) && Spans(data, 0, end, RowBytes(row)) ensures PayloadEnd(data) == Some(end) {
      RowSkipped(data, end, row);
    }
  }

  lemma RowThere(data: seq<Byte>, end: nat) returns (row: Row)
    requires PayloadEnd(data) == Some(end)
    ensures Storable(row) && Encodable(row) && Spans(data, 0, end, RowBytes(row))
  {
    hide VarBytes, RefBytes, RefsBytes, SkipCanonical, SkipChild, SkipChildren, At, Power;
    PowerOfEight();
    OneByte(data, 0);
    match TypeAt(data, 0).value
    case BranchNode =>
      ChildrenIff(data, 1, CHILDREN, end);
      var refs: seq<Ref> :| |refs| == CHILDREN && Spans(data, 1, end, RefsBytes(refs));
      AtSplit(data, 0, [0], RefsBytes(refs));
      row := BranchRow(refs);
    case ExtensionNode =>
      var next := SkipCanonical(data, 1, MAX_KEY_LENGTH).value;
      CanonicalIff(data, 1, MAX_KEY_LENGTH, next);
      var key: seq<Byte> :| |key| <= MAX_KEY_LENGTH && Spans(data, 1, next, VarBytes(key));
      ChildIff(data, next, end);
      var ref :| Spans(data, next, end, RefBytes(ref));
      AtSplit(data, 1, VarBytes(key), RefBytes(ref));
      AtSplit(data, 0, [1], VarBytes(key) + RefBytes(ref));
      row := ExtensionRow(key, ref);
    case LeafNode =>
      CanonicalIff(data, 1, MAX_VALUE_LENGTH, end);
      var v: seq<Byte> :| |v| <= MAX_VALUE_LENGTH && Spans(data, 1, end, VarBytes(v));
      AtSplit(data, 0, [2], VarBytes(v));
      row := LeafRow(v);
  }

  lemma RowSkipped(data: seq<Byte>, end: nat, row: Row)
    requires Storable(row) && Encodable(row) && Spans(data, 0, end, RowBytes(row))
    ensures PayloadEnd(data) == Some(end)
  {
    hide VarBytes, RefBytes, RefsBytes, SkipCanonical, SkipChild, SkipChildren, At, Power;
    PowerOfEight();
    match row
    case BranchRow(children) =>
      FirstByte(data, 0, 0, RefsBytes(children));
      assert Spans(data, 1, end, RefsBytes(children));
      ChildrenIff(data, 1, CHILDREN, end);
    case ExtensionRow(key, next) =>
      FirstByte(data, 0, 1, VarBytes(key) + RefBytes(next));
      AtSplit(data, 1, VarBytes(key), RefBytes(next));
      var mid := 1 + |VarBytes(key)|;
      assert Spans(data, 1, mid, VarBytes(key)) && Spans(data, mid, end, RefBytes(next));
      CanonicalIff(data, 1, MAX_KEY_LENGTH, mid);
      ChildIff(data, mid, end);
    case LeafRow(v) =>
      FirstByte(data, 0, 2, VarBytes(v));
      assert Spans(data, 1, end, VarBytes(v));
      CanonicalIff(data, 1, MAX_VALUE_LENGTH, end);
  }

  /** `data` is a row within the limits and a positive 32-bit reference count, shortest widths throughout. */
  ghost predicate IsPersisted(data: seq<Byte>, row: Row, reference: nat) {
    && Storable(row) && Encodable(row) && 0 < reference < I32_LIMIT && reference < Power(8)
    && data == Persisted(row, reference)
  }

  /** Walks over the payload. */
  method PayloadLength(data: seq<Byte>) returns (r: Option<nat>)
    ensures r == PayloadEnd(data)
  {
    hide SkipCanonical, SkipChild, FromByte;
    match TypeAt(data, 0)
    case Some(BranchNode) =>
      var at := 1;
      for i := 0 to CHILDREN
        invariant SkipChildren(data, 1, CHILDREN) == SkipChildren(data, at, CHILDREN - i)
      {
        var next := SkipChild(data, at);
        if next.None? {
          return None;
        }
        at := next.value;
      }
      return Some(at);
    case Some(ExtensionNode) =>
      var key := SkipCanonical(data, 1, MAX_KEY_LENGTH);
      if key.None? {
        return None;
      }
      return SkipChild(data, key.value);
    case Some(LeafNode) =>
      return SkipCanonical(data, 1, MAX_VALUE_LENGTH);
    case _ =>
      return None;
  }

  /** The length of the payload that is hashed; it exists exactly for persisted rows. */
  method PersistedLength(data: seq<Byte>) returns (r: Option<nat>)
    ensures forall row, reference :: IsPersisted(data, row, reference) ==> r == Some(|RowBytes(row)|)
    ensures r.Some? ==> exists row, reference :: IsPersisted(data, row, reference)
  {
    hide PayloadEnd, IsPersisted, RowBytes, ReadVarInt, WidthFor;
    var end := PayloadLength(data);
    if end.None? {
      NoPayload(data);
      return None;
    }
    var at := end.value;
    var n := ReadVarInt(data, at);
    PersistedIff(data, at);
    if n.Failure? || n.value.value == 0 || I32_LIMIT <= n.value.value
       || n.value.offset - at != 1 + WidthFor(n.value.value).Payload() || n.value.offset != |data| {
      return None;
    }
    assert CountAt(data, at, n.value.value);
    return Some(at);
  }

  lemma NoPayload(data: seq<Byte>)
    requires PayloadEnd(data).None?
    ensures forall row, reference :: !IsPersisted(data, row, reference)
  {
    hide PayloadEnd, RowBytes, VarInt, Power, Storable, Encodable;
    forall row, reference | IsPersisted(data, row, reference) ensures false {
      PersistedSpans(data, row, reference);
      PayloadIff(data, |RowBytes(row)|);
    }
  }

  lemma PersistedSpans(data: seq<Byte>, row: Row, reference: nat)
    requires IsPersisted(data, row, reference)
    ensures Spans(data, 0, |RowBytes(row)|, RowBytes(row))
    ensures Spans(data, |RowBytes(row)|, |data|, VarInt(reference, WidthFor(reference)))
  {
    hide RowBytes, VarInt, Power, Storable, Encodable;
    Whole(data);
    AtSplit(data, 0, RowBytes(row), VarInt(reference, WidthFor(reference)));
  }

  /** What the check asks behind the payload. */
  ghost predicate CountAt(data: seq<Byte>, at: nat, n: nat) {
    ReadVarInt(data, at) == Success(Read(n, |data|)) && 0 < n < I32_LIMIT && |data| - at == 1 + WidthFor(n).Payload()
  }

  lemma PersistedIff(data: seq<Byte>, at: nat)
    requires PayloadEnd(data) == Some(at)
    ensures (exists n :: CountAt(data, at, n)) <==> exists row, reference :: IsPersisted(data, row, reference)
    ensures forall row, reference :: IsPersisted(data, row, reference) ==> |RowBytes(row)| == at && CountAt(data, at, reference)
  {
    hide PayloadEnd, RowBytes, VarInt, ReadVarInt, Storable, Encodable, CountAt;
    if n :| CountAt(data, at, n) {
      PersistedThere(data, at, n);
    }
    forall row, reference | IsPersisted(data, row, reference)
      ensures |RowBytes(row)| == at && CountAt(data, at, reference)
    {
      CountThere(data, at, row, reference);
    }
  }

  lemma PersistedThere(data: seq<Byte>, at: nat, n: nat)
    requires PayloadEnd(data) == Some(at) && CountAt(data, at, n)
    ensures exists row, reference :: IsPersisted(data, row, reference)
  {
    hide PayloadEnd, RowBytes, VarInt, ReadVarInt, Storable, Encodable;
    PowerOfEight();
    PayloadIff(data, at);
    var row :| Storable(row) && Encodable(row) && Spans(data, 0, at, RowBytes(row));
    ReadVarIntIff(data, at, n, |data|);
    var w: Width :| w.Holds(n) && At(data, at, VarInt(n, w)) && |data| == at + 1 + w.Payload();
    assert w == WidthFor(n);
    AtSplit(data, 0, RowBytes(row), VarInt(n, w));
    Prefix(data, RowBytes(row) + VarInt(n, w));
    assert IsPersisted(data, row, n);
  }

  lemma CountThere(data: seq<Byte>, at: nat, row: Row, reference: nat)
    requires PayloadEnd(data) == Some(at) && IsPersisted(data, row, reference)
    ensures |RowBytes(row)| == at && CountAt(data, at, reference)
  {
    hide PayloadEnd, RowBytes, VarInt, ReadVarInt, Storable, Encodable, Power;
    PersistedSpans(data, row, reference);
    PayloadIff(data, |RowBytes(row)|);
    VarIntRead(data, at, reference, WidthFor(reference));
  }

  /** Accepts exactly the persisted rows whose payload has the expected hash. */
  method ValidatePersisted(g: Digest, data: seq<Byte>, expected: Hash) returns (ok: bool)
    ensures ok <==> exists row, reference :: IsPersisted(data, row, reference) && g(RowBytes(row)) == expected
  {
    hide IsPersisted, RowBytes;
    var n := PersistedLength(data);
    if n.None? {
      return false;
    }
    ghost var row, reference :| IsPersisted(data, row, reference);
    PayloadIs(data, row, reference);
    forall other, count | IsPersisted(data, other, count)
      ensures Encodable(other) && RowBytes(other) == data[..n.value]
    {
      PayloadIs(data, other, count);
    }
    return g(data[..n.value]) == expected;
  }

  lemma PayloadIs(data: seq<Byte>, row: Row, reference: nat)
    requires IsPersisted(data, row, reference)
    ensures Encodable(row) && |RowBytes(row)| <= |data| && data[..|RowBytes(row)|] == RowBytes(row)
  {
    hide RowBytes;
  }
}
