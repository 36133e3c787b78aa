/** ReadMinecraftStruct and WriteMinecraftStruct of packets/ioutils.go: the schema-driven codec.
    A schema lists the field types with their tags; reflection is replaced by the schema.
    Floats are the bit patterns that math.Float32bits and math.Float64bits give. */
module StructCodec {
  import opened Wire

  datatype LengthPrefix = Int16Prefix | Int32Prefix | VarIntPrefix | UntilEof

  datatype Field =
    | BoolField
    | Uint8Field
    | IntField(width: nat)             // int8, int16, int32, int64
    | FloatField(width: nat)           // float32, float64
    | VarIntField
    | StringField(maxLength: nat)      // string; Identifier, with maxLength 32767
    | BytesField(prefix: LengthPrefix, maxLength: nat)
    | EntityField(asVarInt: bool)
    | UuidField
    | IgnoredField                     // mcignore

  datatype Value = Flag(b: bool) | Num(n: int) | Text(s: seq<byte>)

  const UUID_LENGTH := 16

  /** The schemas the source accepts; on any other it panics. */
  predicate WellFormed(schema: seq<Field>) {
    && (forall i :: 0 <= i < |schema| ==>
          schema[i].BytesField? && schema[i].prefix.UntilEof? ==> i == |schema| - 1)
    && (forall f <- schema :: f.IntField? ==> f.width in {1, 2, 4, 8})
    && (forall f <- schema :: f.FloatField? ==> f.width in {4, 8})
  }

  /** The values a field of the given type can hold. */
  predicate HasType(f: Field, v: Value) {
    match f
    case BoolField => v.Flag?
    case Uint8Field => v.Num? && 0 <= v.n < 0x100
    case IntField(width) => v.Num? && SignedRange(v.n, width)
    case FloatField(width) => v.Num? && 0 <= v.n < Power256(width)
    case VarIntField => v.Num? && -0x8000_0000 <= v.n < 0x8000_0000
    case StringField(_) => v.Text?
    case BytesField(_, _) => v.Text?
    case EntityField(_) => v.Num? && -0x8000_0000 <= v.n < 0x8000_0000
    case UuidField => v.Text? && |v.s| == UUID_LENGTH
    case IgnoredField => true
  }

  /** The lengths the tags of the field and its length prefix allow. */
  predicate InBounds(f: Field, v: Value)
    requires HasType(f, v)
  {
    match f
    case StringField(maxLength) => |v.s| <= maxLength && |v.s| < 0x8000_0000
    case BytesField(prefix, maxLength) => |v.s| <= maxLength && PrefixHolds(prefix, |v.s|)
    case _ => true
  }

  predicate SignedRange(n: int, width: nat) {
    0 - Power256(width) <= 2 * n < Power256(width)
  }

  /** The length prefix, if there is one, has room for the length. */
  predicate PrefixHolds(prefix: LengthPrefix, length: nat) {
    match prefix
    case Int16Prefix => length < 0x1_0000
    case UntilEof => true
    case _ => length < 0x1_0000_0000
  }

  // ---- one field -------------------------------------------------------------------------

  /** uintN(n) for an intN */
  function Unsign(n: int, width: nat): (x: int)
    ensures SignedRange(n, width) ==> 0 <= x < Power256(width)
  {
    if n < 0 then n + Power256(width) else n
  }

  /** intN(x) for a uintN */
  function Resign(x: int, width: nat): int {
    if 2 * x < Power256(width) then x else x - Power256(width)
  }

  function WritePrefix(prefix: LengthPrefix, length: nat): seq<byte> {
    match prefix
    case Int16Prefix => BigEndian(length % 0x1_0000, 2)
    case Int32Prefix => BigEndian(length % 0x1_0000_0000, 4)
    case VarIntPrefix => PutUvarint(length % 0x1_0000_0000)
    case UntilEof => []
  }

  function WriteField(f: Field, v: Value): seq<byte>
    requires HasType(f, v)
  {
    match f
    case BoolField => WriteBool(v.b)
    case Uint8Field => [v.n]
    case IntField(width) => BigEndian(Unsign(v.n, width), width)
    case FloatField(width) => BigEndian(v.n, width)
    case VarIntField => WriteVarInt(v.n)
    case StringField(_) => WriteString(v.s)
    case BytesField(prefix, _) => WritePrefix(prefix, |v.s|) + v.s
    case EntityField(asVarInt) => if asVarInt then WriteVarInt(v.n) else BigEndian(ToUnsigned(v.n), 4)
    case UuidField => v.s
    case IgnoredField => []
  }

  function ReadNumber(s: seq<byte>, width: nat): Read<nat> {
    var r := ReadFull(s, width);
    Read(Number(r.value), r.ok, r.rest)
  }

  function ReadPrefix(prefix: LengthPrefix, s: seq<byte>): Read<int> {
    match prefix
    case Int16Prefix => ReadNumber(s, 2)
    case Int32Prefix => ReadNumber(s, 4)
    case VarIntPrefix => var r := ReadUvarint(s); Read(r.value % 0x1_0000_0000, r.ok, r.rest)
    case UntilEof => Read(0, true, s)
  }

  function ReadField(f: Field, s: seq<byte>): Read<Value>
    requires f != IgnoredField
  {
    match f
    case BoolField => var r := ReadBool(s); Read(Flag(r.value), r.ok, r.rest)
    case Uint8Field => var r := ReadNumber(s, 1); Read(Num(r.value), r.ok, r.rest)
    case IntField(width) => var r := ReadNumber(s, width); Read(Num(Resign(r.value, width)), r.ok, r.rest)
    case FloatField(width) => var r := ReadNumber(s, width); Read(Num(r.value), r.ok, r.rest)
    case VarIntField => var r := ReadVarInt(s); Read(Num(r.value), r.ok, r.rest)
    case StringField(maxLength) => var r := ReadString(s, maxLength); Read(Text(r.value), r.ok, r.rest)
    case BytesField(prefix, maxLength) => ReadBytes(prefix, maxLength, s)
    case EntityField(asVarInt) =>
      if asVarInt then var r := ReadVarInt(s); Read(Num(r.value), r.ok, r.rest)
      else var r := ReadNumber(s, 4); Read(Num(Resign(r.value, 4)), r.ok, r.rest)
    case UuidField => var r := ReadFull(s, UUID_LENGTH); Read(Text(r.value), r.ok, r.rest)
  }

  /** An `eof` field takes what is there, up to maxLength bytes. */
  function ReadBytes(prefix: LengthPrefix, maxLength: nat, s: seq<byte>): Read<Value> {
    if prefix.UntilEof? then
      var n := if |s| < maxLength then |s| else maxLength;
      Read(Text(s[..n]), true, s[n..])
    else
      var length := ReadPrefix(prefix, s);
      if !length.ok || length.value < 0 || length.value > maxLength then Read(Text([]), false, length.rest)
      else
        var data := ReadFull(length.rest, length.value);
        Read(Text(data.value), data.ok, data.rest)
  }

  // ---- the whole struct ------------------------------------------------------------------

  function WriteStruct(schema: seq<Field>, values: seq<Value>): seq<byte>
    requires Typed(schema, values)
  {
    if schema == [] then []
    else WriteField(schema[0], values[0]) + WriteStruct(schema[1..], values[1..])
  }

  predicate Typed(schema: seq<Field>, values: seq<Value>) {
    |schema| == |values| && forall i :: 0 <= i < |schema| ==> HasType(schema[i], values[i])
  }

  predicate Bounded(schema: seq<Field>, values: seq<Value>)
    requires Typed(schema, values)
  {
    forall i :: 0 <= i < |schema| ==> InBounds(schema[i], values[i])
  }

  /** `before` are the values the struct had, which ignored fields keep. */
  function ReadStruct(schema: seq<Field>, before: seq<Value>, s: seq<byte>): (r: Read<seq<Value>>)
    requires |schema| == |before|
    ensures r.ok ==> |r.value| == |schema|
  {
    if schema == [] then Read([], true, s)
    else
      var head := if schema[0].IgnoredField? then Read(before[0], true, s) else ReadField(schema[0], s);
      if !head.ok then Read([], false, head.rest)
      else
        var tail := ReadStruct(schema[1..], before[1..], head.rest);
        Read([head.value] + tail.value, tail.ok, tail.rest)
  }

  /** What comes back: the values written, and for ignored fields the ones already there. */
  function Merged(schema: seq<Field>, before: seq<Value>, values: seq<Value>): seq<Value>
    requires |schema| == |before| == |values|
  {
    if schema == [] then []
    else [if schema[0].IgnoredField? then before[0] else values[0]]
         + Merged(schema[1..], before[1..], values[1..])
  }

  lemma {:induction false} MergedAt(schema: seq<Field>, before: seq<Value>, values: seq<Value>, i: nat)
    requires |schema| == |before| == |values| && i < |schema|
    ensures |Merged(schema, before, values)| == |schema|
    ensures Merged(schema, before, values)[i] == if schema[i].IgnoredField? then before[i] else values[i]
    decreases |schema|
  {
    if |schema| > 1 {
      MergedAt(schema[1..], before[1..], values[1..], if i == 0 then 0 else i - 1);
    }
  }

  /** An eof field takes the bytes behind it for its own unless it is full. */
  predicate NothingTaken(f: Field, v: Value, rest: seq<byte>) {
    f.BytesField? && f.prefix.UntilEof? && v.Text? ==> rest == [] || |v.s| == f.maxLength
  }

  lemma NumberRoundTrip(x: nat, width: nat, rest: seq<byte>)
    requires x < Power256(width)
    ensures ReadNumber(BigEndian(x, width) + rest, width) == Read(x, true, rest)
  {
    ReadFullExact(BigEndian(x, width), rest);
    BigEndianRoundTrip(x, width);
  }

  /** The length written is never longer than the data: it is cut to the width of the prefix. */
  lemma PrefixReadBack(prefix: LengthPrefix, length: nat, rest: seq<byte>)
    requires !prefix.UntilEof?
    ensures var r := ReadPrefix(prefix, WritePrefix(prefix, length) + rest);
      r.ok && 0 <= r.value <= length && r.rest == rest && (r.value == length <==> PrefixHolds(prefix, length))
  {
    hide PutUvarint, ReadUvarint, BigEndian, ReadNumber;
    Powers256();
    match prefix
    case Int16Prefix => NumberRoundTrip(length % 0x1_0000, 2, rest);
    case Int32Prefix => NumberRoundTrip(length % 0x1_0000_0000, 4, rest);
    case VarIntPrefix => UvarintRoundTrip(length % 0x1_0000_0000, rest);
  }

  /** A read came back as the value v, whatever else it left. */
  predicate Returned<T(==)>(r: Read<T>, v: T) {
    r.ok && r.value == v
  }

  /** Exactly when a byte field reads back: within max_length and within its length prefix; an
      eof field, if it is full or nothing follows it. */
  lemma BytesFieldExact(prefix: LengthPrefix, maxLength: nat, t: seq<byte>, rest: seq<byte>)
    ensures var f, v := BytesField(prefix, maxLength), Text(t);
      var r := ReadField(f, WriteField(f, v) + rest);
      && (InBounds(f, v) && NothingTaken(f, v, rest) ==> r == Read(v, true, rest))
      && (Returned(r, v) ==> InBounds(f, v) && NothingTaken(f, v, rest))
  {
    hide ReadPrefix, WritePrefix;
    var s := WritePrefix(prefix, |t|) + t + rest;
    if prefix.UntilEof? {
      NoPrefix(|t|);
      assert s == t + rest && s[..|t|] == t && s[|t|..] == rest;
    } else {
      assert s == WritePrefix(prefix, |t|) + (t + rest);
      PrefixReadBack(prefix, |t|, t + rest);
      ReadFullExact(t, rest);
    }
  }

  lemma NoPrefix(length: nat)
    ensures WritePrefix(UntilEof, length) == []
  {
  }

  /** The writer does not look at max_length, the reader does: a string comes back exactly
      when it is within the bound, and its length within 31 bits. */
  lemma StringFieldExact(maxLength: nat, t: seq<byte>, rest: seq<byte>)
    ensures var f, v := StringField(maxLength), Text(t);
      var r := ReadField(f, WriteField(f, v) + rest);
      && (|t| <= maxLength && |t| < 0x8000_0000 ==> r == Read(v, true, rest))
      && (Returned(r, v) ==> |t| <= maxLength && |t| < 0x8000_0000)
  {
    hide ReadVarInt, WriteVarInt;
    assert WriteString(t) + rest == WriteVarInt(ToSigned(|t|)) + (t + rest);
    VarIntRoundTrip(ToSigned(|t|), t + rest);
    if |t| <= maxLength && |t| < 0x8000_0000 {
      StringRoundTrip(t, maxLength, rest);
    }
  }

  /** For every field type and every value of it: it reads back, and the bytes behind it are left,
      exactly if it is within the tags and no byte behind it is taken for its own. */
  lemma FieldRoundTrip(f: Field, v: Value, rest: seq<byte>)
    requires !f.IgnoredField? && HasType(f, v)
    ensures InBounds(f, v) && NothingTaken(f, v, rest) ==> ReadField(f, WriteField(f, v) + rest) == Read(v, true, rest)
    ensures Returned(ReadField(f, WriteField(f, v) + rest), v) ==> InBounds(f, v) && NothingTaken(f, v, rest)
  {
    match f
    case BoolField => BoolRoundTrip(v.b, rest);
    case Uint8Field =>
      assert BigEndian(v.n, 1) == [v.n] by { assert BigEndian(0, 0) == []; }
      Powers256();
      NumberRoundTrip(v.n, 1, rest);
    case IntField(width) => NumberRoundTrip(Unsign(v.n, width), width, rest);
    case FloatField(width) => NumberRoundTrip(v.n, width, rest);
    case VarIntField => VarIntRoundTrip(v.n, rest);
    case StringField(maxLength) => StringFieldExact(maxLength, v.s, rest);
    case BytesField(prefix, maxLength) => BytesFieldExact(prefix, maxLength, v.s, rest);
    case EntityField(asVarInt) =>
      Powers256();
      if asVarInt { VarIntRoundTrip(v.n, rest); } else { NumberRoundTrip(ToUnsigned(v.n), 4, rest); }
    case UuidField => ReadFullExact(v.s, rest);
  }

  /** The last field leaves the bytes behind the struct. */
  predicate NothingTakenBehind(schema: seq<Field>, values: seq<Value>, rest: seq<byte>)
    requires |schema| == |values|
  {
    schema != [] ==> NothingTaken(schema[|schema| - 1], values[|schema| - 1], rest)
  }

  /** For every schema and all values of its types: the same values come back and the following
      bytes are left untouched, exactly if all are within their tags and an eof field at the end
      is full or followed by nothing. */
  lemma {:induction false} StructRoundTrip(
    schema: seq<Field>, before: seq<Value>, values: seq<Value>, rest: seq<byte>)
    requires WellFormed(schema) && |before| == |schema| && Typed(schema, values)
    ensures Bounded(schema, values) && NothingTakenBehind(schema, values, rest) ==>
      ReadStruct(schema, before, WriteStruct(schema, values) + rest) == Read(Merged(schema, before, values), true, rest)
    ensures Returned(ReadStruct(schema, before, WriteStruct(schema, values) + rest), Merged(schema, before, values)) ==>
      Bounded(schema, values) && NothingTakenBehind(schema, values, rest)
    decreases |schema|
  {
    hide ReadField, WriteField, HasType, InBounds;
    if schema == [] {
      assert WriteStruct(schema, values) + rest == rest;
    } else {
      var f, v := schema[0], values[0];
      var tail := WriteStruct(schema[1..], values[1..]);
      assert WriteStruct(schema, values) + rest == WriteField(f, v) + (tail + rest);
      TailWellFormed(schema);
      StructRoundTrip(schema[1..], before[1..], values[1..], rest);
      BoundedSplits(schema, values);
      if f.IgnoredField? {
        IgnoredWritesNothing(v);
        IgnoredInRange(v);
        assert WriteField(f, v) + (tail + rest) == tail + rest;
        SplitHead(before[0], ReadStruct(schema[1..], before[1..], tail + rest).value,
                  before[0], Merged(schema[1..], before[1..], values[1..]));
      } else {
        if |schema| == 1 {
          assert tail + rest == rest;
        }
        FieldRoundTrip(f, v, tail + rest);
        var head := ReadField(f, WriteField(f, v) + (tail + rest));
        SplitHead(head.value, ReadStruct(schema[1..], before[1..], head.rest).value,
                  v, Merged(schema[1..], before[1..], values[1..]));
      }
    }
  }

  lemma SplitHead<T>(x: T, s: seq<T>, y: T, t: seq<T>)
    ensures [x] + s == [y] + t <==> x == y && s == t
  {
    if [x] + s == [y] + t {
      assert ([x] + s)[0] == x && ([y] + t)[0] == y;
      assert ([x] + s)[1..] == s && ([y] + t)[1..] == t;
    }
  }

  lemma BoundedSplits(schema: seq<Field>, values: seq<Value>)
    requires Typed(schema, values) && schema != []
    ensures Typed(schema[1..], values[1..])
    ensures Bounded(schema, values) <==> InBounds(schema[0], values[0]) && Bounded(schema[1..], values[1..])
  {
    hide HasType, InBounds;
    if InBounds(schema[0], values[0]) && Bounded(schema[1..], values[1..]) {
      forall i | 0 <= i < |schema| ensures InBounds(schema[i], values[i]) {
        if i > 0 { assert schema[1..][i - 1] == schema[i]; }
      }
    }
    if Bounded(schema, values) {
      forall i | 0 <= i < |schema| - 1 ensures InBounds(schema[1..][i], values[1..][i]) {
        assert schema[i + 1] == schema[1..][i];
      }
    }
  }

  lemma TailWellFormed(schema: seq<Field>)
    requires WellFormed(schema) && schema != []
    ensures WellFormed(schema[1..])
  {
    assert forall i :: 0 <= i < |schema| - 1 ==> schema[1..][i] == schema[i + 1];
  }

  lemma NumberReadInRange(s: seq<byte>, width: nat)
    requires ReadNumber(s, width).ok
    ensures 0 <= ReadNumber(s, width).value < Power256(width)
    ensures SignedRange(Resign(ReadNumber(s, width).value, width), width)
  {
    NumberBound(s[..width]);
  }

  lemma FieldReadInRange(f: Field, s: seq<byte>)
    requires !f.IgnoredField? && ReadField(f, s).ok
    ensures HasType(f, ReadField(f, s).value) && InBounds(f, ReadField(f, s).value)
  {
    hide ReadNumber, Resign, ReadUvarint;
    Powers256();
    match f
    case Uint8Field => NumberReadInRange(s, 1);
    case IntField(width) => NumberReadInRange(s, width);
    case FloatField(width) => NumberReadInRange(s, width);
    case EntityField(asVarInt) => if !asVarInt { NumberReadInRange(s, 4); }
    case BytesField(prefix, _) =>
      if prefix.Int16Prefix? { NumberReadInRange(s, 2); }
      if prefix.Int32Prefix? { NumberReadInRange(s, 4); }
    case _ =>
  }

  /** Whatever is accepted has values of the field types within the tags. */
  lemma {:induction false} StructReadInRange(schema: seq<Field>, before: seq<Value>, s: seq<byte>)
    requires |schema| == |before| && ReadStruct(schema, before, s).ok
    ensures Typed(schema, ReadStruct(schema, before, s).value)
    ensures Bounded(schema, ReadStruct(schema, before, s).value)
    decreases |schema|
  {
    hide ReadField, HasType, InBounds;
    if schema != [] {
      var head := if schema[0].IgnoredField? then Read(before[0], true, s) else ReadField(schema[0], s);
      if schema[0].IgnoredField? {
        IgnoredInRange(before[0]);
      } else {
        FieldReadInRange(schema[0], s);
      }
      StructReadInRange(schema[1..], before[1..], head.rest);
    }
  }

  lemma IgnoredInRange(v: Value)
    ensures HasType(IgnoredField, v) && InBounds(IgnoredField, v)
  {
  }

  lemma {:induction false} IgnoredKept(schema: seq<Field>, before: seq<Value>, s: seq<byte>)
    requires |schema| == |before| && ReadStruct(schema, before, s).ok
    ensures Merged(schema, before, ReadStruct(schema, before, s).value) == ReadStruct(schema, before, s).value
    decreases |schema|
  {
    hide ReadField;
    if schema != [] {
      var head := if schema[0].IgnoredField? then Read(before[0], true, s) else ReadField(schema[0], s);
      IgnoredKept(schema[1..], before[1..], head.rest);
    }
  }

  /** Whatever input was accepted, normal or not: writing the struct and reading it back gives
      the same values. */
  lemma StructReencodes(schema: seq<Field>, before: seq<Value>, s: seq<byte>)
    requires WellFormed(schema) && |schema| == |before| && ReadStruct(schema, before, s).ok
    ensures var values := ReadStruct(schema, before, s).value;
      Typed(schema, values) && ReadStruct(schema, before, WriteStruct(schema, values)) == Read(values, true, [])
  {
    hide ReadStruct, HasType, InBounds;
    var values := ReadStruct(schema, before, s).value;
    StructReadInRange(schema, before, s);
    IgnoredKept(schema, before, s);
    StructRoundTrip(schema, before, values, []);
    assert WriteStruct(schema, values) + [] == WriteStruct(schema, values);
  }

  /** The exact condition for an eof field: it reads back unless it is too long, or not full and
      followed by something. */
  lemma EofFieldExact(maxLength: nat, t: seq<byte>, rest: seq<byte>)
    ensures ReadField(BytesField(UntilEof, maxLength), t + rest) == Read(Text(t), true, rest)
            <==> |t| == maxLength || (|t| < maxLength && rest == [])
  {
    BytesFieldExact(UntilEof, maxLength, t, rest);
    NoPrefix(|t|);
    assert [] + t == t;
  }

  /** What each field type looks like on the wire: numbers big-endian in two's complement, VarInts and
      lengths of text in LEB128, the rest as it stands. */
  lemma FieldLayout(f: Field, v: Value)
    requires HasType(f, v) && InBounds(f, v)
    ensures var s := WriteField(f, v);
      match f
      case BoolField => s == [if v.b then 1 else 0]
      case Uint8Field => s == [v.n]
      case IntField(width) => |s| == width && Number(s) == if v.n >= 0 then v.n else v.n + Power256(width)
      case FloatField(width) => |s| == width && Number(s) == v.n
      case VarIntField => IsLeb128(s) && Leb128(s) == if v.n >= 0 then v.n else v.n + 4294967296
      case StringField(_) =>
        exists prefix :: IsLeb128(prefix) && Leb128(prefix) == |v.s| && s == prefix + v.s
      case BytesField(Int16Prefix, _) => s == [|v.s| / 256, |v.s| % 256] + v.s
      case BytesField(Int32Prefix, _) => |s| == 4 + |v.s| && Number(s[..4]) == |v.s| && s[4..] == v.s
      case BytesField(VarIntPrefix, _) =>
        exists prefix :: IsLeb128(prefix) && Leb128(prefix) == |v.s| && s == prefix + v.s
      case BytesField(UntilEof, _) => s == v.s
      case EntityField(asVarInt) =>
        var x := if v.n >= 0 then v.n else v.n + 4294967296;
        if asVarInt then IsLeb128(s) && Leb128(s) == x else |s| == 4 && Number(s) == x
      case UuidField => s == v.s && |s| == 16
      case IgnoredField => s == []
  {
    hide Number, BigEndian, PutUvarint, IsLeb128, Leb128, WriteString;
    Powers256();
    match f
    case IntField(width) => BigEndianRoundTrip(Unsign(v.n, width), width);
    case FloatField(width) => BigEndianRoundTrip(v.n, width);
    case VarIntField => UvarintLayout(ToUnsigned(v.n));
    case StringField(_) => StringLayout(v.s);
    case BytesField(Int16Prefix, _) => TwoBytes(|v.s|);
    case BytesField(Int32Prefix, _) =>
      BigEndianRoundTrip(|v.s|, 4);
      var prefix := BigEndian(|v.s|, 4);
      assert (prefix + v.s)[..4] == prefix && (prefix + v.s)[4..] == v.s;
    case BytesField(VarIntPrefix, _) => UvarintLayout(|v.s|);
    case BytesField(UntilEof, _) => assert [] + v.s == v.s;
    case EntityField(asVarInt) =>
      if asVarInt { UvarintLayout(ToUnsigned(v.n)); } else { BigEndianRoundTrip(ToUnsigned(v.n), 4); }
    case _ =>
  }

  /** A struct is its fields, one after another. */
  lemma {:induction false} StructLayout(schema: seq<Field>, values: seq<Value>, k: nat)
    requires Typed(schema, values) && k <= |schema|
    ensures Typed(schema[..k], values[..k]) && Typed(schema[k..], values[k..])
    ensures WriteStruct(schema, values) == WriteStruct(schema[..k], values[..k]) + WriteStruct(schema[k..], values[k..])
    decreases |schema|
  {
    hide HasType, WriteField;
    if k == 0 {
      assert schema[0..] == schema && values[0..] == values;
    } else {
      assert schema[..k][1..] == schema[1..][..k - 1] && values[..k][1..] == values[1..][..k - 1];
      assert schema[k..] == schema[1..][k - 1..] && values[k..] == values[1..][k - 1..];
      StructLayout(schema[1..], values[1..], k - 1);
    }
  }

  // ---- the loops of the source -----------------------------------------------------------

  /** ReadMinecraftStruct: sets the fields one by one and stops at the first error. */
  method ReadMinecraftStruct(schema: seq<Field>, data: array<Value>, input: seq<byte>)
    returns (ok: bool, rest: seq<byte>)
    requires WellFormed(schema) && data.Length == |schema|
    modifies data
    ensures var r := ReadStruct(schema, old(data[..]), input);
      ok == r.ok && rest == r.rest && (ok ==> data[..] == r.value)
  {
    hide ReadField, ReadStruct;
    ghost var before, whole := data[..], ReadStruct(schema, data[..], input);
    ok, rest := true, input;
    for i := 0 to |schema|
      invariant ok
      invariant data[i..] == before[i..]
      invariant Continues(whole, data[..i], ReadStruct(schema[i..], before[i..], rest))
    {
      ReadStructStep(schema[i..], before[i..], rest);
      assert schema[i..][1..] == schema[i + 1..] && before[i..][1..] == before[i + 1..];
      assert before[i..][0] == data[i];
      if !schema[i].IgnoredField? {
        var head := ReadField(schema[i], rest);
        rest := head.rest;
        if !head.ok {
          ok := false;
          return;
        }
        data[i] := head.value;
      }
      assert data[..i + 1] == data[..i] + [data[i]];
      assert data[i + 1..] == before[i + 1..];
    }
    EmptyStruct(schema[|schema|..], before[|schema|..], rest);
    assert data[..] == data[..|schema|];
  }

  /** `tail` is what is left to read when the values in `done` have been set. */
  ghost predicate Continues(whole: Read<seq<Value>>, done: seq<Value>, tail: Read<seq<Value>>) {
    whole.ok == tail.ok && whole.rest == tail.rest && (whole.ok ==> whole.value == done + tail.value)
  }

  lemma ReadStructStep(schema: seq<Field>, before: seq<Value>, s: seq<byte>)
    requires |schema| == |before| && schema != []
    ensures var whole := ReadStruct(schema, before, s);
      if schema[0].IgnoredField? then
        Continues(whole, [before[0]], ReadStruct(schema[1..], before[1..], s))
      else
        var head := ReadField(schema[0], s);
        if head.ok then Continues(whole, [head.value], ReadStruct(schema[1..], before[1..], head.rest))
        else !whole.ok && whole.rest == head.rest
  {
    hide ReadField;
  }

  lemma EmptyStruct(schema: seq<Field>, before: seq<Value>, s: seq<byte>)
    requires schema == [] && before == []
    ensures ReadStruct(schema, before, s) == Read([], true, s)
    ensures WriteStruct(schema, before) == []
  {
  }

  lemma WriteStructStep(schema: seq<Field>, values: seq<Value>)
    requires Typed(schema, values) && schema != []
    ensures Typed(schema[1..], values[1..])
    ensures WriteStruct(schema, values) ==
      (if schema[0].IgnoredField? then [] else WriteField(schema[0], values[0]))
      + WriteStruct(schema[1..], values[1..])
  {
    hide HasType, WriteField;
    if schema[0].IgnoredField? {
      IgnoredWritesNothing(values[0]);
    }
  }

  lemma IgnoredWritesNothing(v: Value)
    ensures WriteField(IgnoredField, v) == []
  {
  }

  /** WriteMinecraftStruct */
  method WriteMinecraftStruct(schema: seq<Field>, data: array<Value>) returns (out: seq<byte>)
    requires WellFormed(schema) && Typed(schema, data[..])
    ensures out == WriteStruct(schema, data[..])
  {
    hide HasType, WriteField, WriteStruct;
    out := [];
    ghost var values := data[..];
    for i := 0 to |schema|
      invariant Typed(schema[i..], values[i..])
      invariant WriteStruct(schema, values) == out + WriteStruct(schema[i..], values[i..])
    {
      WriteStructStep(schema[i..], values[i..]);
      assert schema[i..][1..] == schema[i + 1..] && values[i..][1..] == values[i + 1..];
      if !schema[i].IgnoredField? {
        out := out + WriteField(schema[i], data[i]);
      }
    }
    EmptyStruct(schema[|schema|..], values[|schema|..], []);
  }
}
