/** The schema-driven Avro decoder (akar-iceberg `avro.rs`): binary encoding of
    the Apache Avro 1.11 specification, section "Binary Encoding". */
module Avro {
  import opened Numbers

  type Byte = b: nat | b < 256
  type Bytes = seq<Byte>

  const TWO_31: int := 0x8000_0000
  const TWO_32: int := 0x1_0000_0000
  const TWO_63: int := 0x8000_0000_0000_0000
  const MAX_STRING: int := 64 * 1024 * 1024
  const MAX_BYTES: int := 256 * 1024 * 1024

  datatype Field = Field(name: string, schema: Schema)

  datatype Schema =
    | Null | Boolean | Int | Long | Float | Double | Binary | String
    | Record(fields: seq<Field>)
    | Enum
    | Array(items: Schema)
    | Map(values: Schema)
    | Union(variants: seq<Schema>)
    | Fixed(size: nat)

  /** Decoded values.  Floats are kept as their bit patterns and strings as
      their UTF-8 bytes. */
  datatype Value =
    | VNull | VBoolean(b: bool) | VInt(i: int) | VLong(l: int)
    | VFloat(bits: nat) | VDouble(bits: nat)
    | VBytes(bytes: Bytes) | VString(utf8: Bytes)
    | VRecord(fields: seq<(string, Value)>)
    | VArray(elements: seq<Value>)
    | VMap(entries: seq<(Bytes, Value)>)

  datatype Error = UnexpectedEof | InvalidData

  datatype Read<+T> = Ok(value: T, rest: Bytes) | Err(error: Error)

  // ------------------------------------------------------------------ primitives

  function ReadExact(b: Bytes, n: nat): (r: Read<Bytes>)
    ensures r.Ok? <==> n <= |b|
    ensures r.Ok? ==> b == r.value + r.rest && |r.value| == n
  {
    if n <= |b| then Ok(b[..n], b[n..]) else Err(UnexpectedEof)
  }

  /** The 7-bit groups of a varint, least significant first; `k` have been read. */
  function ReadGroups(b: Bytes, k: nat): (r: Read<nat>)
    requires k < 10
    ensures r.Ok? ==> |r.rest| < |b| && b[|b| - |r.rest|..] == r.rest
    decreases 10 - k
  {
    if |b| == 0 then Err(UnexpectedEof)
    else if b[0] < 128 then Ok(b[0], b[1..])
    else if k == 9 then Err(InvalidData)
    else
      match ReadGroups(b[1..], k + 1)
      case Ok(v, rest) => Ok(b[0] % 128 + 128 * v, rest)
      case Err(e) => Err(e)
  }

  function ZigZagDecode(u: nat): int {
    if u % 2 == 0 then u / 2 else -(u / 2) - 1
  }

  function ReadLong(b: Bytes): (r: Read<int>)
    ensures r.Ok? ==> |r.rest| < |b| && -TWO_63 <= r.value < TWO_63
  {
    match ReadGroups(b, 0)
    case Ok(v, rest) => Ok(ZigZagDecode(v % TWO_64), rest)
    case Err(e) => Err(e)
  }

  /** A length of at most `limit`, and that many bytes. */
  function ReadBlob(b: Bytes, limit: int): (r: Read<Bytes>)
    ensures r.Ok? ==> |r.rest| < |b|
  {
    match ReadLong(b)
    case Err(e) => Err(e)
    case Ok(len, rest) => if len < 0 || len > limit then Err(InvalidData) else ReadExact(rest, len)
  }

  function ReadString(b: Bytes): (r: Read<Bytes>)
    ensures r.Ok? ==> |r.rest| < |b|
  {
    match ReadBlob(b, MAX_STRING)
    case Err(e) => Err(e)
    case Ok(s, rest) => if ValidUtf8(s) then Ok(s, rest) else Err(InvalidData)
  }

  /** The count of the next block.  A negative count is followed by a byte size;
      negating the least `i64` wraps around to itself. */
  function ReadBlock(b: Bytes): (r: Read<int>)
    ensures r.Ok? ==> |r.rest| < |b|
  {
    match ReadLong(b)
    case Err(e) => Err(e)
    case Ok(count, rest) =>
      if count < 0 then
        match ReadLong(rest)
        case Err(e) => Err(e)
        case Ok(_, rest') => Ok(if count == -TWO_63 then count else -count, rest')
      else Ok(count, rest)
  }

  function WrapInt(v: int): int {
    var m := v % TWO_32;
    if m < TWO_31 then m else m - TWO_32
  }

  function LittleEndian(b: Bytes): nat {
    if |b| == 0 then 0 else b[0] + 256 * LittleEndian(b[1..])
  }

  /** Well-formed UTF-8, as in table 3-7 of the Unicode standard. */
  predicate ValidUtf8(s: Bytes) {
    if |s| == 0 then true
    else if s[0] <= 0x7F then ValidUtf8(s[1..])
    else if 0xC2 <= s[0] <= 0xDF then |s| >= 2 && Tail(s[1]) && ValidUtf8(s[2..])
    else if 0xE0 <= s[0] <= 0xEF then
      && |s| >= 3 && Tail(s[1]) && Tail(s[2])
      && (s[0] == 0xE0 ==> s[1] >= 0xA0) && (s[0] == 0xED ==> s[1] <= 0x9F) && ValidUtf8(s[3..])
    else if 0xF0 <= s[0] <= 0xF4 then
      && |s| >= 4 && Tail(s[1]) && Tail(s[2]) && Tail(s[3])
      && (s[0] == 0xF0 ==> s[1] >= 0x90) && (s[0] == 0xF4 ==> s[1] <= 0x8F) && ValidUtf8(s[4..])
    else false
  }

  predicate Tail(b: Byte) {
    0x80 <= b <= 0xBF
  }

  // ------------------------------------------------------------------ the decoder

  function Decode(schema: Schema, b: Bytes): (r: Read<Value>)
    ensures r.Ok? ==> |r.rest| <= |b|
    decreases schema, 0
  {
    match schema
    case Null => Ok(VNull, b)
    case Boolean => (match ReadExact(b, 1) case Ok(s, rest) => Ok(VBoolean(s[0] != 0), rest) case Err(e) => Err(e))
    case Int => (match ReadLong(b) case Ok(v, rest) => Ok(VInt(WrapInt(v)), rest) case Err(e) => Err(e))
    case Long => (match ReadLong(b) case Ok(v, rest) => Ok(VLong(v), rest) case Err(e) => Err(e))
    case Float => (match ReadExact(b, 4) case Ok(s, rest) => Ok(VFloat(LittleEndian(s)), rest) case Err(e) => Err(e))
    case Double => (match ReadExact(b, 8) case Ok(s, rest) => Ok(VDouble(LittleEndian(s)), rest) case Err(e) => Err(e))
    case Binary => (match ReadBlob(b, MAX_BYTES) case Ok(s, rest) => Ok(VBytes(s), rest) case Err(e) => Err(e))
    case String => (match ReadString(b) case Ok(s, rest) => Ok(VString(s), rest) case Err(e) => Err(e))
    case Record(fields) =>
      (match DecodeFields(fields, b) case Ok(vs, rest) => Ok(VRecord(vs), rest) case Err(e) => Err(e))
    case Enum => (match ReadLong(b) case Ok(v, rest) => Ok(VInt(WrapInt(v)), rest) case Err(e) => Err(e))
    case Array(items) =>
      (match DecodeBlocks(false, items, b) case Ok(es, rest) => Ok(VArray(Seconds(es)), rest) case Err(e) => Err(e))
    case Map(values) =>
      (match DecodeBlocks(true, values, b) case Ok(es, rest) => Ok(VMap(es), rest) case Err(e) => Err(e))
    case Union(variants) =>
      (match ReadLong(b)
       case Ok(i, rest) => if 0 <= i < |variants| then Decode(variants[i], rest) else Err(InvalidData)
       case Err(e) => Err(e))
    case Fixed(size) => (match ReadExact(b, size) case Ok(s, rest) => Ok(VBytes(s), rest) case Err(e) => Err(e))
  }

  function Seconds(es: seq<(Bytes, Value)>): (vs: seq<Value>)
    ensures |vs| == |es| && forall i | 0 <= i < |es| :: vs[i] == es[i].1
  {
    seq(|es|, i requires 0 <= i < |es| => es[i].1)
  }

  function DecodeFields(fields: seq<Field>, b: Bytes): (r: Read<seq<(string, Value)>>)
    ensures r.Ok? ==> |r.rest| <= |b|
    decreases fields, 0
  {
    if |fields| == 0 then Ok([], b)
    else
      match Decode(fields[0].schema, b)
      case Err(e) => Err(e)
      case Ok(v, rest) =>
        match DecodeFields(fields[1..], rest)
        case Err(e) => Err(e)
        case Ok(vs, rest') => Ok([(fields[0].name, v)] + vs, rest')
  }

  /** The blocks of an array, or of a map (`keyed`), up to the empty block. */
  function DecodeBlocks(keyed: bool, items: Schema, b: Bytes): (r: Read<seq<(Bytes, Value)>>)
    ensures r.Ok? ==> |r.rest| <= |b|
    decreases items, 3, |b|
  {
    match ReadBlock(b)
    case Err(e) => Err(e)
    case Ok(count, rest) =>
      if count == 0 then Ok([], rest)
      else
        match DecodeItems(keyed, items, if count < 0 then 0 else count, rest)
        case Err(e) => Err(e)
        case Ok(es, rest') =>
          match DecodeBlocks(keyed, items, rest')
          case Err(e) => Err(e)
          case Ok(more, rest'') => Ok(es + more, rest'')
  }

  function DecodeItems(keyed: bool, items: Schema, count: nat, b: Bytes): (r: Read<seq<(Bytes, Value)>>)
    ensures r.Ok? ==> |r.rest| <= |b|
    decreases items, 2, count
  {
    if count == 0 then Ok([], b)
    else
      match DecodeEntry(keyed, items, b)
      case Err(e) => Err(e)
      case Ok(entry, rest) =>
        match DecodeItems(keyed, items, count - 1, rest)
        case Err(e) => Err(e)
        case Ok(es, rest') => Ok([entry] + es, rest')
  }

  function DecodeEntry(keyed: bool, items: Schema, b: Bytes): (r: Read<(Bytes, Value)>)
    ensures r.Ok? ==> |r.rest| <= |b|
    decreases items, 1
  {
    if keyed then
      match ReadString(b)
      case Err(e) => Err(e)
      case Ok(key, rest) =>
        match Decode(items, rest)
        case Err(e) => Err(e)
        case Ok(v, rest') => Ok((key, v), rest')
    else
      match Decode(items, b)
      case Err(e) => Err(e)
      case Ok(v, rest) => Ok(([], v), rest)
  }
}
