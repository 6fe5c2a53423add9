/** What the decoder accepts: every byte string it decodes is the serialization
    of a coding that fits the schema, and every such serialization is decoded. */
module AvroCodings {
  import opened Avro
  import opened Numbers

  type Group = g: nat | g < 128
  type Varint = gs: seq<Group> | 1 <= |gs| <= 10 witness [0]

  datatype Blob = Blob(len: Varint, raw: Bytes)
  datatype Key = NoKey | Key(blob: Blob)
  datatype Entry = Entry(key: Key, coding: Coding)
  /** `size` is written only after a negative count. */
  datatype Block = Block(count: Varint, size: Varint, entries: seq<Entry>)

  /** One way of writing a value down: the groups of its varints, the split of
      its arrays and maps into blocks, the index of its union variant. */
  datatype Coding =
    | CNull
    | CByte(byte: Byte)
    | CLong(groups: Varint)
    | CRaw(raw: Bytes)
    | CBlob(blob: Blob)
    | CRecord(parts: seq<Coding>)
    | CBlocks(blocks: seq<Block>, end: Varint)
    | CUnion(index: Varint, chosen: Coding)

  function GroupValue(gs: seq<Group>): nat {
    if |gs| == 0 then 0 else gs[0] + 128 * GroupValue(gs[1..])
  }

  /** All groups but the last are written with the top bit set. */
  function VarintBytes(gs: seq<Group>): (b: Bytes)
    requires |gs| > 0
    ensures |b| == |gs|
  {
    if |gs| == 1 then [gs[0]] else var first: Byte := gs[0] as int + 128; [first] + VarintBytes(gs[1..])
  }

  function LongOf(gs: Varint): (i: int)
    ensures -TWO_63 <= i < TWO_63
  {
    ZigZagDecode(GroupValue(gs) % TWO_64)
  }

  function BlobBytes(blob: Blob): Bytes {
    VarintBytes(blob.len) + blob.raw
  }

  function HeaderBytes(block: Block): Bytes {
    VarintBytes(block.count) + if LongOf(block.count) < 0 then VarintBytes(block.size) else []
  }

  function BytesOf(c: Coding): Bytes {
    match c
    case CNull => []
    case CByte(byte) => [byte]
    case CLong(groups) => VarintBytes(groups)
    case CRaw(raw) => raw
    case CBlob(blob) => BlobBytes(blob)
    case CRecord(parts) => PartsBytes(parts)
    case CBlocks(blocks, end) => BlocksBytes(blocks) + VarintBytes(end)
    case CUnion(index, chosen) => VarintBytes(index) + BytesOf(chosen)
  }

  function PartsBytes(parts: seq<Coding>): Bytes {
    if |parts| == 0 then [] else BytesOf(parts[0]) + PartsBytes(parts[1..])
  }

  function BlocksBytes(blocks: seq<Block>): Bytes {
    if |blocks| == 0 then []
    else HeaderBytes(blocks[0]) + EntriesBytes(blocks[0].entries) + BlocksBytes(blocks[1..])
  }

  function EntriesBytes(entries: seq<Entry>): Bytes {
    if |entries| == 0 then [] else EntryBytes(entries[0]) + EntriesBytes(entries[1..])
  }

  function EntryBytes(e: Entry): Bytes {
    (match e.key case NoKey => [] case Key(blob) => BlobBytes(blob)) + BytesOf(e.coding)
  }

  predicate FitsBlob(blob: Blob, limit: int) {
    LongOf(blob.len) == |blob.raw| <= limit
  }

  predicate FitsString(blob: Blob) {
    FitsBlob(blob, MAX_STRING) && ValidUtf8(blob.raw)
  }

  /** What the decoder tolerates: any byte for a boolean, any 64-bit integer for an
      `int` or an enum, any byte size in front of a block. */
  predicate Fits(schema: Schema, c: Coding)
    decreases schema, 0
  {
    match schema
    case Null => c.CNull?
    case Boolean => c.CByte?
    case Int => c.CLong?
    case Long => c.CLong?
    case Float => c.CRaw? && |c.raw| == 4
    case Double => c.CRaw? && |c.raw| == 8
    case Binary => c.CBlob? && FitsBlob(c.blob, MAX_BYTES)
    case String => c.CBlob? && FitsString(c.blob)
    case Record(fields) => c.CRecord? && FitsFields(fields, c.parts)
    case Enum => c.CLong?
    case Array(items) => c.CBlocks? && LongOf(c.end) == 0 && FitsBlocks(false, items, c.blocks)
    case Map(values) => c.CBlocks? && LongOf(c.end) == 0 && FitsBlocks(true, values, c.blocks)
    case Union(variants) =>
      c.CUnion? && 0 <= LongOf(c.index) < |variants| && Fits(variants[LongOf(c.index)], c.chosen)
    case Fixed(size) => c.CRaw? && |c.raw| == size
  }

  predicate FitsFields(fields: seq<Field>, parts: seq<Coding>)
    decreases fields, 0
  {
    |fields| == |parts| &&
    (|fields| == 0 || (Fits(fields[0].schema, parts[0]) && FitsFields(fields[1..], parts[1..])))
  }

  /** How many items follow a block count: its absolute value, but none after the
      least 64-bit integer, whose negation wraps around. */
  function ItemCount(count: int): nat {
    if count == -TWO_63 then 0 else if count < 0 then -count else count
  }

  predicate FitsBlocks(keyed: bool, items: Schema, blocks: seq<Block>)
    decreases items, 3, blocks
  {
    |blocks| == 0 ||
    (&& LongOf(blocks[0].count) != 0
     && |blocks[0].entries| == ItemCount(LongOf(blocks[0].count))
     && FitsEntries(keyed, items, blocks[0].entries)
     && FitsBlocks(keyed, items, blocks[1..]))
  }

  predicate FitsEntries(keyed: bool, items: Schema, entries: seq<Entry>)
    decreases items, 2, entries
  {
    |entries| == 0 || (FitsEntry(keyed, items, entries[0]) && FitsEntries(keyed, items, entries[1..]))
  }

  predicate FitsEntry(keyed: bool, items: Schema, e: Entry)
    decreases items, 1
  {
    (if keyed then e.key.Key? && FitsString(e.key.blob) else e.key.NoKey?) && Fits(items, e.coding)
  }

  function ValueOf(schema: Schema, c: Coding): Value
    requires Fits(schema, c)
    decreases schema, 0
  {
    match schema
    case Null => VNull
    case Boolean => VBoolean(c.byte != 0)
    case Int => VInt(WrapInt(LongOf(c.groups)))
    case Long => VLong(LongOf(c.groups))
    case Float => VFloat(LittleEndian(c.raw))
    case Double => VDouble(LittleEndian(c.raw))
    case Binary => VBytes(c.blob.raw)
    case String => VString(c.blob.raw)
    case Record(fields) => VRecord(FieldValues(fields, c.parts))
    case Enum => VInt(WrapInt(LongOf(c.groups)))
    case Array(items) => VArray(Seconds(BlocksValues(false, items, c.blocks)))
    case Map(values) => VMap(BlocksValues(true, values, c.blocks))
    case Union(variants) => ValueOf(variants[LongOf(c.index)], c.chosen)
    case Fixed(size) => VBytes(c.raw)
  }

  function FieldValues(fields: seq<Field>, parts: seq<Coding>): seq<(string, Value)>
    requires FitsFields(fields, parts)
    decreases fields, 0
  {
    if |fields| == 0 then []
    else [(fields[0].name, ValueOf(fields[0].schema, parts[0]))] + FieldValues(fields[1..], parts[1..])
  }

  function BlocksValues(keyed: bool, items: Schema, blocks: seq<Block>): seq<(Bytes, Value)>
    requires FitsBlocks(keyed, items, blocks)
    decreases items, 3, blocks
  {
    if |blocks| == 0 then []
    else EntriesValues(keyed, items, blocks[0].entries) + BlocksValues(keyed, items, blocks[1..])
  }

  function EntriesValues(keyed: bool, items: Schema, entries: seq<Entry>): seq<(Bytes, Value)>
    requires FitsEntries(keyed, items, entries)
    decreases items, 2, entries
  {
    if |entries| == 0 then []
    else [EntryValue(keyed, items, entries[0])] + EntriesValues(keyed, items, entries[1..])
  }

  function EntryValue(keyed: bool, items: Schema, e: Entry): (Bytes, Value)
    requires FitsEntry(keyed, items, e)
    decreases items, 1
  {
    (if keyed then e.key.blob.raw else [], ValueOf(items, e.coding))
  }

  // ------------------------------------------------------------------ varints

  lemma GroupsLast(gs: seq<Group>, rest: Bytes, k: nat)
    requires |gs| == 1 && k < 10
    ensures ReadGroups(VarintBytes(gs) + rest, k) == Ok(GroupValue(gs), rest)
  {
    assert GroupValue(gs[1..]) == 0;
    assert (VarintBytes(gs) + rest)[1..] == rest;
  }

  lemma VarintHead(gs: seq<Group>)
    requires |gs| > 1
    ensures GroupValue(gs) == gs[0] + 128 * GroupValue(gs[1..])
    ensures VarintBytes(gs)[0] - 128 == gs[0] && VarintBytes(gs)[1..] == VarintBytes(gs[1..])
  {
  }

  /** Every group is a byte of its own; all but the last announce a further one. */
  lemma {:induction false} VarintLayout(gs: seq<Group>, i: nat)
    requires i < |gs|
    ensures VarintBytes(gs)[i] == gs[i] as int + if i < |gs| - 1 then 128 else 0
    decreases |gs|
  {
    if i > 0 { VarintLayout(gs[1..], i - 1); }
  }

  lemma GroupsStep(b: Bytes, k: nat)
    requires k < 9 && |b| > 0 && b[0] >= 128
    ensures ReadGroups(b, k).Ok? == ReadGroups(b[1..], k + 1).Ok?
    ensures ReadGroups(b, k).Ok? ==> ReadGroups(b, k).rest == ReadGroups(b[1..], k + 1).rest
    ensures ReadGroups(b, k).Ok? ==> ReadGroups(b, k).value == b[0] - 128 + 128 * ReadGroups(b[1..], k + 1).value
  {
  }

  lemma {:induction false} GroupsRead(gs: seq<Group>, rest: Bytes, k: nat)
    requires |gs| > 0 && k + |gs| <= 10
    ensures ReadGroups(VarintBytes(gs) + rest, k) == Ok(GroupValue(gs), rest)
    decreases |gs|
  {
    hide ReadGroups, VarintBytes, GroupValue;
    var b := VarintBytes(gs) + rest;
    if |gs| == 1 {
      GroupsLast(gs, rest, k);
    } else {
      VarintHead(gs);
      assert b[0] - 128 == gs[0];
      assert b[1..] == VarintBytes(gs[1..]) + rest;
      GroupsRead(gs[1..], rest, k + 1);
      GroupsStep(b, k);
    }
  }

  lemma {:induction false} GroupsFound(b: Bytes, k: nat) returns (gs: seq<Group>)
    requires k < 10 && ReadGroups(b, k).Ok?
    ensures |gs| > 0 && k + |gs| <= 10
    ensures b == VarintBytes(gs) + ReadGroups(b, k).rest && ReadGroups(b, k).value == GroupValue(gs)
    decreases 10 - k
  {
    if b[0] < 128 {
      gs := [b[0]];
      assert gs[1..] == [];
    } else {
      assert k < 9;
      hide ReadGroups, VarintBytes;
      GroupsStep(b, k);
      var more := GroupsFound(b[1..], k + 1);
      var first: Group := b[0] - 128;
      gs := [first] + more;
      assert gs[1..] == more;
      VarintHead(gs);
      assert b == [b[0]] + b[1..];
      assert VarintBytes(gs) == [b[0]] + VarintBytes(more);
    }
  }

  lemma LongRead(gs: Varint, rest: Bytes)
    ensures ReadLong(VarintBytes(gs) + rest) == Ok(LongOf(gs), rest)
  {
    hide ReadGroups, VarintBytes, GroupValue, ZigZagDecode;
    GroupsRead(gs, rest, 0);
  }

  lemma LongFound(b: Bytes) returns (gs: Varint)
    requires ReadLong(b).Ok?
    ensures b == VarintBytes(gs) + ReadLong(b).rest && ReadLong(b).value == LongOf(gs)
  {
    hide ReadGroups, VarintBytes, GroupValue, ZigZagDecode;
    gs := GroupsFound(b, 0);
  }

  lemma ExactRead(s: Bytes, rest: Bytes)
    ensures ReadExact(s + rest, |s|) == Ok(s, rest)
  {
    assert (s + rest)[..|s|] == s;
    assert (s + rest)[|s|..] == rest;
  }

  lemma BlobRead(blob: Blob, limit: int, rest: Bytes)
    requires FitsBlob(blob, limit)
    ensures ReadBlob(BlobBytes(blob) + rest, limit) == Ok(blob.raw, rest)
  {
    hide LongOf, ReadLong, VarintBytes, ReadExact;
    LongRead(blob.len, blob.raw + rest);
    assert BlobBytes(blob) + rest == VarintBytes(blob.len) + (blob.raw + rest);
    ExactRead(blob.raw, rest);
  }

  lemma BlobFound(b: Bytes, limit: int) returns (blob: Blob)
    requires ReadBlob(b, limit).Ok?
    ensures FitsBlob(blob, limit) && b == BlobBytes(blob) + ReadBlob(b, limit).rest
    ensures ReadBlob(b, limit).value == blob.raw
  {
    hide LongOf, ReadLong, VarintBytes;
    var gs := LongFound(b);
    var r := ReadBlob(b, limit);
    blob := Blob(gs, r.value);
    assert VarintBytes(gs) + (r.value + r.rest) == BlobBytes(blob) + r.rest;
  }

  lemma HeaderRead(block: Block, rest: Bytes)
    ensures ReadBlock(HeaderBytes(block) + rest).Ok? && ReadBlock(HeaderBytes(block) + rest).rest == rest
    ensures var c := ReadBlock(HeaderBytes(block) + rest).value;
            (c == 0 <==> LongOf(block.count) == 0) && (if c < 0 then 0 else c) == ItemCount(LongOf(block.count))
  {
    hide LongOf, ReadLong, VarintBytes;
    if LongOf(block.count) < 0 {
      LongRead(block.count, VarintBytes(block.size) + rest);
      LongRead(block.size, rest);
      assert HeaderBytes(block) + rest == VarintBytes(block.count) + (VarintBytes(block.size) + rest);
    } else {
      LongRead(block.count, rest);
      assert HeaderBytes(block) + rest == VarintBytes(block.count) + rest;
    }
  }

  lemma HeaderFound(b: Bytes) returns (count: Varint, size: Varint)
    requires ReadBlock(b).Ok?
    ensures forall es :: b == HeaderBytes(Block(count, size, es)) + ReadBlock(b).rest
    ensures LongOf(count) == 0 ==> b == VarintBytes(count) + ReadBlock(b).rest
    ensures var c := ReadBlock(b).value;
            (c == 0 <==> LongOf(count) == 0) && (if c < 0 then 0 else c) == ItemCount(LongOf(count))
  {
    hide LongOf, ReadLong, VarintBytes;
    count := LongFound(b);
    size := [0];
    var rest := ReadLong(b).rest;
    if LongOf(count) < 0 {
      size := LongFound(rest);
      var rest' := ReadLong(rest).rest;
      assert VarintBytes(count) + (VarintBytes(size) + rest') == VarintBytes(count) + VarintBytes(size) + rest';
    } else {
      assert VarintBytes(count) + [] + rest == VarintBytes(count) + rest;
    }
  }

  // ------------------------------------------------------------------ every fitting coding is decoded

  lemma {:induction false} CodingRead(schema: Schema, c: Coding, rest: Bytes)
    requires Fits(schema, c)
    ensures Decode(schema, BytesOf(c) + rest) == Ok(ValueOf(schema, c), rest)
    decreases schema, 0
  {
    hide LongOf, ReadLong, VarintBytes, ReadBlob, BlobBytes, FitsBlob, ValidUtf8, DecodeBlocks, FitsBlocks,
      BlocksValues, BlocksBytes, PartsBytes, FitsFields, FieldValues, DecodeFields;
    match schema {
      case Null => assert BytesOf(c) + rest == rest;
      case Boolean => ExactRead([c.byte], rest);
      case Int => LongRead(c.groups, rest);
      case Long => LongRead(c.groups, rest);
      case Float => ExactRead(c.raw, rest);
      case Double => ExactRead(c.raw, rest);
      case Binary => BlobRead(c.blob, MAX_BYTES, rest);
      case String => BlobRead(c.blob, MAX_STRING, rest);
      case Record(fields) => FieldsRead(fields, c.parts, rest);
      case Enum => LongRead(c.groups, rest);
      case Array(items) => ArrayRead(false, items, c, rest);
      case Map(values) => ArrayRead(true, values, c, rest);
      case Union(variants) => UnionRead(variants, c, rest);
      case Fixed(size) => ExactRead(c.raw, rest);
    }
  }

  lemma {:induction false} UnionRead(variants: seq<Schema>, c: Coding, rest: Bytes)
    requires Fits(Union(variants), c)
    ensures Decode(Union(variants), BytesOf(c) + rest) == Ok(ValueOf(Union(variants), c), rest)
    decreases variants, 0
  {
    hide LongOf, ReadLong, VarintBytes;
    LongRead(c.index, BytesOf(c.chosen) + rest);
    assert BytesOf(c) + rest == VarintBytes(c.index) + (BytesOf(c.chosen) + rest);
    CodingRead(variants[LongOf(c.index)], c.chosen, rest);
  }

  lemma {:induction false} FieldsRead(fields: seq<Field>, parts: seq<Coding>, rest: Bytes)
    requires FitsFields(fields, parts)
    ensures DecodeFields(fields, PartsBytes(parts) + rest) == Ok(FieldValues(fields, parts), rest)
    decreases fields, 0
  {
    hide Fits, Decode, BytesOf, ValueOf;
    if |fields| == 0 {
      assert PartsBytes(parts) + rest == rest;
    } else {
      var more := PartsBytes(parts[1..]) + rest;
      CodingRead(fields[0].schema, parts[0], more);
      assert PartsBytes(parts) + rest == BytesOf(parts[0]) + more;
      FieldsRead(fields[1..], parts[1..], rest);
    }
  }

  lemma {:induction false} ArrayRead(keyed: bool, items: Schema, c: Coding, rest: Bytes)
    requires c.CBlocks? && LongOf(c.end) == 0 && FitsBlocks(keyed, items, c.blocks)
    ensures DecodeBlocks(keyed, items, BytesOf(c) + rest) == Ok(BlocksValues(keyed, items, c.blocks), rest)
    decreases items, 4
  {
    hide LongOf, ReadLong, VarintBytes, DecodeBlocks, FitsBlocks, BlocksValues, BlocksBytes;
    BlocksRead(keyed, items, c.blocks, c.end, rest);
    assert BytesOf(c) + rest == BlocksBytes(c.blocks) + (VarintBytes(c.end) + rest);
  }

  lemma {:induction false} BlocksRead(keyed: bool, items: Schema, blocks: seq<Block>, end: Varint, rest: Bytes)
    requires LongOf(end) == 0 && FitsBlocks(keyed, items, blocks)
    ensures DecodeBlocks(keyed, items, BlocksBytes(blocks) + (VarintBytes(end) + rest))
      == Ok(BlocksValues(keyed, items, blocks), rest)
    decreases items, 3, blocks
  {
    hide LongOf, ReadLong, VarintBytes, HeaderBytes, DecodeItems, FitsEntries, EntriesValues, EntriesBytes, ItemCount;
    var tail := VarintBytes(end) + rest;
    if |blocks| == 0 {
      assert BlocksBytes(blocks) + tail == tail;
      LongRead(end, rest);
    } else {
      var more := BlocksBytes(blocks[1..]) + tail;
      var es := blocks[0].entries;
      HeaderRead(blocks[0], EntriesBytes(es) + more);
      assert BlocksBytes(blocks) + tail == HeaderBytes(blocks[0]) + (EntriesBytes(es) + more);
      EntriesRead(keyed, items, es, more);
      BlocksRead(keyed, items, blocks[1..], end, rest);
    }
  }

  lemma {:induction false} EntriesRead(keyed: bool, items: Schema, entries: seq<Entry>, rest: Bytes)
    requires FitsEntries(keyed, items, entries)
    ensures DecodeItems(keyed, items, |entries|, EntriesBytes(entries) + rest)
      == Ok(EntriesValues(keyed, items, entries), rest)
    decreases items, 2, entries
  {
    hide FitsEntry, DecodeEntry, EntryBytes, EntryValue;
    if |entries| == 0 {
      assert EntriesBytes(entries) + rest == rest;
    } else {
      var more := EntriesBytes(entries[1..]) + rest;
      EntryRead(keyed, items, entries[0], more);
      assert EntriesBytes(entries) + rest == EntryBytes(entries[0]) + more;
      EntriesRead(keyed, items, entries[1..], rest);
    }
  }

  lemma {:induction false} EntryRead(keyed: bool, items: Schema, e: Entry, rest: Bytes)
    requires FitsEntry(keyed, items, e)
    ensures DecodeEntry(keyed, items, EntryBytes(e) + rest) == Ok(EntryValue(keyed, items, e), rest)
    decreases items, 1
  {
    hide Fits, Decode, BytesOf, ValueOf, ReadBlob, BlobBytes, FitsBlob, ValidUtf8;
    CodingRead(items, e.coding, rest);
    var more := BytesOf(e.coding) + rest;
    if keyed {
      BlobRead(e.key.blob, MAX_STRING, more);
      assert EntryBytes(e) + rest == BlobBytes(e.key.blob) + more;
    } else {
      assert EntryBytes(e) + rest == more;
    }
  }

  // ------------------------------------------------------------------ everything decoded is a fitting coding

  ghost predicate Serializes(schema: Schema, c: Coding, b: Bytes, v: Value, rest: Bytes) {
    Fits(schema, c) && b == BytesOf(c) + rest && v == ValueOf(schema, c)
  }

  lemma {:induction false} CodingFound(schema: Schema, b: Bytes) returns (c: Coding)
    requires Decode(schema, b).Ok?
    ensures Serializes(schema, c, b, Decode(schema, b).value, Decode(schema, b).rest)
    decreases schema, 0
  {
    hide Serializes, DecodeFields, FitsFields, FieldValues, DecodeBlocks, FitsBlocks, BlocksValues, LongOf, BytesOf;
    match schema {
      case Record(fields) =>
        var parts := FieldsFound(fields, b);
        c := CRecord(parts);
        RecordSerializes(fields, parts, b);
      case Array(items) =>
        c := ArrayFound(false, items, b);
        BlocksSerialize(false, items, c, b);
      case Map(values) =>
        c := ArrayFound(true, values, b);
        BlocksSerialize(true, values, c, b);
      case Union(variants) => c := UnionFound(variants, b);
      case _ => c := PlainFound(schema, b);
    }
  }

  predicate Plain(schema: Schema) {
    !schema.Record? && !schema.Array? && !schema.Map? && !schema.Union?
  }

  lemma PlainFound(schema: Schema, b: Bytes) returns (c: Coding)
    requires Plain(schema) && Decode(schema, b).Ok?
    ensures Serializes(schema, c, b, Decode(schema, b).value, Decode(schema, b).rest)
  {
    hide LongOf, ReadLong, VarintBytes, ReadBlob, BlobBytes, FitsBlob, ValidUtf8, LittleEndian, WrapInt;
    match schema {
      case Null => c := CNull; assert BytesOf(c) + b == b;
      case Boolean => c := CByte(b[0]);
      case Int => var gs := LongFound(b); c := CLong(gs);
      case Long => var gs := LongFound(b); c := CLong(gs);
      case Float => c := CRaw(b[..4]);
      case Double => c := CRaw(b[..8]);
      case Binary => var blob := BlobFound(b, MAX_BYTES); c := CBlob(blob);
      case String => var blob := BlobFound(b, MAX_STRING); c := CBlob(blob);
      case Enum => var gs := LongFound(b); c := CLong(gs);
      case Fixed(size) => c := CRaw(b[..size]);
    }
  }

  lemma RecordSerializes(fields: seq<Field>, parts: seq<Coding>, b: Bytes)
    requires DecodeFields(fields, b).Ok? && FitsFields(fields, parts)
    requires b == PartsBytes(parts) + DecodeFields(fields, b).rest
    requires DecodeFields(fields, b).value == FieldValues(fields, parts)
    ensures var d := Decode(Record(fields), b); d.Ok? && Serializes(Record(fields), CRecord(parts), b, d.value, d.rest)
  {
    hide PartsBytes, FitsFields, FieldValues, DecodeFields;
  }

  lemma BlocksSerialize(keyed: bool, items: Schema, c: Coding, b: Bytes)
    requires DecodeBlocks(keyed, items, b).Ok? && c.CBlocks? && LongOf(c.end) == 0 && FitsBlocks(keyed, items, c.blocks)
    requires b == BytesOf(c) + DecodeBlocks(keyed, items, b).rest
    requires DecodeBlocks(keyed, items, b).value == BlocksValues(keyed, items, c.blocks)
    ensures var schema := if keyed then Map(items) else Array(items); var d := Decode(schema, b);
      d.Ok? && Serializes(schema, c, b, d.value, d.rest)
  {
    hide DecodeBlocks, FitsBlocks, BlocksValues, BlocksBytes, LongOf, BytesOf;
  }

  lemma {:induction false} UnionFound(variants: seq<Schema>, b: Bytes) returns (c: Coding)
    requires Decode(Union(variants), b).Ok?
    ensures Serializes(Union(variants), c, b, Decode(Union(variants), b).value, Decode(Union(variants), b).rest)
    decreases variants, 0
  {
    hide LongOf, ReadLong, VarintBytes;
    var index := LongFound(b);
    var more := ReadLong(b).rest;
    var chosen := CodingFound(variants[LongOf(index)], more);
    c := CUnion(index, chosen);
    var rest := Decode(Union(variants), b).rest;
    assert BytesOf(c) + rest == VarintBytes(index) + (BytesOf(chosen) + rest);
  }

  lemma {:induction false} FieldsFound(fields: seq<Field>, b: Bytes) returns (parts: seq<Coding>)
    requires DecodeFields(fields, b).Ok?
    ensures FitsFields(fields, parts) && b == PartsBytes(parts) + DecodeFields(fields, b).rest
    ensures DecodeFields(fields, b).value == FieldValues(fields, parts)
    decreases fields, 0
  {
    hide Fits, Decode, BytesOf, ValueOf;
    if |fields| == 0 {
      parts := [];
    } else {
      var first := CodingFound(fields[0].schema, b);
      var more := Decode(fields[0].schema, b).rest;
      var others := FieldsFound(fields[1..], more);
      var rest := DecodeFields(fields, b).rest;
      parts := [first] + others;
      assert parts[1..] == others;
      assert PartsBytes(parts) + rest == BytesOf(first) + (PartsBytes(others) + rest);
    }
  }

  lemma {:induction false} ArrayFound(keyed: bool, items: Schema, b: Bytes) returns (c: Coding)
    requires DecodeBlocks(keyed, items, b).Ok?
    ensures c.CBlocks? && LongOf(c.end) == 0 && FitsBlocks(keyed, items, c.blocks)
    ensures b == BytesOf(c) + DecodeBlocks(keyed, items, b).rest
    ensures DecodeBlocks(keyed, items, b).value == BlocksValues(keyed, items, c.blocks)
    decreases items, 4
  {
    hide LongOf, ReadLong, VarintBytes, DecodeBlocks, FitsBlocks, BlocksValues, BlocksBytes;
    var blocks, end := BlocksFound(keyed, items, b);
    c := CBlocks(blocks, end);
    var rest := DecodeBlocks(keyed, items, b).rest;
    assert BlocksBytes(blocks) + (VarintBytes(end) + rest) == BytesOf(c) + rest;
  }

  lemma NoBlocks(tail: Bytes)
    ensures BlocksBytes([]) + tail == tail
  {
  }

  lemma BlocksJoined(first: Block, others: seq<Block>, b: Bytes, inner: Bytes, outer: Bytes, tail: Bytes)
    requires b == HeaderBytes(first) + inner && inner == EntriesBytes(first.entries) + outer
    requires outer == BlocksBytes(others) + tail
    ensures b == BlocksBytes([first] + others) + tail
  {
    hide HeaderBytes, EntriesBytes;
    assert ([first] + others)[1..] == others;
  }

  lemma {:induction false} BlocksFound(keyed: bool, items: Schema, b: Bytes) returns (blocks: seq<Block>, end: Varint)
    requires DecodeBlocks(keyed, items, b).Ok?
    ensures LongOf(end) == 0 && FitsBlocks(keyed, items, blocks)
    ensures b == BlocksBytes(blocks) + (VarintBytes(end) + DecodeBlocks(keyed, items, b).rest)
    ensures DecodeBlocks(keyed, items, b).value == BlocksValues(keyed, items, blocks)
    decreases items, 3, |b|
  {
    hide LongOf, ReadLong, VarintBytes, HeaderBytes, DecodeItems, FitsEntries, EntriesValues, EntriesBytes, ItemCount,
      BlocksBytes;
    var count, size := HeaderFound(b);
    var inner := ReadBlock(b).rest;
    var rest := DecodeBlocks(keyed, items, b).rest;
    if LongOf(count) == 0 {
      blocks, end := [], count;
      NoBlocks(VarintBytes(end) + rest);
    } else {
      var n := ItemCount(LongOf(count));
      var es := EntriesFound(keyed, items, n, inner);
      var outer := DecodeItems(keyed, items, n, inner).rest;
      var others;
      others, end := BlocksFound(keyed, items, outer);
      var first := Block(count, size, es);
      blocks := [first] + others;
      assert blocks[1..] == others;
      BlocksJoined(first, others, b, inner, outer, VarintBytes(end) + rest);
    }
  }

  lemma {:induction false} EntriesFound(keyed: bool, items: Schema, n: nat, b: Bytes) returns (entries: seq<Entry>)
    requires DecodeItems(keyed, items, n, b).Ok?
    ensures |entries| == n && FitsEntries(keyed, items, entries)
    ensures b == EntriesBytes(entries) + DecodeItems(keyed, items, n, b).rest
    ensures DecodeItems(keyed, items, n, b).value == EntriesValues(keyed, items, entries)
    decreases items, 2, n
  {
    hide FitsEntry, DecodeEntry, EntryBytes, EntryValue;
    if n == 0 {
      entries := [];
    } else {
      var first := EntryFound(keyed, items, b);
      var more := DecodeEntry(keyed, items, b).rest;
      var others := EntriesFound(keyed, items, n - 1, more);
      entries := [first] + others;
      var rest := DecodeItems(keyed, items, n, b).rest;
      assert entries[1..] == others;
      assert EntriesBytes(entries) + rest == EntryBytes(first) + (EntriesBytes(others) + rest);
    }
  }

  lemma {:induction false} EntryFound(keyed: bool, items: Schema, b: Bytes) returns (e: Entry)
    requires DecodeEntry(keyed, items, b).Ok?
    ensures FitsEntry(keyed, items, e) && b == EntryBytes(e) + DecodeEntry(keyed, items, b).rest
    ensures DecodeEntry(keyed, items, b).value == EntryValue(keyed, items, e)
    decreases items, 1
  {
    hide Fits, Decode, BytesOf, ValueOf, ReadBlob, BlobBytes, FitsBlob, ValidUtf8;
    var rest := DecodeEntry(keyed, items, b).rest;
    if keyed {
      var blob := BlobFound(b, MAX_STRING);
      var c := CodingFound(items, ReadString(b).rest);
      e := Entry(Key(blob), c);
      assert BlobBytes(blob) + (BytesOf(c) + rest) == EntryBytes(e) + rest;
    } else {
      var c := CodingFound(items, b);
      e := Entry(NoKey, c);
      assert EntryBytes(e) == BytesOf(c);
    }
  }

  /** The decoder accepts exactly the serializations of fitting codings, and reads
      no byte beyond them. */
  lemma DecodesExactly(schema: Schema, b: Bytes, v: Value, rest: Bytes)
    ensures Decode(schema, b) == Ok(v, rest) <==> exists c :: Serializes(schema, c, b, v, rest)
  {
    hide Fits, Decode, BytesOf, ValueOf;
    if Decode(schema, b) == Ok(v, rest) {
      var c := CodingFound(schema, b);
      assert Serializes(schema, c, b, v, rest);
    }
    if c :| Serializes(schema, c, b, v, rest) {
      CodingRead(schema, c, rest);
    }
  }

  /** What has been decoded does not depend on what follows it. */
  lemma DecodeExtends(schema: Schema, b: Bytes, more: Bytes)
    requires Decode(schema, b).Ok?
    ensures Decode(schema, b + more) == Ok(Decode(schema, b).value, Decode(schema, b).rest + more)
  {
    hide Fits, Decode, BytesOf, ValueOf;
    var c := CodingFound(schema, b);
    var rest := Decode(schema, b).rest;
    CodingRead(schema, c, rest + more);
    assert b + more == BytesOf(c) + (rest + more);
  }
}
