/** The encodings that the Apache Avro 1.11 specification gives a value, stated
    without reference to the decoder, and the round trip through the decoder. */
module AvroSpec {
  import opened Avro
  import opened Numbers
  import opened Digits
  import opened AvroCodings

  function ZigZag(i: int): nat {
    if i >= 0 then 2 * i else -2 * i - 1
  }

  /** Seven bits a group, the least significant first. */
  predicate WritesLong(i: int, gs: Varint) {
    HasDigits(ZigZag(i), 128, gs)
  }

  predicate IsInt(i: int) {
    -TWO_31 <= i < TWO_31
  }

  predicate IsLong(i: int) {
    -TWO_63 <= i < TWO_63
  }

  predicate WritesBlob(s: Bytes, limit: int, blob: Blob) {
    blob.raw == s && |s| <= limit && WritesLong(|s|, blob.len)
  }

  function Unkeyed(vs: seq<Value>): (es: seq<(Bytes, Value)>)
    ensures |es| == |vs| && forall i | 0 <= i < |vs| :: es[i] == ([], vs[i])
  {
    seq(|vs|, i requires 0 <= i < |vs| => ([], vs[i]))
  }

  /** `v` is a value of the schema's type.  The schema keeps no symbols of an enum. */
  predicate Conforms(schema: Schema, v: Value)
    decreases schema, 0
  {
    match schema
    case Null => v.VNull?
    case Boolean => v.VBoolean?
    case Int => v.VInt? && IsInt(v.i)
    case Long => v.VLong? && IsLong(v.l)
    case Float => v.VFloat? && v.bits < TWO_32
    case Double => v.VDouble? && v.bits < TWO_64
    case Binary => v.VBytes? && |v.bytes| <= MAX_BYTES
    case String => v.VString? && |v.utf8| <= MAX_STRING && ValidUtf8(v.utf8)
    case Record(fields) => v.VRecord? && ConformsFields(fields, v.fields)
    case Enum => v.VInt? && IsInt(v.i)
    case Array(items) => v.VArray? && forall i | 0 <= i < |v.elements| :: Conforms(items, v.elements[i])
    case Map(values) =>
      v.VMap? && forall i | 0 <= i < |v.entries| :: IsKey(v.entries[i].0) && Conforms(values, v.entries[i].1)
    case Union(variants) => exists i | 0 <= i < |variants| :: Conforms(variants[i], v)
    case Fixed(size) => v.VBytes? && |v.bytes| == size
  }

  predicate IsKey(s: Bytes) {
    |s| <= MAX_STRING && ValidUtf8(s)
  }

  predicate ConformsFields(fields: seq<Field>, vs: seq<(string, Value)>)
    decreases fields, 0
  {
    |fields| == |vs| &&
    (|fields| == 0 ||
     (vs[0].0 == fields[0].name && Conforms(fields[0].schema, vs[0].1) && ConformsFields(fields[1..], vs[1..])))
  }

  /** `c` is an encoding of `v` that the specification allows. */
  predicate Encodes(schema: Schema, v: Value, c: Coding)
    decreases schema, 0
  {
    match schema
    case Null => v.VNull? && c.CNull?
    case Boolean => v.VBoolean? && c.CByte? && c.byte == if v.b then 1 else 0
    case Int => v.VInt? && c.CLong? && IsInt(v.i) && WritesLong(v.i, c.groups)
    case Long => v.VLong? && c.CLong? && IsLong(v.l) && WritesLong(v.l, c.groups)
    case Float => v.VFloat? && c.CRaw? && |c.raw| == 4 && HasDigits(v.bits, 256, c.raw)
    case Double => v.VDouble? && c.CRaw? && |c.raw| == 8 && HasDigits(v.bits, 256, c.raw)
    case Binary => v.VBytes? && c.CBlob? && WritesBlob(v.bytes, MAX_BYTES, c.blob)
    case String => v.VString? && c.CBlob? && WritesBlob(v.utf8, MAX_STRING, c.blob) && ValidUtf8(v.utf8)
    case Record(fields) => v.VRecord? && c.CRecord? && EncodesFields(fields, v.fields, c.parts)
    case Enum => v.VInt? && c.CLong? && IsInt(v.i) && WritesLong(v.i, c.groups)
    case Array(items) =>
      v.VArray? && c.CBlocks? && WritesLong(0, c.end) && EncodesBlocks(false, items, Unkeyed(v.elements), c.blocks)
    case Map(values) =>
      v.VMap? && c.CBlocks? && WritesLong(0, c.end) && EncodesBlocks(true, values, v.entries, c.blocks)
    case Union(variants) =>
      c.CUnion? && exists i | 0 <= i < |variants| :: WritesIndex(i, c.index) && Encodes(variants[i], v, c.chosen)
    case Fixed(size) => v.VBytes? && c.CRaw? && |v.bytes| == size && c.raw == v.bytes
  }

  predicate WritesIndex(i: int, gs: Varint) {
    i < TWO_63 && WritesLong(i, gs)
  }

  predicate EncodesFields(fields: seq<Field>, vs: seq<(string, Value)>, parts: seq<Coding>)
    decreases fields, 0
  {
    |fields| == |vs| == |parts| &&
    (|fields| == 0 ||
     (&& vs[0].0 == fields[0].name
      && Encodes(fields[0].schema, vs[0].1, parts[0])
      && EncodesFields(fields[1..], vs[1..], parts[1..])))
  }

  /** The items may be cut into blocks anywhere.  A block is headed by its count, or
      by the negated count and the number of bytes its items take. */
  predicate EncodesBlocks(keyed: bool, items: Schema, es: seq<(Bytes, Value)>, blocks: seq<Block>)
    decreases items, 3, blocks
  {
    if |blocks| == 0 then |es| == 0
    else
      var n := |blocks[0].entries|;
      && 0 < n <= |es|
      && EncodesCount(n, blocks[0])
      && EncodesEntries(keyed, items, es[..n], blocks[0].entries)
      && EncodesBlocks(keyed, items, es[n..], blocks[1..])
  }

  predicate EncodesCount(n: int, block: Block) {
    && n < TWO_63
    && (|| WritesLong(n, block.count)
        || (WritesLong(-n, block.count) && WritesIndex(|EntriesBytes(block.entries)|, block.size)))
  }

  predicate EncodesEntries(keyed: bool, items: Schema, es: seq<(Bytes, Value)>, entries: seq<Entry>)
    decreases items, 2, entries
  {
    |es| == |entries| &&
    (|es| == 0 || (EncodesEntry(keyed, items, es[0], entries[0])
      && EncodesEntries(keyed, items, es[1..], entries[1..])))
  }

  predicate EncodesEntry(keyed: bool, items: Schema, p: (Bytes, Value), e: Entry)
    decreases items, 1
  {
    && (if keyed then e.key.Key? && WritesBlob(p.0, MAX_STRING, e.key.blob) && ValidUtf8(p.0)
        else e.key.NoKey? && p.0 == [])
    && Encodes(items, p.1, e.coding)
  }

  // ------------------------------------------------------------------ allowed encodings fit, with their value

  lemma {:induction false} LittleIsNumber(b: Bytes)
    ensures LittleEndian(b) == NumberOf(256, b)
  {
    if |b| > 0 { LittleIsNumber(b[1..]); }
  }

  /** The bytes of a fixed-width number are its digits to base 256, the least significant
      first. */
  lemma LittleDigits(b: Bytes, n: nat)
    ensures LittleEndian(b) == n <==> HasDigits(n, 256, b)
  {
    hide HasDigits, LittleEndian, NumberOf;
    LittleIsNumber(b);
    NumberDigits(256, b);
    if HasDigits(n, 256, b) { DigitsNumber(n, 256, b); }
  }

  lemma {:induction false} GroupsAreNumber(gs: seq<Group>)
    ensures GroupValue(gs) == NumberOf(128, gs)
  {
    if |gs| > 0 { GroupsAreNumber(gs[1..]); }
  }

  /** The groups of a varint are its digits to base 128, the least significant first. */
  lemma GroupDigits(gs: seq<Group>, n: nat)
    ensures GroupValue(gs) == n <==> HasDigits(n, 128, gs)
  {
    hide HasDigits, GroupValue, NumberOf;
    GroupsAreNumber(gs);
    NumberDigits(128, gs);
    if HasDigits(n, 128, gs) { DigitsNumber(n, 128, gs); }
  }

  lemma LongWritten(i: int, gs: Varint)
    requires IsLong(i) && WritesLong(i, gs)
    ensures LongOf(gs) == i
  {
    hide HasDigits, GroupValue;
    GroupDigits(gs, ZigZag(i));
    assert ZigZag(i) < TWO_64;
  }

  /** At most ten bytes, all but the last with the top bit set, whose other bits are the
      digits of the zig-zag number: read as the integer. */
  lemma LongByBytes(i: int, b: Bytes, rest: Bytes)
    requires IsLong(i) && 0 < |b| <= 10 && b[|b| - 1] < 128 && forall k | 0 <= k < |b| - 1 :: b[k] >= 128
    requires ZigZag(i) < Power(128, |b|) && forall k: nat | k < |b| :: b[k] % 128 == Digit(ZigZag(i), 128, k)
    ensures ReadLong(b + rest) == Ok(i, rest)
  {
    hide ReadLong, LongOf, ZigZag, Digit, Power, VarintBytes;
    var gs: Varint := seq(|b|, k requires 0 <= k < |b| => b[k] % 128);
    LongWritten(i, gs);
    forall k: nat | k < |b| ensures VarintBytes(gs)[k] == b[k] {
      VarintLayout(gs, k);
    }
    assert VarintBytes(gs) == b;
    LongRead(gs, rest);
  }

  /** An `int` or an enum index that does not fit 32 bits wraps around. */
  lemma IntWraps(v: int)
    ensures IsInt(WrapInt(v)) && (v - WrapInt(v)) % TWO_32 == 0
  {
  }

  lemma {:induction false} EncodingFits(schema: Schema, v: Value, c: Coding)
    requires Encodes(schema, v, c)
    ensures Fits(schema, c) && ValueOf(schema, c) == v
    decreases schema, 0
  {
    hide LongOf, HasDigits, ValidUtf8, LittleEndian, FitsBlocks, EncodesBlocks, FitsFields, EncodesFields,
      BlocksValues, FieldValues;
    match schema {
      case Null =>
      case Boolean =>
      case Int => LongWritten(v.i, c.groups);
      case Long => LongWritten(v.l, c.groups);
      case Float => LittleDigits(c.raw, v.bits);
      case Double => LittleDigits(c.raw, v.bits);
      case Binary => LongWritten(|v.bytes|, c.blob.len);
      case String => LongWritten(|v.utf8|, c.blob.len);
      case Record(fields) => FieldsFit(fields, v.fields, c.parts);
      case Enum => LongWritten(v.i, c.groups);
      case Array(items) =>
        LongWritten(0, c.end);
        BlocksFit(false, items, Unkeyed(v.elements), c.blocks);
        assert Seconds(Unkeyed(v.elements)) == v.elements;
      case Map(values) =>
        LongWritten(0, c.end);
        BlocksFit(true, values, v.entries, c.blocks);
      case Union(variants) =>
        var i :| 0 <= i < |variants| && WritesIndex(i, c.index) && Encodes(variants[i], v, c.chosen);
        LongWritten(i, c.index);
        EncodingFits(variants[i], v, c.chosen);
      case Fixed(size) =>
    }
  }

  lemma {:induction false} FieldsFit(fields: seq<Field>, vs: seq<(string, Value)>, parts: seq<Coding>)
    requires EncodesFields(fields, vs, parts)
    ensures FitsFields(fields, parts) && FieldValues(fields, parts) == vs
    decreases fields, 0
  {
    hide Fits, Encodes, ValueOf;
    if |fields| > 0 {
      EncodingFits(fields[0].schema, vs[0].1, parts[0]);
      FieldsFit(fields[1..], vs[1..], parts[1..]);
    }
  }

  lemma {:induction false} BlocksFit(keyed: bool, items: Schema, es: seq<(Bytes, Value)>, blocks: seq<Block>)
    requires EncodesBlocks(keyed, items, es, blocks)
    ensures FitsBlocks(keyed, items, blocks) && BlocksValues(keyed, items, blocks) == es
    decreases items, 3, blocks
  {
    hide LongOf, HasDigits, FitsEntries, EncodesEntries, EntriesValues, EntriesBytes;
    if |blocks| > 0 {
      var n := |blocks[0].entries|;
      if WritesLong(n, blocks[0].count) {
        LongWritten(n, blocks[0].count);
      } else {
        LongWritten(-n, blocks[0].count);
      }
      EntriesFit(keyed, items, es[..n], blocks[0].entries);
      BlocksFit(keyed, items, es[n..], blocks[1..]);
    }
  }

  lemma {:induction false} EntriesFit(keyed: bool, items: Schema, es: seq<(Bytes, Value)>, entries: seq<Entry>)
    requires EncodesEntries(keyed, items, es, entries)
    ensures FitsEntries(keyed, items, entries) && EntriesValues(keyed, items, entries) == es
    decreases items, 2, entries
  {
    hide Fits, Encodes, ValueOf, LongOf, HasDigits, ValidUtf8;
    if |entries| > 0 {
      if keyed { LongWritten(|es[0].0|, entries[0].key.blob.len); }
      EncodingFits(items, es[0].1, entries[0].coding);
      EntriesFit(keyed, items, es[1..], entries[1..]);
    }
  }

  /** Decoding undoes encoding, for every schema, value and allowed encoding. */
  lemma RoundTrip(schema: Schema, v: Value, c: Coding, rest: Bytes)
    requires Encodes(schema, v, c)
    ensures Decode(schema, BytesOf(c) + rest) == Ok(v, rest)
  {
    hide Encodes, Fits, ValueOf, Decode, BytesOf;
    EncodingFits(schema, v, c);
    CodingRead(schema, c, rest);
  }

  // ------------------------------------------------------------------ every value has an encoding

  function Groups(n: nat): (gs: seq<Group>)
    ensures |gs| > 0 && GroupValue(gs) == n
  {
    if n < 128 then [n] else [n % 128] + Groups(n / 128)
  }

  lemma GroupsShort(n: nat, k: nat, bound: nat)
    requires 0 < k <= 10 && n < bound && bound == Power(128, k)
    ensures |Groups(n)| <= k
    decreases k
  {
    if n >= 128 {
      GroupsShort(n / 128, k - 1, Power(128, k - 1));
    }
  }

  lemma WriteLong(i: int) returns (gs: Varint)
    requires IsLong(i)
    ensures WritesLong(i, gs)
  {
    var z := ZigZag(i);
    assert Power(128, 10) == 128 * 128 * 128 * 128 * 128 * 128 * 128 * 128 * 128 * 128 by {
      assert Power(128, 8) == 128 * 128 * 128 * 128 * 128 * 128 * 128 * 128 by {
        assert Power(128, 6) == 128 * 128 * 128 * 128 * 128 * 128 by {
          assert Power(128, 4) == 128 * 128 * 128 * 128;
        }
      }
    }
    GroupsShort(z, 10, Power(128, 10));
    gs := Groups(z);
    GroupDigits(gs, z);
  }

  function LittleBytes(n: nat, k: nat): (b: Bytes)
    requires n < Power(256, k)
    ensures |b| == k && LittleEndian(b) == n
    decreases k
  {
    if k == 0 then []
    else
      var b: Byte := n % 256;
      var more := LittleBytes(n / 256, k - 1);
      assert ([b] + more)[1..] == more;
      [b] + more
  }

  lemma {:induction false} LittleBound(b: Bytes)
    ensures LittleEndian(b) < Power(256, |b|)
  {
    if |b| > 0 { LittleBound(b[1..]); }
  }

  lemma WriteBlob(s: Bytes, limit: int) returns (blob: Blob)
    requires |s| <= limit < TWO_63
    ensures WritesBlob(s, limit, blob)
  {
    var gs := WriteLong(|s|);
    blob := Blob(gs, s);
  }

  /** Variants of a union are indexed by 64-bit integers. */
  predicate Indexable(schema: Schema)
    decreases schema, 0
  {
    match schema
    case Record(fields) => forall i | 0 <= i < |fields| :: Indexable(fields[i].schema)
    case Array(items) => Indexable(items)
    case Map(values) => Indexable(values)
    case Union(variants) => |variants| < TWO_63 && forall i | 0 <= i < |variants| :: Indexable(variants[i])
    case _ => true
  }

  /** Every value of the schema's type has an encoding. */
  lemma {:induction false} Encodable(schema: Schema, v: Value) returns (c: Coding)
    requires Indexable(schema) && Conforms(schema, v)
    ensures Encodes(schema, v, c)
    decreases schema, 0
  {
    hide HasDigits, ValidUtf8, LittleEndian, EncodesBlocks, EncodesFields, ConformsFields, ZigZag, LittleBytes;
    match schema {
      case Null => c := CNull;
      case Boolean => c := CByte(if v.b then 1 else 0);
      case Int => var gs := WriteLong(v.i); c := CLong(gs);
      case Long => var gs := WriteLong(v.l); c := CLong(gs);
      case Float => PowerOf256(); c := CRaw(LittleBytes(v.bits, 4)); LittleDigits(c.raw, v.bits);
      case Double => PowerOf256(); c := CRaw(LittleBytes(v.bits, 8)); LittleDigits(c.raw, v.bits);
      case Binary => var blob := WriteBlob(v.bytes, MAX_BYTES); c := CBlob(blob);
      case String => var blob := WriteBlob(v.utf8, MAX_STRING); c := CBlob(blob);
      case Record(fields) => var parts := EncodableFields(fields, v.fields); c := CRecord(parts);
      case Enum => var gs := WriteLong(v.i); c := CLong(gs);
      case Array(items) =>
        var blocks := EncodableBlocks(false, items, Unkeyed(v.elements));
        var end := WriteLong(0);
        c := CBlocks(blocks, end);
      case Map(values) =>
        var blocks := EncodableBlocks(true, values, v.entries);
        var end := WriteLong(0);
        c := CBlocks(blocks, end);
      case Union(variants) =>
        var i :| 0 <= i < |variants| && Conforms(variants[i], v);
        var index := WriteLong(i);
        var chosen := Encodable(variants[i], v);
        c := CUnion(index, chosen);
        assert WritesIndex(i, c.index);
      case Fixed(size) => c := CRaw(v.bytes);
    }
  }

  lemma PowerOf256()
    ensures Power(256, 4) == TWO_32 && Power(256, 8) == TWO_64
  {
    assert Power(256, 4) == 256 * 256 * 256 * 256;
    assert Power(256, 6) == 256 * 256 * Power(256, 4);
    assert Power(256, 8) == 256 * 256 * Power(256, 6);
  }

  lemma {:induction false} EncodableFields(fields: seq<Field>, vs: seq<(string, Value)>) returns (parts: seq<Coding>)
    requires (forall i | 0 <= i < |fields| :: Indexable(fields[i].schema)) && ConformsFields(fields, vs)
    ensures EncodesFields(fields, vs, parts)
    decreases fields, 0
  {
    hide Conforms, Encodes, Indexable;
    if |fields| == 0 {
      parts := [];
    } else {
      var first := Encodable(fields[0].schema, vs[0].1);
      var others := EncodableFields(fields[1..], vs[1..]);
      parts := [first] + others;
      assert parts[1..] == others;
    }
  }

  predicate ConformsEntry(keyed: bool, items: Schema, p: (Bytes, Value)) {
    (if keyed then IsKey(p.0) else p.0 == []) && Conforms(items, p.1)
  }

  /** One block an item, so that no number of items is too many for a count. */
  lemma {:induction false} EncodableBlocks(keyed: bool, items: Schema, es: seq<(Bytes, Value)>)
      returns (blocks: seq<Block>)
    requires Indexable(items) && forall i | 0 <= i < |es| :: ConformsEntry(keyed, items, es[i])
    ensures EncodesBlocks(keyed, items, es, blocks)
    decreases items, 1, es
  {
    hide Conforms, Encodes, Indexable, HasDigits, ValidUtf8, ZigZag, EntriesBytes;
    if |es| == 0 {
      blocks := [];
    } else {
      var one := WriteLong(1);
      var c := Encodable(items, es[0].1);
      var key := NoKey;
      if keyed {
        var blob := WriteBlob(es[0].0, MAX_STRING);
        key := Key(blob);
      }
      var first := Block(one, one, [Entry(key, c)]);
      var others := EncodableBlocks(keyed, items, es[1..]);
      blocks := [first] + others;
      assert blocks[1..] == others;
      assert EncodesEntries(keyed, items, es[..1], first.entries);
    }
  }

  // ------------------------------------------------------------------ decoded values are of the schema's type

  lemma {:induction false} CodingConforms(schema: Schema, c: Coding)
    requires Fits(schema, c)
    ensures Conforms(schema, ValueOf(schema, c))
    decreases schema, 0
  {
    hide LongOf, ValidUtf8, LittleEndian, FitsFields, FieldValues, ConformsFields, FitsBlocks, BlocksValues;
    match schema {
      case Float => LittleBound(c.raw); PowerOf256();
      case Double => LittleBound(c.raw); PowerOf256();
      case Record(fields) => FieldsConform(fields, c.parts);
      case Array(items) =>
        BlocksConform(false, items, c.blocks);
        var es := BlocksValues(false, items, c.blocks);
        forall i | 0 <= i < |es| ensures Conforms(items, Seconds(es)[i]) {
          assert es[i] in es;
        }
      case Map(values) =>
        BlocksConform(true, values, c.blocks);
        var es := BlocksValues(true, values, c.blocks);
        forall i | 0 <= i < |es| ensures ConformsEntry(true, values, es[i]) {
          assert es[i] in es;
        }
      case Union(variants) => CodingConforms(variants[LongOf(c.index)], c.chosen);
      case _ =>
    }
  }

  lemma {:induction false} FieldsConform(fields: seq<Field>, parts: seq<Coding>)
    requires FitsFields(fields, parts)
    ensures ConformsFields(fields, FieldValues(fields, parts))
    decreases fields, 0
  {
    hide Fits, ValueOf, Conforms;
    if |fields| > 0 {
      CodingConforms(fields[0].schema, parts[0]);
      FieldsConform(fields[1..], parts[1..]);
      assert FieldValues(fields, parts)[1..] == FieldValues(fields[1..], parts[1..]);
    }
  }

  lemma {:induction false} BlocksConform(keyed: bool, items: Schema, blocks: seq<Block>)
    requires FitsBlocks(keyed, items, blocks)
    ensures forall p <- BlocksValues(keyed, items, blocks) :: ConformsEntry(keyed, items, p)
    decreases items, 3, blocks
  {
    hide ConformsEntry, FitsEntries, EntriesValues, LongOf;
    if |blocks| > 0 {
      EntriesConform(keyed, items, blocks[0].entries);
      BlocksConform(keyed, items, blocks[1..]);
    }
  }

  lemma {:induction false} EntriesConform(keyed: bool, items: Schema, entries: seq<Entry>)
    requires FitsEntries(keyed, items, entries)
    ensures forall p <- EntriesValues(keyed, items, entries) :: ConformsEntry(keyed, items, p)
    decreases items, 2, entries
  {
    hide Fits, ValueOf, Conforms, LongOf, ValidUtf8;
    if |entries| > 0 {
      CodingConforms(items, entries[0].coding);
      EntriesConform(keyed, items, entries[1..]);
    }
  }

  /** The decodable values are exactly the values of the schema's type. */
  lemma DecodableValues(schema: Schema, v: Value)
    requires Indexable(schema)
    ensures Conforms(schema, v) <==> exists b :: Decode(schema, b) == Ok(v, [])
  {
    hide Encodes, Fits, ValueOf, Decode, BytesOf, Conforms, Indexable;
    if Conforms(schema, v) {
      var c := Encodable(schema, v);
      RoundTrip(schema, v, c, []);
      assert Decode(schema, BytesOf(c) + []) == Ok(v, []);
    }
    if b :| Decode(schema, b) == Ok(v, []) {
      var c := CodingFound(schema, b);
      CodingConforms(schema, c);
    }
  }
}
