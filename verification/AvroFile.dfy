/** Avro object-container files: magic, metadata, sync marker, then blocks of records. */
module AvroFile {
  import opened Graphs
  import opened Avro
  import opened AvroCodings
  import opened AvroSpec

  const MAGIC: Bytes := [0x4F, 0x62, 0x6A, 1]
  /** "avro.schema", "avro.codec", "null" and "deflate" in ASCII. */
  const SCHEMA_KEY: Bytes := [0x61, 0x76, 0x72, 0x6F, 0x2E, 0x73, 0x63, 0x68, 0x65, 0x6D, 0x61]
  const CODEC_KEY: Bytes := [0x61, 0x76, 0x72, 0x6F, 0x2E, 0x63, 0x6F, 0x64, 0x65, 0x63]
  const NULL_CODEC: Bytes := [0x6E, 0x75, 0x6C, 0x6C]
  const DEFLATE_CODEC: Bytes := [0x64, 0x65, 0x66, 0x6C, 0x61, 0x74, 0x65]
  const SYNC_SIZE: nat := 16

  /** `parse_schema` and the inflater are outside this model: any functions. */
  datatype Parts = Parts(parse: Bytes -> Option<Schema>, inflate: Bytes -> Option<Bytes>)

  /** The last entry of a key counts, as when entries are inserted into a map in order. */
  function Lookup(es: seq<(Bytes, Value)>, key: Bytes): Option<Value> {
    if |es| == 0 then None
    else if es[|es| - 1].0 == key then Some(es[|es| - 1].1)
    else Lookup(es[..|es| - 1], key)
  }

  /** By position: the last entry of the key is the one that counts. */
  lemma {:induction false} LookupLast(es: seq<(Bytes, Value)>, key: Bytes, i: nat)
    requires i < |es| && es[i].0 == key && forall j | i < j < |es| :: es[j].0 != key
    ensures Lookup(es, key) == Some(es[i].1)
    decreases |es|
  {
    if i < |es| - 1 { LookupLast(es[..|es| - 1], key, i); }
  }

  lemma {:induction false} LookupNone(es: seq<(Bytes, Value)>, key: Bytes)
    requires forall j | 0 <= j < |es| :: es[j].0 != key
    ensures Lookup(es, key) == None
  {
    if |es| > 0 { LookupNone(es[..|es| - 1], key); }
  }

  function Text(v: Option<Value>): Option<Bytes> {
    if v.Some? && v.value.VBytes? && ValidUtf8(v.value.bytes) then Some(v.value.bytes) else None
  }

  function Unpack(parts: Parts, codec: Bytes, stored: Bytes): Option<Bytes> {
    if codec == NULL_CODEC then Some(stored)
    else if codec == DEFLATE_CODEC then parts.inflate(stored)
    else None
  }

  datatype Step = End | Failure | Block(records: seq<Value>, rest: Bytes)

  /** One round of the loop over blocks. */
  function NextBlock(parts: Parts, schema: Schema, codec: Bytes, sync: Bytes, b: Bytes): (s: Step)
    ensures s.Block? ==> |s.rest| < |b|
  {
    match ReadLong(b)
    case Err(e) => if e == UnexpectedEof then End else Failure
    case Ok(count, b1) =>
      match ReadLong(b1)
      case Err(_) => Failure
      case Ok(size, b2) =>
        if size < 0 then Failure
        else
          match ReadExact(b2, size)
          case Err(_) => Failure
          case Ok(stored, b3) =>
            match ReadExact(b3, SYNC_SIZE)
            case Err(_) => Failure
            case Ok(mark, b4) =>
              if mark != sync then Failure
              else
                match Records(parts, schema, codec, count, stored)
                case None => Failure
                case Some(records) => Step.Block(records, b4)
  }

  function ReadBlocks(parts: Parts, schema: Schema, codec: Bytes, sync: Bytes, b: Bytes): Option<seq<Value>>
    decreases |b|
  {
    match NextBlock(parts, schema, codec, sync, b)
    case End => Some([])
    case Failure => None
    case Block(records, rest) =>
      match ReadBlocks(parts, schema, codec, sync, rest)
      case None => None
      case Some(more) => Some(records + more)
  }

  /** The records of one block; what follows them in the block is ignored. */
  function Records(parts: Parts, schema: Schema, codec: Bytes, count: int, stored: Bytes): Option<seq<Value>> {
    match Unpack(parts, codec, stored)
    case None => None
    case Some(data) =>
      match DecodeItems(false, schema, if count < 0 then 0 else count, data)
      case Err(_) => None
      case Ok(es, _) => Some(Seconds(es))
  }

  datatype Header = Header(schema: Schema, codec: Bytes, sync: Bytes)

  function ReadHeader(parts: Parts, b: Bytes): Option<(Header, Bytes)> {
    if !(MAGIC <= b) then None
    else
      match DecodeBlocks(true, Binary, b[|MAGIC|..])
      case Err(_) => None
      case Ok(meta, b1) =>
        var json := Text(Lookup(meta, SCHEMA_KEY));
        var codec := Text(Lookup(meta, CODEC_KEY));
        if json.None? then None
        else
          var schema := parts.parse(json.value);
          if schema.None? then None
          else
            match ReadExact(b1, SYNC_SIZE)
            case Err(_) => None
            case Ok(sync, b2) =>
              Some((Header(schema.value, if codec.Some? then codec.value else NULL_CODEC, sync), b2))
  }

  function ReadFile(parts: Parts, b: Bytes): Option<seq<Value>> {
    match ReadHeader(parts, b)
    case None => None
    case Some((h, rest)) => ReadBlocks(parts, h.schema, h.codec, h.sync, rest)
  }

  // ------------------------------------------------------------------ what a container holds

  datatype FileBlock = FileBlock(count: Varint, size: Varint, stored: Bytes, entries: seq<Entry>, spare: Bytes)

  function FileBlockBytes(k: FileBlock, sync: Bytes): Bytes {
    VarintBytes(k.count) + (VarintBytes(k.size) + (k.stored + sync))
  }

  function FileBytes(ks: seq<FileBlock>, sync: Bytes): Bytes {
    if |ks| == 0 then [] else FileBlockBytes(ks[0], sync) + FileBytes(ks[1..], sync)
  }

  predicate FitsFileBlock(parts: Parts, schema: Schema, codec: Bytes, k: FileBlock) {
    && LongOf(k.size) == |k.stored|
    && Unpack(parts, codec, k.stored) == Some(EntriesBytes(k.entries) + k.spare)
    && |k.entries| == (if LongOf(k.count) < 0 then 0 else LongOf(k.count))
    && FitsEntries(false, schema, k.entries)
  }

  predicate FitsFile(parts: Parts, schema: Schema, codec: Bytes, ks: seq<FileBlock>) {
    |ks| == 0 || (FitsFileBlock(parts, schema, codec, ks[0]) && FitsFile(parts, schema, codec, ks[1..]))
  }

  function FileValues(parts: Parts, schema: Schema, codec: Bytes, ks: seq<FileBlock>): seq<Value>
    requires FitsFile(parts, schema, codec, ks)
  {
    if |ks| == 0 then []
    else Seconds(EntriesValues(false, schema, ks[0].entries)) + FileValues(parts, schema, codec, ks[1..])
  }

  /** Where the loop over blocks stops without an error: at most nine bytes that
      all announce a further byte of a count. */
  predicate Ends(tail: Bytes) {
    |tail| < 10 && Announcing(tail)
  }

  predicate Announcing(tail: Bytes) {
    forall i | 0 <= i < |tail| :: tail[i] >= 128
  }

  lemma AnnouncingNext(tail: Bytes)
    requires |tail| > 0
    ensures Announcing(tail) <==> tail[0] >= 128 && Announcing(tail[1..])
  {
    assert tail == [tail[0]] + tail[1..];
  }

  lemma {:induction false} EndOfGroups(tail: Bytes, k: nat)
    requires k < 10
    ensures ReadGroups(tail, k) == Err(UnexpectedEof) <==> k + |tail| < 10 && Announcing(tail)
    decreases 10 - k
  {
    if |tail| > 0 {
      AnnouncingNext(tail);
      hide Announcing;
      if k < 9 { EndOfGroups(tail[1..], k + 1); }
    }
  }

  lemma EndOfBlocks(tail: Bytes)
    ensures ReadLong(tail) == Err(UnexpectedEof) <==> Ends(tail)
  {
    EndOfGroups(tail, 0);
  }

  /** Under a codec that is neither `null` nor `deflate` no block is read; the end of the
      blocks is still found. */
  lemma UnknownCodec(parts: Parts, schema: Schema, codec: Bytes, sync: Bytes, b: Bytes)
    requires codec != NULL_CODEC && codec != DEFLATE_CODEC
    ensures ReadBlocks(parts, schema, codec, sync, b) == if Ends(b) then Some([]) else None
  {
    hide ReadLong, ReadExact;
    EndOfBlocks(b);
  }

  lemma BlockRecords(parts: Parts, schema: Schema, codec: Bytes, k: FileBlock)
    requires FitsFileBlock(parts, schema, codec, k)
    ensures Records(parts, schema, codec, LongOf(k.count), k.stored)
      == Some(Seconds(EntriesValues(false, schema, k.entries)))
  {
    hide LongOf, FitsEntries, EntriesValues, DecodeItems, EntriesBytes, Unpack;
    EntriesRead(false, schema, k.entries, k.spare);
  }

  lemma BlockFraming(k: FileBlock, sync: Bytes, more: Bytes)
    requires |sync| == SYNC_SIZE && LongOf(k.size) == |k.stored|
    ensures var b := FileBlockBytes(k, sync) + more;
            var b1 := VarintBytes(k.size) + (k.stored + (sync + more));
            && ReadLong(b) == Ok(LongOf(k.count), b1)
            && ReadLong(b1) == Ok(|k.stored|, k.stored + (sync + more))
            && ReadExact(k.stored + (sync + more), |k.stored|) == Ok(k.stored, sync + more)
            && ReadExact(sync + more, SYNC_SIZE) == Ok(sync, more)
  {
    hide LongOf, ReadLong, VarintBytes, ReadExact;
    var b2 := k.stored + (sync + more);
    LongRead(k.count, VarintBytes(k.size) + b2);
    LongRead(k.size, b2);
    ExactRead(k.stored, sync + more);
    ExactRead(sync, more);
    assert FileBlockBytes(k, sync) + more == VarintBytes(k.count) + (VarintBytes(k.size) + b2);
  }

  lemma {:induction false} FileRead(parts: Parts, schema: Schema, codec: Bytes, sync: Bytes, ks: seq<FileBlock>,
                                    tail: Bytes)
    requires |sync| == SYNC_SIZE && FitsFile(parts, schema, codec, ks) && Ends(tail)
    ensures ReadBlocks(parts, schema, codec, sync, FileBytes(ks, sync) + tail)
      == Some(FileValues(parts, schema, codec, ks))
    decreases |ks|
  {
    hide LongOf, ReadLong, Ends, VarintBytes, ReadExact, FitsFileBlock, Records, EntriesValues, FileBlockBytes, Seconds;
    if |ks| == 0 {
      assert FileBytes(ks, sync) + tail == tail;
      EndOfBlocks(tail);
    } else {
      var more := FileBytes(ks[1..], sync) + tail;
      assert FileBytes(ks, sync) + tail == FileBlockBytes(ks[0], sync) + more;
      FitsSize(parts, schema, codec, ks[0]);
      BlockFraming(ks[0], sync, more);
      BlockRecords(parts, schema, codec, ks[0]);
      FileRead(parts, schema, codec, sync, ks[1..], tail);
    }
  }

  lemma FitsSize(parts: Parts, schema: Schema, codec: Bytes, k: FileBlock)
    requires FitsFileBlock(parts, schema, codec, k)
    ensures LongOf(k.size) == |k.stored| && FitsEntries(false, schema, k.entries)
  {
  }

  lemma {:induction false} FileFound(parts: Parts, schema: Schema, codec: Bytes, sync: Bytes, b: Bytes)
    returns (ks: seq<FileBlock>, tail: Bytes)
    requires |sync| == SYNC_SIZE && ReadBlocks(parts, schema, codec, sync, b).Some?
    ensures FitsFile(parts, schema, codec, ks) && Ends(tail) && b == FileBytes(ks, sync) + tail
    ensures ReadBlocks(parts, schema, codec, sync, b).value == FileValues(parts, schema, codec, ks)
    decreases |b|
  {
    hide LongOf, ReadLong, Ends, VarintBytes, ReadExact, FitsFileBlock, Records, EntriesValues, FileBlockBytes, Seconds;
    if ReadLong(b).Err? {
      EndOfBlocks(b);
      ks, tail := [], b;
      assert FileBytes(ks, sync) + tail == tail;
    } else {
      var count := LongFound(b);
      var b1 := ReadLong(b).rest;
      var size := LongFound(b1);
      var b2 := ReadLong(b1).rest;
      var stored := ReadExact(b2, LongOf(size)).value;
      var b3 := ReadExact(b2, LongOf(size)).rest;
      var b4 := ReadExact(b3, SYNC_SIZE).rest;
      var first := BlockFound(parts, schema, codec, count, size, stored);
      var others;
      others, tail := FileFound(parts, schema, codec, sync, b4);
      ks := [first] + others;
      assert ks[1..] == others;
      FramingFound(first, sync, b, b1, b2, b3, b4);
      assert FileBytes(ks, sync) + tail == FileBlockBytes(first, sync) + (FileBytes(others, sync) + tail);
    }
  }

  lemma FramingFound(k: FileBlock, sync: Bytes, b: Bytes, b1: Bytes, b2: Bytes, b3: Bytes, b4: Bytes)
    requires b == VarintBytes(k.count) + b1 && b1 == VarintBytes(k.size) + b2 && b2 == k.stored + b3 && b3 == sync + b4
    ensures b == FileBlockBytes(k, sync) + b4
  {
  }

  lemma BlockFound(parts: Parts, schema: Schema, codec: Bytes, count: Varint, size: Varint, stored: Bytes)
      returns (k: FileBlock)
    requires LongOf(size) == |stored| && Records(parts, schema, codec, LongOf(count), stored).Some?
    ensures k.count == count && k.size == size && k.stored == stored && FitsFileBlock(parts, schema, codec, k)
    ensures Records(parts, schema, codec, LongOf(count), stored).value
      == Seconds(EntriesValues(false, schema, k.entries))
  {
    hide LongOf, Unpack, DecodeItems, FitsEntries, EntriesValues, EntriesBytes, Seconds;
    var data := Unpack(parts, codec, stored).value;
    var n := if LongOf(count) < 0 then 0 else LongOf(count);
    var es := EntriesFound(false, schema, n, data);
    k := FileBlock(count, size, stored, es, DecodeItems(false, schema, n, data).rest);
  }

  ghost predicate FileHolds(parts: Parts, schema: Schema, codec: Bytes, sync: Bytes, b: Bytes, vs: seq<Value>,
                            ks: seq<FileBlock>, tail: Bytes)
  {
    && FitsFile(parts, schema, codec, ks) && Ends(tail)
    && b == FileBytes(ks, sync) + tail && vs == FileValues(parts, schema, codec, ks)
  }

  /** The container loop succeeds on exactly the sequences of well-framed blocks, and
      returns the records of all of them in order. */
  lemma FileExactly(parts: Parts, schema: Schema, codec: Bytes, sync: Bytes, b: Bytes, vs: seq<Value>)
    requires |sync| == SYNC_SIZE
    ensures ReadBlocks(parts, schema, codec, sync, b) == Some(vs) <==>
            exists ks, tail :: FileHolds(parts, schema, codec, sync, b, vs, ks, tail)
  {
    hide ReadBlocks, FitsFile, Ends, FileBytes, FileValues;
    if ReadBlocks(parts, schema, codec, sync, b) == Some(vs) {
      var ks, tail := FileFound(parts, schema, codec, sync, b);
      assert FileHolds(parts, schema, codec, sync, b, vs, ks, tail);
    }
    if ks, tail :| FileHolds(parts, schema, codec, sync, b, vs, ks, tail) {
      FileRead(parts, schema, codec, sync, ks, tail);
    }
  }

  /** A block that holds the values `vs`, written as the specification says. */
  predicate WritesBlock(parts: Parts, schema: Schema, codec: Bytes, vs: seq<Value>, k: FileBlock) {
    && WritesIndex(|vs|, k.count)
    && WritesIndex(|k.stored|, k.size)
    && Unpack(parts, codec, k.stored) == Some(EntriesBytes(k.entries) + k.spare) && k.spare == []
    && EncodesEntries(false, schema, Unkeyed(vs), k.entries)
  }

  predicate WritesFile(parts: Parts, schema: Schema, codec: Bytes, vs: seq<Value>, cut: seq<nat>, ks: seq<FileBlock>) {
    |cut| == |ks| &&
    (if |ks| == 0 then |vs| == 0
     else
       && cut[0] <= |vs| && WritesBlock(parts, schema, codec, vs[..cut[0]], ks[0])
       && WritesFile(parts, schema, codec, vs[cut[0]..], cut[1..], ks[1..]))
  }

  lemma BlockWritten(parts: Parts, schema: Schema, codec: Bytes, vs: seq<Value>, k: FileBlock)
    requires WritesBlock(parts, schema, codec, vs, k)
    ensures FitsFileBlock(parts, schema, codec, k) && FitsEntries(false, schema, k.entries)
    ensures Seconds(EntriesValues(false, schema, k.entries)) == vs
  {
    hide LongOf, Unpack, EncodesEntries, FitsEntries, EntriesValues, EntriesBytes, WritesLong;
    LongWritten(|vs|, k.count);
    LongWritten(|k.stored|, k.size);
    EntriesFit(false, schema, Unkeyed(vs), k.entries);
    EntriesCount(schema, Unkeyed(vs), k.entries);
  }

  lemma EntriesCount(schema: Schema, es: seq<(Bytes, Value)>, entries: seq<Entry>)
    requires EncodesEntries(false, schema, es, entries)
    ensures |es| == |entries|
  {
  }

  lemma {:induction false} FileWritten(parts: Parts, schema: Schema, codec: Bytes, vs: seq<Value>, cut: seq<nat>,
                                       ks: seq<FileBlock>)
    requires WritesFile(parts, schema, codec, vs, cut, ks)
    ensures FitsFile(parts, schema, codec, ks) && FileValues(parts, schema, codec, ks) == vs
    decreases |ks|
  {
    hide WritesBlock, FitsFileBlock, FitsEntries, EntriesValues, Seconds;
    if |ks| > 0 {
      BlockWritten(parts, schema, codec, vs[..cut[0]], ks[0]);
      FileWritten(parts, schema, codec, vs[cut[0]..], cut[1..], ks[1..]);
    }
  }

  /** The metadata `meta` names the schema and the codec. */
  predicate Describes(parts: Parts, meta: Coding, schema: Schema, codec: Bytes) {
    && Fits(Map(Binary), meta)
    && var es := BlocksValues(true, Binary, meta.blocks);
       var json := Text(Lookup(es, SCHEMA_KEY));
       var name := Text(Lookup(es, CODEC_KEY));
       && json.Some? && parts.parse(json.value) == Some(schema)
       && codec == (if name.Some? then name.value else NULL_CODEC)
  }

  lemma HeaderWritten(parts: Parts, meta: Coding, schema: Schema, codec: Bytes, sync: Bytes, rest: Bytes)
    requires Describes(parts, meta, schema, codec) && |sync| == SYNC_SIZE
    ensures ReadHeader(parts, MAGIC + (BytesOf(meta) + (sync + rest))) == Some((Header(schema, codec, sync), rest))
  {
    hide DecodeBlocks, Text, Lookup, BytesOf, LongOf, FitsBlocks, BlocksValues, ReadExact;
    var b := MAGIC + (BytesOf(meta) + (sync + rest));
    assert b[|MAGIC|..] == BytesOf(meta) + (sync + rest);
    ArrayRead(true, Binary, meta, sync + rest);
    ExactRead(sync, rest);
  }

  /** Reading a container gives back the records written to it, however they were
      cut into blocks. */
  lemma FileRoundTrip(parts: Parts, meta: Coding, schema: Schema, codec: Bytes, sync: Bytes,
                      vs: seq<Value>, cut: seq<nat>, ks: seq<FileBlock>)
    requires Describes(parts, meta, schema, codec) && |sync| == SYNC_SIZE
    requires WritesFile(parts, schema, codec, vs, cut, ks)
    ensures ReadFile(parts, MAGIC + (BytesOf(meta) + (sync + FileBytes(ks, sync)))) == Some(vs)
  {
    hide Describes, WritesFile, ReadHeader, ReadBlocks, BytesOf, FileBytes, FitsFile, FileValues;
    HeaderWritten(parts, meta, schema, codec, sync, FileBytes(ks, sync));
    FileWritten(parts, schema, codec, vs, cut, ks);
    FileRead(parts, schema, codec, sync, ks, []);
    assert FileBytes(ks, sync) + [] == FileBytes(ks, sync);
  }
}
