/** The decoder as the source runs it: a cursor that every read moves, and loops
    over groups, fields, blocks and items.  Each method does what the function of
    the same meaning in module `Avro` says. */
module AvroReader {
  import opened Graphs
  import opened Avro
  import opened Numbers
  import opened AvroFile

  datatype Result<+T> = Good(value: T) | Bad(error: Error)

  ghost predicate Agrees<T>(r: Result<T>, rest: Bytes, spec: Read<T>) {
    match spec
    case Ok(v, left) => r == Good(v) && rest == left
    case Err(e) => r == Bad(e)
  }

  /** What remains to be shown of a decoding after the items `out`. */
  ghost function After<T>(out: seq<T>, spec: Read<seq<T>>): Read<seq<T>> {
    match spec
    case Ok(more, rest) => Ok(out + more, rest)
    case Err(e) => Err(e)
  }

  lemma AfterNothing<T>(spec: Read<seq<T>>)
    ensures After([], spec) == spec
  {
    if spec.Ok? { assert [] + spec.value == spec.value; }
  }

  lemma AfterAll<T>(out: seq<T>, rest: Bytes)
    ensures After(out, Ok([], rest)) == Ok(out, rest)
  {
    assert out + [] == out;
  }

  lemma AfterTwo<T>(out: seq<T>, es: seq<T>, spec: Read<seq<T>>)
    ensures After(out, After(es, spec)) == After(out + es, spec)
  {
    if spec.Ok? { assert out + (es + spec.value) == (out + es) + spec.value; }
  }

  ghost function Shifted(acc: nat, weight: nat, spec: Read<nat>): Read<nat> {
    match spec
    case Ok(v, rest) => Ok(acc + weight * v, rest)
    case Err(e) => Err(e)
  }

  /** `1 << shift` for the shifts of a varint. */
  function Weight(k: nat): (w: nat)
    ensures w > 0
  {
    if k == 0 then 1 else 128 * Weight(k - 1)
  }

  lemma Weight9()
    ensures Weight(9) == TWO_63
  {
    assert Weight(3) == 128 * 128 * 128;
    assert Weight(6) == Weight(3) * 128 * 128 * 128;
    assert Weight(9) == Weight(6) * 128 * 128 * 128;
  }

  lemma {:induction false} WeightMono(k: nat, m: nat)
    requires k <= m
    ensures Weight(k) <= Weight(m)
    decreases m
  {
    if k < m { WeightMono(k, m - 1); }
  }

  /** Or-ing a group into the accumulator, in 64 bits.  The accumulator is below
      `weight`, so no bit is set twice and the or is a sum. */
  function OrGroup(acc: nat, group: nat, weight: nat): nat {
    acc + (group * weight) % TWO_64
  }

  lemma OrGroupExact(acc: nat, group: nat, k: nat)
    requires k < 9 && acc < Weight(k) && group < 128
    ensures OrGroup(acc, group, Weight(k)) == acc + group * Weight(k) < Weight(k + 1) <= TWO_63
  {
    Weight9();
    WeightMono(k + 1, 9);
    var w := Weight(k);
    hide Weight;
    assert group * w <= 127 * w;
  }

  lemma OrGroupLast(acc: nat, group: nat)
    requires acc < TWO_63 && group < 128
    ensures OrGroup(acc, group, TWO_63) == (acc + group * TWO_63) % TWO_64
  {
    if group % 2 == 0 {
      assert group * TWO_63 == (group / 2) * TWO_64;
    } else {
      assert group * TWO_63 == (group / 2) * TWO_64 + TWO_63;
    }
  }

  class Reader {
    const data: Bytes
    var pos: nat

    constructor (bytes: Bytes)
      ensures Valid() && Rest() == bytes
    {
      data := bytes;
      pos := 0;
    }

    ghost predicate Valid()
      reads this
    {
      pos <= |data|
    }

    ghost function Rest(): Bytes
      requires Valid()
      reads this
    {
      data[pos..]
    }

    method Exact(n: nat) returns (r: Result<Bytes>)
      requires Valid()
      modifies this
      ensures Valid() && Agrees(r, Rest(), ReadExact(old(Rest()), n))
    {
      if n <= |data| - pos {
        r := Good(data[pos..pos + n]);
        assert Rest()[..n] == data[pos..pos + n] && Rest()[n..] == data[pos + n..];
        pos := pos + n;
      } else {
        r := Bad(UnexpectedEof);
      }
    }

    method Long() returns (r: Result<int>)
      requires Valid()
      modifies this
      ensures Valid() && Agrees(r, Rest(), ReadLong(old(Rest())))
    {
      hide OrGroup, Weight, ZigZagDecode, ReadGroups, Shifted, ReadLong;
      ghost var start := Rest();
      var result := 0;
      var k, weight := 0, 1;
      WeightStart(ReadGroups(start, 0));
      while true
        invariant Valid() && k < 10 && weight == Weight(k) && result < weight
        invariant ReadGroups(start, 0) == Shifted(result, weight, ReadGroups(Rest(), k))
        decreases 10 - k
      {
        ghost var before := Rest();
        GroupsUnfold(before, k);
        if pos == |data| {
          LongFails(start, result, weight, UnexpectedEof);
          return Bad(UnexpectedEof);
        }
        var byte := data[pos];
        pos := pos + 1;
        assert Rest() == before[1..] && before[0] == byte;
        ghost var acc := result;
        result := OrGroup(result, byte % 128, weight);
        if byte < 128 {
          LongDone(start, acc, byte, k, Rest());
          return Good(ZigZagDecode(result));
        }
        if k == 9 {
          LongFails(start, acc, weight, InvalidData);
          return Bad(InvalidData);
        }
        GroupMore(acc, byte - 128, k, ReadGroups(Rest(), k + 1));
        k, weight := k + 1, weight * 128;
      }
    }

    method Blob(limit: int) returns (r: Result<Bytes>)
      requires Valid()
      modifies this
      ensures Valid() && Agrees(r, Rest(), ReadBlob(old(Rest()), limit))
    {
      hide ReadLong, ReadExact;
      var len := Long();
      if len.Bad? { return Bad(len.error); }
      if len.value < 0 || len.value > limit { return Bad(InvalidData); }
      r := Exact(len.value);
    }

    method Utf8() returns (r: Result<Bytes>)
      requires Valid()
      modifies this
      ensures Valid() && Agrees(r, Rest(), ReadString(old(Rest())))
    {
      hide ReadBlob, ValidUtf8;
      r := Blob(MAX_STRING);
      if r.Good? && !ValidUtf8(r.value) { r := Bad(InvalidData); }
    }

    method BlockCount() returns (r: Result<int>)
      requires Valid()
      modifies this
      ensures Valid() && Agrees(r, Rest(), ReadBlock(old(Rest())))
    {
      hide ReadLong;
      r := Long();
      if r.Bad? || r.value >= 0 { return; }
      var size := Long();
      if size.Bad? { return Bad(size.error); }
      r := Good(if r.value == -TWO_63 then r.value else -r.value);
    }

    method Value(schema: Schema) returns (r: Result<Value>)
      requires Valid()
      modifies this
      ensures Valid() && Agrees(r, Rest(), Decode(schema, old(Rest())))
      decreases schema, 0
    {
      hide ReadLong, ReadExact, ReadBlob, ReadString, DecodeFields, DecodeBlocks, LittleEndian;
      match schema {
        case Null => r := Good(VNull);
        case Boolean =>
          var s := Exact(1);
          r := if s.Bad? then Bad(s.error) else Good(VBoolean(s.value[0] != 0));
        case Int =>
          var v := Long();
          r := if v.Bad? then Bad(v.error) else Good(VInt(WrapInt(v.value)));
        case Long =>
          var v := Long();
          r := if v.Bad? then Bad(v.error) else Good(VLong(v.value));
        case Float =>
          var s := Exact(4);
          r := if s.Bad? then Bad(s.error) else Good(VFloat(LittleEndian(s.value)));
        case Double =>
          var s := Exact(8);
          r := if s.Bad? then Bad(s.error) else Good(VDouble(LittleEndian(s.value)));
        case Binary =>
          var s := Blob(MAX_BYTES);
          r := if s.Bad? then Bad(s.error) else Good(VBytes(s.value));
        case String =>
          var s := Utf8();
          r := if s.Bad? then Bad(s.error) else Good(VString(s.value));
        case Record(fields) =>
          var vs := Fields(fields);
          r := if vs.Bad? then Bad(vs.error) else Good(VRecord(vs.value));
        case Enum =>
          var v := Long();
          r := if v.Bad? then Bad(v.error) else Good(VInt(WrapInt(v.value)));
        case Array(items) =>
          var es := Blocks(false, items);
          r := if es.Bad? then Bad(es.error) else Good(VArray(Seconds(es.value)));
        case Map(values) =>
          var es := Blocks(true, values);
          r := if es.Bad? then Bad(es.error) else Good(VMap(es.value));
        case Union(variants) =>
          var i := Long();
          if i.Bad? {
            r := Bad(i.error);
          } else if 0 <= i.value < |variants| {
            r := Value(variants[i.value]);
          } else {
            r := Bad(InvalidData);
          }
        case Fixed(size) =>
          var s := Exact(size);
          r := if s.Bad? then Bad(s.error) else Good(VBytes(s.value));
      }
    }

    method Fields(fields: seq<Field>) returns (r: Result<seq<(string, Avro.Value)>>)
      requires Valid()
      modifies this
      ensures Valid() && Agrees(r, Rest(), DecodeFields(fields, old(Rest())))
      decreases fields, 0
    {
      hide Decode;
      ghost var start := Rest();
      var out := [];
      var i := 0;
      assert fields[0..] == fields;
      AfterNothing(DecodeFields(fields, start));
      while i < |fields|
        invariant Valid() && 0 <= i <= |fields|
        invariant DecodeFields(fields, start) == After(out, DecodeFields(fields[i..], Rest()))
      {
        var v := Value(fields[i].schema);
        if v.Bad? { return Bad(v.error); }
        assert fields[i..][1..] == fields[i + 1..];
        AfterTwo(out, [(fields[i].name, v.value)], DecodeFields(fields[i + 1..], Rest()));
        out := out + [(fields[i].name, v.value)];
        i := i + 1;
      }
      AfterAll(out, Rest());
      return Good(out);
    }

    method Blocks(keyed: bool, items: Schema) returns (r: Result<seq<(Bytes, Avro.Value)>>)
      requires Valid()
      modifies this
      ensures Valid() && Agrees(r, Rest(), DecodeBlocks(keyed, items, old(Rest())))
      decreases items, 3
    {
      hide DecodeItems, ReadBlock, DecodeBlocks;
      ghost var start := Rest();
      var out := [];
      AfterNothing(DecodeBlocks(keyed, items, start));
      while true
        invariant Valid()
        invariant DecodeBlocks(keyed, items, start) == After(out, DecodeBlocks(keyed, items, Rest()))
        decreases |Rest()|
      {
        BlocksUnfold(keyed, items, Rest());
        var count := BlockCount();
        if count.Bad? { return Bad(count.error); }
        if count.value == 0 { AfterAll(out, Rest()); return Good(out); }
        var es := Items(keyed, items, if count.value < 0 then 0 else count.value);
        if es.Bad? { return Bad(es.error); }
        AfterTwo(out, es.value, DecodeBlocks(keyed, items, Rest()));
        out := out + es.value;
      }
    }

    method Items(keyed: bool, items: Schema, count: nat) returns (r: Result<seq<(Bytes, Avro.Value)>>)
      requires Valid()
      modifies this
      ensures Valid() && Agrees(r, Rest(), DecodeItems(keyed, items, count, old(Rest())))
      decreases items, 2
    {
      hide DecodeEntry;
      ghost var start := Rest();
      var out := [];
      AfterNothing(DecodeItems(keyed, items, count, start));
      for i := 0 to count
        invariant Valid()
        invariant DecodeItems(keyed, items, count, start) == After(out, DecodeItems(keyed, items, count - i, Rest()))
      {
        var e := Entry(keyed, items);
        if e.Bad? { return Bad(e.error); }
        AfterTwo(out, [e.value], DecodeItems(keyed, items, count - i - 1, Rest()));
        out := out + [e.value];
      }
      AfterAll(out, Rest());
      return Good(out);
    }

    method Entry(keyed: bool, items: Schema) returns (r: Result<(Bytes, Avro.Value)>)
      requires Valid()
      modifies this
      ensures Valid() && Agrees(r, Rest(), DecodeEntry(keyed, items, old(Rest())))
      decreases items, 1
    {
      hide Decode, ReadString;
      var key := Good([]);
      if keyed {
        key := Utf8();
        if key.Bad? { return Bad(key.error); }
      }
      var v := Value(items);
      r := if v.Bad? then Bad(v.error) else Good((key.value, v.value));
    }
  }

  lemma GroupsUnfold(b: Bytes, k: nat)
    requires k < 10
    ensures |b| == 0 ==> ReadGroups(b, k) == Err(UnexpectedEof)
    ensures |b| > 0 && b[0] < 128 ==> ReadGroups(b, k) == Ok(b[0], b[1..])
    ensures |b| > 0 && b[0] >= 128 && k == 9 ==> ReadGroups(b, k) == Err(InvalidData)
    ensures |b| > 0 && b[0] >= 128 && k < 9 ==> ReadGroups(b, k) == Shifted(b[0] - 128, 128, ReadGroups(b[1..], k + 1))
  {
  }

  lemma BlocksUnfold(keyed: bool, items: Schema, b: Bytes)
    ensures ReadBlock(b).Err? ==> DecodeBlocks(keyed, items, b) == Err(ReadBlock(b).error)
    ensures ReadBlock(b).Ok? && ReadBlock(b).value == 0 ==> DecodeBlocks(keyed, items, b) == Ok([], ReadBlock(b).rest)
    ensures ReadBlock(b).Ok? && ReadBlock(b).value != 0 ==>
              var count := if ReadBlock(b).value < 0 then 0 else ReadBlock(b).value;
              var some := DecodeItems(keyed, items, count, ReadBlock(b).rest);
              && (some.Err? ==> DecodeBlocks(keyed, items, b) == Err(some.error))
              && (some.Ok? ==>
                    DecodeBlocks(keyed, items, b) == After(some.value, DecodeBlocks(keyed, items, some.rest)))
  {
    hide ReadBlock, DecodeItems;
  }

  lemma WeightStart(spec: Read<nat>)
    ensures Weight(0) == 1 && Shifted(0, 1, spec) == spec
  {
  }

  lemma LongFails(start: Bytes, acc: nat, weight: nat, e: Error)
    requires ReadGroups(start, 0) == Shifted(acc, weight, Err(e))
    ensures ReadLong(start) == Err(e)
  {
    hide ReadGroups;
  }

  lemma LongDone(start: Bytes, acc: nat, group: nat, k: nat, rest: Bytes)
    requires k < 10 && acc < Weight(k) && group < 128
    requires ReadGroups(start, 0) == Shifted(acc, Weight(k), Ok(group, rest))
    ensures ReadLong(start) == Ok(ZigZagDecode(OrGroup(acc, group % 128, Weight(k))), rest)
  {
    hide ReadGroups, Weight, OrGroup, ZigZagDecode;
    GroupDone(acc, group, k);
  }

  lemma GroupDone(acc: nat, group: nat, k: nat)
    requires k < 10 && acc < Weight(k) && group < 128
    ensures OrGroup(acc, group % 128, Weight(k)) == (acc + Weight(k) * group) % TWO_64
  {
    hide Weight, OrGroup;
    Weight9();
    if k == 9 {
      OrGroupLast(acc, group);
    } else {
      OrGroupExact(acc, group, k);
    }
  }

  lemma GroupMore(acc: nat, group: nat, k: nat, spec: Read<nat>)
    requires k < 9 && acc < Weight(k) && group < 128
    ensures OrGroup(acc, group, Weight(k)) < Weight(k + 1) == Weight(k) * 128
    ensures Shifted(acc, Weight(k), Shifted(group, 128, spec))
      == Shifted(OrGroup(acc, group, Weight(k)), Weight(k + 1), spec)
  {
    OrGroupExact(acc, group, k);
    var w := Weight(k);
    assert Weight(k + 1) == w * 128;
    hide OrGroup, Weight;
    if spec.Ok? {
      var v := spec.value;
      assert w * (group + 128 * v) == w * group + w * 128 * v;
    }
  }

  // ------------------------------------------------------------------ container files

  /** The metadata map, filled entry by entry. */
  function Inserted(es: seq<(Bytes, Value)>): (m: map<Bytes, Value>)
    ensures forall key :: key in m <==> Lookup(es, key).Some?
    ensures forall key <- m :: Lookup(es, key) == Some(m[key])
  {
    if |es| == 0 then map[] else Inserted(es[..|es| - 1])[es[|es| - 1].0 := es[|es| - 1].1]
  }

  ghost function AfterRecords(out: seq<Value>, spec: Option<seq<Value>>): Option<seq<Value>> {
    match spec
    case None => None
    case Some(more) => Some(out + more)
  }

  method FileBlock(reader: Reader, parts: Parts, h: Header) returns (r: Step)
    requires reader.Valid()
    modifies reader
    ensures reader.Valid()
    ensures r == NextBlock(parts, h.schema, h.codec, h.sync, old(reader.Rest()))
    ensures r.Block? ==> reader.Rest() == r.rest
  {
    hide ReadLong, ReadExact, Unpack, DecodeItems;
    var count := reader.Long();
    if count.Bad? { return if count.error == UnexpectedEof then End else Failure; }
    var size := reader.Long();
    if size.Bad? || size.value < 0 { return Failure; }
    var stored := reader.Exact(size.value);
    if stored.Bad? { return Failure; }
    var mark := reader.Exact(SYNC_SIZE);
    if mark.Bad? || mark.value != h.sync { return Failure; }
    var data := Unpack(parts, h.codec, stored.value);
    if data.None? { return Failure; }
    var inner := new Reader(data.value);
    var es := inner.Items(false, h.schema, if count.value < 0 then 0 else count.value);
    r := if es.Bad? then Failure else Step.Block(Seconds(es.value), reader.data[reader.pos..]);
  }

  method FileBlocks(reader: Reader, parts: Parts, h: Header) returns (r: Option<seq<Value>>)
    requires reader.Valid()
    modifies reader
    ensures r == ReadBlocks(parts, h.schema, h.codec, h.sync, old(reader.Rest()))
  {
    hide NextBlock;
    var records := [];
    ghost var all := ReadBlocks(parts, h.schema, h.codec, h.sync, reader.Rest());
    if all.Some? { assert [] + all.value == all.value; }
    while true
      invariant reader.Valid()
      invariant all == AfterRecords(records, ReadBlocks(parts, h.schema, h.codec, h.sync, reader.Rest()))
      decreases |reader.Rest()|
    {
      var step := FileBlock(reader, parts, h);
      if step.End? {
        assert records + [] == records;
        return Some(records);
      }
      if step.Failure? { return None; }
      ghost var more := ReadBlocks(parts, h.schema, h.codec, h.sync, reader.Rest());
      if more.Some? { assert records + (step.records + more.value) == (records + step.records) + more.value; }
      records := records + step.records;
    }
  }

  method ReadAvroBytes(parts: Parts, bytes: Bytes) returns (r: Option<seq<Value>>)
    ensures r == ReadFile(parts, bytes)
  {
    hide ReadBlocks, DecodeBlocks, ValidUtf8, Lookup;
    var reader := new Reader(bytes);
    var magic := reader.Exact(|MAGIC|);
    if magic.Bad? || magic.value != MAGIC { return None; }
    var entries := reader.Blocks(true, Binary);
    if entries.Bad? { return None; }
    var meta := Inserted(entries.value);
    var json := if SCHEMA_KEY in meta then Text(Some(meta[SCHEMA_KEY])) else None;
    var codec := if CODEC_KEY in meta then Text(Some(meta[CODEC_KEY])) else None;
    if json.None? { return None; }
    var schema := parts.parse(json.value);
    if schema.None? { return None; }
    var sync := reader.Exact(SYNC_SIZE);
    if sync.Bad? { return None; }
    r := FileBlocks(reader, parts, Header(schema.value, if codec.Some? then codec.value else NULL_CODEC, sync.value));
  }
}
