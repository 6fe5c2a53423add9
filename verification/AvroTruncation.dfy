/** Container files that were cut short: where the loop over blocks notices, and what it
    returns where it does not. */
module AvroTruncation {
  import opened Graphs
  import opened Avro
  import opened AvroCodings
  import opened AvroFile

  /** The cut is at the start of block `i`, or of the end of the file, or inside the count
      of block `i`. */
  predicate CutAt(ks: seq<FileBlock>, sync: Bytes, c: nat, i: nat) {
    && i <= |ks|
    && var start := |FileBytes(ks[..i], sync)|;
       c == start || (i < |ks| && start < c < start + |VarintBytes(ks[i].count)|)
  }

  /** A count that was cut short ends the loop. */
  lemma VarintCut(gs: Varint, c: nat)
    requires c < |gs|
    ensures ReadLong(VarintBytes(gs)[..c]) == Err(UnexpectedEof)
  {
    hide VarintBytes, ReadLong;
    var cut := VarintBytes(gs)[..c];
    forall i | 0 <= i < |cut| ensures cut[i] >= 128 {
      VarintLayout(gs, i);
    }
    EndOfBlocks(cut);
  }

  lemma TakePast(a: Bytes, b: Bytes, c: nat)
    requires |a| <= c <= |a| + |b|
    ensures (a + b)[..c] == a + b[..c - |a|]
  {
  }

  lemma TakeWithin(a: Bytes, b: Bytes, c: nat)
    requires c <= |a|
    ensures (a + b)[..c] == a[..c]
  {
  }

  /** A block that was cut short ends the loop inside its count and is an error after it. */
  lemma BlockCut(parts: Parts, schema: Schema, codec: Bytes, k: FileBlock, sync: Bytes, c: nat)
    requires |sync| == SYNC_SIZE && LongOf(k.size) == |k.stored| && c < |FileBlockBytes(k, sync)|
    ensures NextBlock(parts, schema, codec, sync, FileBlockBytes(k, sync)[..c])
            == if c < |VarintBytes(k.count)| then End else Failure
  {
    hide VarintBytes, ReadLong, LongOf, Records;
    var count, size, body := VarintBytes(k.count), VarintBytes(k.size), k.stored + sync;
    if c < |count| {
      TakeWithin(count, size + body, c);
      VarintCut(k.count, c);
    } else {
      var d := c - |count|;
      TakePast(count, size + body, c);
      LongRead(k.count, (size + body)[..d]);
      if d < |size| {
        TakeWithin(size, body, d);
        VarintCut(k.size, d);
      } else {
        TakePast(size, body, d);
        LongRead(k.size, body[..d - |size|]);
      }
    }
  }

  lemma BlockNext(parts: Parts, schema: Schema, codec: Bytes, k: FileBlock, sync: Bytes, more: Bytes)
    requires |sync| == SYNC_SIZE && FitsFileBlock(parts, schema, codec, k)
    ensures FitsEntries(false, schema, k.entries)
    ensures NextBlock(parts, schema, codec, sync, FileBlockBytes(k, sync) + more)
            == Step.Block(Seconds(EntriesValues(false, schema, k.entries)), more)
  {
    hide LongOf, ReadLong, VarintBytes, ReadExact, FitsFileBlock, Records, EntriesValues, FileBlockBytes, Seconds;
    FitsSize(parts, schema, codec, k);
    BlockFraming(k, sync, more);
    BlockRecords(parts, schema, codec, k);
  }

  lemma {:induction false} FitsPrefix(parts: Parts, schema: Schema, codec: Bytes, ks: seq<FileBlock>, i: nat)
    requires FitsFile(parts, schema, codec, ks) && i <= |ks|
    ensures FitsFile(parts, schema, codec, ks[..i])
    decreases |ks|
  {
    hide FitsFileBlock;
    if i > 0 {
      FitsPrefix(parts, schema, codec, ks[1..], i - 1);
      assert ks[..i][1..] == ks[1..][..i - 1];
    }
  }

  /** Behind the first block, a cut lies where it lies in the other blocks. */
  lemma CutBehind(ks: seq<FileBlock>, sync: Bytes, c: nat, i: nat)
    requires |ks| > 0 && |FileBlockBytes(ks[0], sync)| <= c && i > 0
    ensures CutAt(ks, sync, c, i) <==> CutAt(ks[1..], sync, c - |FileBlockBytes(ks[0], sync)|, i - 1)
  {
    hide VarintBytes, FileBlockBytes;
    if i <= |ks| {
      assert ks[..i][1..] == ks[1..][..i - 1];
    }
  }

  lemma CutFirst(ks: seq<FileBlock>, sync: Bytes, c: nat, i: nat)
    requires |ks| > 0
    ensures CutAt(ks, sync, c, 0) <==> c < |VarintBytes(ks[0].count)|
    ensures |VarintBytes(ks[0].count)| <= |FileBlockBytes(ks[0], sync)|
    ensures CutAt(ks, sync, c, i) && i > 0 ==> |FileBlockBytes(ks[0], sync)| <= c
  {
    hide VarintBytes;
    if 0 < i <= |ks| {
      assert ks[..i][0] == ks[0];
    }
  }

  ghost predicate CutReads(parts: Parts, schema: Schema, codec: Bytes, sync: Bytes, ks: seq<FileBlock>, c: nat, i: nat)
    requires FitsFile(parts, schema, codec, ks) && i <= |ks| && c <= |FileBytes(ks, sync)|
  {
    FitsPrefix(parts, schema, codec, ks, i);
    ReadBlocks(parts, schema, codec, sync, FileBytes(ks, sync)[..c]) == Some(FileValues(parts, schema, codec, ks[..i]))
  }

  lemma {:induction false} CutRead(parts: Parts, schema: Schema, codec: Bytes, sync: Bytes, ks: seq<FileBlock>, c: nat,
                                   i: nat)
    requires |sync| == SYNC_SIZE && FitsFile(parts, schema, codec, ks) && c <= |FileBytes(ks, sync)|
    requires CutAt(ks, sync, c, i)
    ensures CutReads(parts, schema, codec, sync, ks, c, i)
    decreases |ks|
  {
    hide CutAt, FileBlockBytes, FitsFileBlock, Seconds, EntriesValues, VarintBytes, NextBlock, FitsEntries;
    CutInRange(ks, sync, c, i);
    FitsPrefix(parts, schema, codec, ks, i);
    var b := FileBytes(ks, sync)[..c];
    if |ks| == 0 {
      NothingLeft(parts, schema, codec, sync);
      assert b == [] && ks[..i] == [];
    } else {
      var first := FileBlockBytes(ks[0], sync);
      CutFirst(ks, sync, c, i);
      FitsSize(parts, schema, codec, ks[0]);
      if i == 0 {
        TakeWithin(first, FileBytes(ks[1..], sync), c);
        BlockCut(parts, schema, codec, ks[0], sync, c);
      } else {
        var d := c - |first|;
        CutBehind(ks, sync, c, i);
        CutRead(parts, schema, codec, sync, ks[1..], d, i - 1);
        TakePast(first, FileBytes(ks[1..], sync), c);
        BlockNext(parts, schema, codec, ks[0], sync, FileBytes(ks[1..], sync)[..d]);
        assert ks[..i][1..] == ks[1..][..i - 1] && ks[..i][0] == ks[0];
      }
    }
  }

  lemma CutInRange(ks: seq<FileBlock>, sync: Bytes, c: nat, i: nat)
    requires CutAt(ks, sync, c, i)
    ensures i <= |ks|
  {
  }

  lemma NothingLeft(parts: Parts, schema: Schema, codec: Bytes, sync: Bytes)
    ensures NextBlock(parts, schema, codec, sync, []) == End
  {
  }

  /** Where the loop returns records at all, the cut is one of those. */
  lemma {:induction false} CutFound(parts: Parts, schema: Schema, codec: Bytes, sync: Bytes, ks: seq<FileBlock>, c: nat)
      returns (i: nat)
    requires |sync| == SYNC_SIZE && FitsFile(parts, schema, codec, ks) && c <= |FileBytes(ks, sync)|
    requires ReadBlocks(parts, schema, codec, sync, FileBytes(ks, sync)[..c]).Some?
    ensures CutAt(ks, sync, c, i)
    decreases |ks|
  {
    hide CutAt, FileBlockBytes, FitsFileBlock, Seconds, EntriesValues, VarintBytes, NextBlock, FitsEntries;
    if |ks| == 0 {
      i := 0;
      CutEmpty(ks, sync);
    } else {
      var first := FileBlockBytes(ks[0], sync);
      FitsSize(parts, schema, codec, ks[0]);
      if c < |first| {
        i := 0;
        CutFirst(ks, sync, c, i);
        TakeWithin(first, FileBytes(ks[1..], sync), c);
        BlockCut(parts, schema, codec, ks[0], sync, c);
      } else {
        var d := c - |first|;
        TakePast(first, FileBytes(ks[1..], sync), c);
        BlockNext(parts, schema, codec, ks[0], sync, FileBytes(ks[1..], sync)[..d]);
        i := CutFound(parts, schema, codec, sync, ks[1..], d);
        i := i + 1;
        CutBehind(ks, sync, c, i);
      }
    }
  }

  lemma CutEmpty(ks: seq<FileBlock>, sync: Bytes)
    requires |ks| == 0
    ensures CutAt(ks, sync, 0, 0)
  {
  }

  /** A sequence of well-framed blocks that was cut short is accepted exactly where the cut
      is between two blocks or inside a count, and then gives the records of the whole
      blocks before the cut. */
  lemma CutExactly(parts: Parts, schema: Schema, codec: Bytes, sync: Bytes, ks: seq<FileBlock>, c: nat)
    requires |sync| == SYNC_SIZE && FitsFile(parts, schema, codec, ks) && c <= |FileBytes(ks, sync)|
    ensures ReadBlocks(parts, schema, codec, sync, FileBytes(ks, sync)[..c]).Some?
      <==> exists i :: CutAt(ks, sync, c, i)
    ensures forall i: nat :: CutAt(ks, sync, c, i) ==> i <= |ks| && CutReads(parts, schema, codec, sync, ks, c, i)
  {
    hide ReadBlocks, FitsFile, FileBytes, CutAt;
    forall i: nat | CutAt(ks, sync, c, i) ensures i <= |ks| && CutReads(parts, schema, codec, sync, ks, c, i) {
      CutInRange(ks, sync, c, i);
      CutRead(parts, schema, codec, sync, ks, c, i);
    }
    if ReadBlocks(parts, schema, codec, sync, FileBytes(ks, sync)[..c]).Some? {
      var i := CutFound(parts, schema, codec, sync, ks, c);
    }
  }

  /** The same of a whole container file that was cut short behind its header. */
  lemma CutFile(parts: Parts, meta: Coding, schema: Schema, codec: Bytes, sync: Bytes, ks: seq<FileBlock>, c: nat)
    requires Describes(parts, meta, schema, codec) && |sync| == SYNC_SIZE
    requires FitsFile(parts, schema, codec, ks) && c <= |FileBytes(ks, sync)|
    ensures var b := MAGIC + (BytesOf(meta) + (sync + FileBytes(ks, sync)[..c]));
      && (ReadFile(parts, b).Some? <==> exists i :: CutAt(ks, sync, c, i))
      && forall i: nat | i <= |ks| && CutAt(ks, sync, c, i) ::
           && FitsFile(parts, schema, codec, ks[..i])
           && ReadFile(parts, b) == Some(FileValues(parts, schema, codec, ks[..i]))
  {
    hide Describes, ReadHeader, ReadBlocks, BytesOf, FileBytes, FitsFile, FileValues, CutAt;
    HeaderWritten(parts, meta, schema, codec, sync, FileBytes(ks, sync)[..c]);
    CutExactly(parts, schema, codec, sync, ks, c);
    forall i: nat | i <= |ks| ensures FitsFile(parts, schema, codec, ks[..i]) {
      FitsPrefix(parts, schema, codec, ks, i);
    }
  }

  // ------------------------------------------------------------------ an input

  const MARK: Bytes := seq(SYNC_SIZE, _ => 0)

  /** 64 null records: a count of two bytes, a size of zero, no data. */
  const NULLS: FileBlock := FileBlock([0, 1], [0], [], seq(64, _ => Entry(NoKey, CNull)), [])

  lemma {:induction false} NullEntries(es: seq<Entry>)
    requires forall i | 0 <= i < |es| :: es[i] == Entry(NoKey, CNull)
    ensures FitsEntries(false, Null, es) && EntriesBytes(es) == [] && |EntriesValues(false, Null, es)| == |es|
    decreases |es|
  {
    if |es| > 0 { NullEntries(es[1..]); }
  }

  lemma NullsFit(parts: Parts)
    ensures FitsFileBlock(parts, Null, NULL_CODEC, NULLS) && FitsEntries(false, Null, NULLS.entries)
    ensures |EntriesValues(false, Null, NULLS.entries)| == 64
  {
    hide FitsEntries, EntriesBytes, EntriesValues;
    NullEntries(NULLS.entries);
    assert GroupValue([1]) == 1 && GroupValue([0, 1]) == 128;
    assert GroupValue([0]) == 0;
    assert LongOf(NULLS.count) == 64 && LongOf(NULLS.size) == 0;
    assert Unpack(parts, NULL_CODEC, NULLS.stored) == Some(NULLS.stored);
    assert EntriesBytes(NULLS.entries) + NULLS.spare == NULLS.stored;
  }

  /** Cut after its first byte, a file of 64 records reads as a file of none. */
  lemma RecordsLost(parts: Parts)
    ensures var whole := ReadBlocks(parts, Null, NULL_CODEC, MARK, FileBytes([NULLS], MARK));
      whole.Some? && |whole.value| == 64
    ensures ReadBlocks(parts, Null, NULL_CODEC, MARK, FileBytes([NULLS], MARK)[..1]) == Some([])
  {
    hide FitsFileBlock, FitsEntries, EntriesValues, ReadBlocks, FileBlockBytes;
    NullsFit(parts);
    var ks := [NULLS];
    assert ks[1..] == [] && ks[..0] == [];
    var b := FileBytes(ks, MARK);
    BlockLong();
    FileRead(parts, Null, NULL_CODEC, MARK, ks, []);
    assert b + [] == b;
    CutFirst(ks, MARK, 1, 0);
    CutRead(parts, Null, NULL_CODEC, MARK, ks, 1, 0);
  }

  lemma BlockLong()
    ensures |FileBlockBytes(NULLS, MARK)| > 1
  {
  }
}
