/** `pack_stage`: one stage's 4-byte sub-header, its entry records, the
    padding to the next sector, and the payload of every file.

    The stage is written at absolute offset `start` of the container, and
    every `align(2048)` pads relative to that absolute cursor. */
module StagePack {
  import opened Outcome
  import opened Bytes
  import opened NameCode
  import opened Config
  import opened Records

  /** The EUC-JP encoder `strcode` relies on: `None` for a name it cannot encode. */
  type Encoder = string -> Option<seq<byte>>

  /** The section tag: `.bin` files are always tagged `'s'`. */
  function Tag(f: FileEntry): byte
  {
    if f.ext == "bin" then TAG_SOUND else Letter(f.section)
  }

  /** The name code: zero for a `.dar` file, else `strcode` of the name. */
  function CodeOf(f: FileEntry, enc: Encoder): Result<u16>
  {
    if f.ext == "dar" then Ok(0)
    else match enc(f.name)
      case None => Fail(Unencodable(f.name))
      case Some(bs) => Ok(StrCode(bs))
  }

  /** The extension tag `ord(ext[0])`, which `<B` must be able to hold. */
  function ExtTag(f: FileEntry): Result<byte>
  {
    if f.ext == [] then Fail(EmptyExtension(f.name))
    else if f.ext[0] as int >= 0x100 then Fail(FieldOverflow)
    else Ok(f.ext[0] as int)
  }

  /** The record loop from file `i` on, with the loop's two variables:
      whether a cache run is open and the running cache offset (which is
      never reset). */
  function EmitFrom(fs: seq<FileEntry>, i: nat, inCache: bool, cacheSize: nat, enc: Encoder): Result<seq<Record>>
    requires i <= |fs|
    decreases |fs| - i
  {
    if i == |fs| then Ok([])
    else
      var f := fs[i];
      var inRun := inCache || f.section == Cache;
      var code :- CodeOf(f, enc);
      var ext :- ExtTag(f);
      var value := if inRun then cacheSize else |f.data|;
      var running := if inRun then cacheSize + |f.data| else cacheSize;
      if value >= 0x1_0000_0000 then Fail(FieldOverflow)
      else
        var rec := Record(code, Tag(f), ext, value);
        var closes := inRun && (i == |fs| - 1 || fs[i + 1].section != Cache);
        if closes then
          if running >= 0x1_0000_0000 then Fail(FieldOverflow)
          else
            var rest :- EmitFrom(fs, i + 1, false, running, enc);
            Ok([rec, Trailer(running)] + rest)
        else
          var rest :- EmitFrom(fs, i + 1, inRun, running, enc);
          Ok([rec] + rest)
  }

  // ----- the record layout, stated without the loop's state -----

  /** The total size of the cache-section files before file `i`. */
  function CacheBefore(fs: seq<FileEntry>, i: nat): nat
    requires i <= |fs|
  {
    if i == 0 then 0
    else CacheBefore(fs, i - 1) + (if fs[i - 1].section == Cache then |fs[i - 1].data| else 0)
  }

  /** The value field of file `i`: its size, or its offset in the cache data. */
  function ValueOf(fs: seq<FileEntry>, i: nat): nat
    requires i < |fs|
  {
    if fs[i].section == Cache then CacheBefore(fs, i) else |fs[i].data|
  }

  /** File `i` can be turned into its record (and trailer) without an error. */
  predicate EncodableAt(fs: seq<FileEntry>, i: nat, enc: Encoder)
    requires i < |fs|
  {
    && CodeOf(fs[i], enc).Ok?
    && ExtTag(fs[i]).Ok?
    && ValueOf(fs, i) < 0x1_0000_0000
    && (EndsCacheRun(fs, i) ==> CacheBefore(fs, i + 1) < 0x1_0000_0000)
  }

  predicate EncodableFrom(fs: seq<FileEntry>, i: nat, enc: Encoder)
  {
    forall j :: i <= j < |fs| ==> EncodableAt(fs, j, enc)
  }

  /** The record of file `i`. */
  function RecordOf(fs: seq<FileEntry>, i: nat, enc: Encoder): Record
    requires i < |fs| && EncodableAt(fs, i, enc)
  {
    Record(CodeOf(fs[i], enc).value, Tag(fs[i]), ExtTag(fs[i]).value, ValueOf(fs, i))
  }

  /** The records file `i` contributes: its own, then the trailer if it ends
      a cache run. */
  function RecordsFor(fs: seq<FileEntry>, i: nat, enc: Encoder): seq<Record>
    requires i < |fs| && EncodableAt(fs, i, enc)
  {
    [RecordOf(fs, i, enc)] + (if EndsCacheRun(fs, i) then [Trailer(CacheBefore(fs, i + 1))] else [])
  }

  function LayoutFrom(fs: seq<FileEntry>, i: nat, enc: Encoder): seq<Record>
    requires i <= |fs| && EncodableFrom(fs, i, enc)
    decreases |fs| - i
  {
    if i == |fs| then [] else RecordsFor(fs, i, enc) + LayoutFrom(fs, i + 1, enc)
  }

  /** The loop succeeds exactly when every file is encodable, and then emits
      the stateless layout: `in_cache` is only ever set while the current
      file is a cache file, and `cache_size` is the size of all earlier
      cache files. */
  lemma {:induction false} EmitMatchesLayout(fs: seq<FileEntry>, i: nat, inCache: bool, cacheSize: nat, enc: Encoder)
    requires i <= |fs|
    requires inCache ==> i < |fs| && fs[i].section == Cache
    requires cacheSize == CacheBefore(fs, i)
    ensures EmitFrom(fs, i, inCache, cacheSize, enc).Ok? <==> EncodableFrom(fs, i, enc)
    ensures EmitFrom(fs, i, inCache, cacheSize, enc).Ok? ==>
      EmitFrom(fs, i, inCache, cacheSize, enc).value == LayoutFrom(fs, i, enc)
    decreases |fs| - i
  {
    if i < |fs| {
      var nextIn, running := EmitStep(fs, i, inCache, cacheSize, enc);
      EmitMatchesLayout(fs, i + 1, nextIn, running, enc);
      assert EncodableFrom(fs, i, enc) <==> EncodableAt(fs, i, enc) && EncodableFrom(fs, i + 1, enc);
    }
  }

  /** One turn of the record loop: file `i` yields its records exactly when
      it is encodable, and the loop goes on with the cache total after it. */
  lemma EmitStep(fs: seq<FileEntry>, i: nat, inCache: bool, cacheSize: nat, enc: Encoder) returns (nextIn: bool, running: nat)
    requires i < |fs|
    requires inCache ==> fs[i].section == Cache
    requires cacheSize == CacheBefore(fs, i)
    ensures nextIn ==> i + 1 < |fs| && fs[i + 1].section == Cache
    ensures running == CacheBefore(fs, i + 1)
    ensures var r := EmitFrom(fs, i, inCache, cacheSize, enc);
      var rest := EmitFrom(fs, i + 1, nextIn, running, enc);
      && (r.Ok? <==> EncodableAt(fs, i, enc) && rest.Ok?)
      && (r.Ok? ==> r.value == RecordsFor(fs, i, enc) + rest.value)
  {
    var f := fs[i];
    var inRun := inCache || f.section == Cache;
    assert inRun == (f.section == Cache);
    running := if inRun then cacheSize + |f.data| else cacheSize;
    var closes := inRun && (i == |fs| - 1 || fs[i + 1].section != Cache);
    assert closes == EndsCacheRun(fs, i);
    nextIn := if closes then false else inRun;
  }

  /** Records emitted for a whole stage. */
  function EncodeRecords(fs: seq<FileEntry>, enc: Encoder): Result<seq<Record>>
  {
    EmitFrom(fs, 0, false, 0, enc)
  }

  lemma EncodeRecordsLayout(fs: seq<FileEntry>, enc: Encoder)
    ensures EncodeRecords(fs, enc).Ok? <==> EncodableFrom(fs, 0, enc)
    ensures EncodeRecords(fs, enc).Ok? ==> EncodeRecords(fs, enc).value == LayoutFrom(fs, 0, enc)
  {
    EmitMatchesLayout(fs, 0, false, 0, enc);
  }

  /** The number of cache runs that end at or after file `i`. */
  function RunEndsFrom(fs: seq<FileEntry>, i: nat): nat
    requires i <= |fs|
    decreases |fs| - i
  {
    if i == |fs| then 0 else (if EndsCacheRun(fs, i) then 1 else 0) + RunEndsFrom(fs, i + 1)
  }

  /** Where file `i`'s record sits in the layout that starts at file `from`:
      one record per earlier file plus one per earlier trailer. */
  function RecordIndex(fs: seq<FileEntry>, from: nat, i: nat): nat
    requires from <= i <= |fs|
    decreases i - from
  {
    if i == from then 0 else RecordIndex(fs, from, i - 1) + (if EndsCacheRun(fs, i - 1) then 2 else 1)
  }

  /** Every file yields exactly one record, in file order, holding its name
      code, section tag, extension tag and value; a file that ends a cache
      run is followed by the trailer carrying the run's end offset; nothing
      else is emitted. */
  lemma LayoutShape(fs: seq<FileEntry>, from: nat, enc: Encoder)
    requires from <= |fs| && EncodableFrom(fs, from, enc)
    ensures |LayoutFrom(fs, from, enc)| == |fs| - from + RunEndsFrom(fs, from)
    ensures forall i :: from <= i < |fs| ==>
      RecordIndex(fs, from, i) < |LayoutFrom(fs, from, enc)|
      && LayoutFrom(fs, from, enc)[RecordIndex(fs, from, i)] == RecordOf(fs, i, enc)
    ensures forall i :: from <= i < |fs| && EndsCacheRun(fs, i) ==>
      RecordIndex(fs, from, i) + 1 < |LayoutFrom(fs, from, enc)|
      && CacheBefore(fs, i + 1) < 0x1_0000_0000
      && LayoutFrom(fs, from, enc)[RecordIndex(fs, from, i) + 1] == Trailer(CacheBefore(fs, i + 1))
  {
    LayoutPlaces(fs, from, enc);
    forall i | from <= i < |fs|
      ensures RecordIndex(fs, from, i) < |LayoutFrom(fs, from, enc)|
        && LayoutFrom(fs, from, enc)[RecordIndex(fs, from, i)] == RecordOf(fs, i, enc)
      ensures EndsCacheRun(fs, i) ==>
        RecordIndex(fs, from, i) + 1 < |LayoutFrom(fs, from, enc)|
        && CacheBefore(fs, i + 1) < 0x1_0000_0000
        && LayoutFrom(fs, from, enc)[RecordIndex(fs, from, i) + 1] == Trailer(CacheBefore(fs, i + 1))
    {
      assert LaidOut(fs, from, enc, i);
    }
  }

  /** File `i`'s record, and its trailer when it ends a cache run, sit at
      its record index in the layout from `from`. */
  predicate LaidOut(fs: seq<FileEntry>, from: nat, enc: Encoder, i: nat)
    requires from <= i < |fs| && EncodableFrom(fs, from, enc)
  {
    && RecordIndex(fs, from, i) < |LayoutFrom(fs, from, enc)|
    && LayoutFrom(fs, from, enc)[RecordIndex(fs, from, i)] == RecordOf(fs, i, enc)
    && (EndsCacheRun(fs, i) ==>
      && RecordIndex(fs, from, i) + 1 < |LayoutFrom(fs, from, enc)|
      && CacheBefore(fs, i + 1) < 0x1_0000_0000
      && LayoutFrom(fs, from, enc)[RecordIndex(fs, from, i) + 1] == Trailer(CacheBefore(fs, i + 1)))
  }

  /** The layout's length, and every file laid out at its record index. */
  lemma {:induction false} LayoutPlaces(fs: seq<FileEntry>, from: nat, enc: Encoder)
    requires from <= |fs| && EncodableFrom(fs, from, enc)
    ensures |LayoutFrom(fs, from, enc)| == |fs| - from + RunEndsFrom(fs, from)
    ensures forall i :: from <= i < |fs| ==> LaidOut(fs, from, enc, i)
    decreases |fs| - from
  {
    if from < |fs| {
      LayoutPlaces(fs, from + 1, enc);
      forall i | from <= i < |fs|
        ensures LaidOut(fs, from, enc, i)
      {
        LayoutEntry(fs, from, enc, i);
      }
    }
  }

  /** File `i`'s records in the layout from `from`, given where they sit in
      the layout from `from + 1`. */
  lemma LayoutEntry(fs: seq<FileEntry>, from: nat, enc: Encoder, i: nat)
    requires from <= i < |fs| && EncodableFrom(fs, from, enc)
    requires from < i ==> LaidOut(fs, from + 1, enc, i)
    ensures LaidOut(fs, from, enc, i)
  {
    assert EncodableAt(fs, i, enc);
    if from < i {
      RecordIndexShift(fs, from, i);
    }
  }

  lemma {:induction false} RecordIndexShift(fs: seq<FileEntry>, from: nat, i: nat)
    requires from < i <= |fs|
    ensures RecordIndex(fs, from, i) ==
      (if EndsCacheRun(fs, from) then 2 else 1) + RecordIndex(fs, from + 1, i)
    decreases i - from
  {
    if i > from + 1 {
      RecordIndexShift(fs, from, i - 1);
    }
  }

  /** A cache file's value is the running sum of the cache files before it,
      and the next cache file's value adds this file's size; before the
      first cache file the sum is 0. */
  lemma CacheValuesArePrefixSums(fs: seq<FileEntry>, i: nat)
    requires i < |fs| && fs[i].section == Cache
    ensures ValueOf(fs, i) == CacheBefore(fs, i)
    ensures (forall j :: 0 <= j < i ==> fs[j].section != Cache) ==> ValueOf(fs, i) == 0
    ensures i + 1 < |fs| && fs[i + 1].section == Cache ==> ValueOf(fs, i + 1) == ValueOf(fs, i) + |fs[i].data|
    ensures EndsCacheRun(fs, i) ==> CacheBefore(fs, i + 1) == ValueOf(fs, i) + |fs[i].data|
  {
    if forall j :: 0 <= j < i ==> fs[j].section != Cache {
      NoCacheBeforeIsZero(fs, i);
    }
  }

  lemma {:induction false} NoCacheBeforeIsZero(fs: seq<FileEntry>, i: nat)
    requires i <= |fs| && forall j :: 0 <= j < i ==> fs[j].section != Cache
    ensures CacheBefore(fs, i) == 0
  {
    if i > 0 {
      NoCacheBeforeIsZero(fs, i - 1);
    }
  }

  // ----- payload -----

  /** File `i`'s payload is followed by padding unless it is a cache file
      with another cache file after it. */
  predicate AlignsAfter(fs: seq<FileEntry>, i: nat)
    requires i < |fs|
  {
    fs[i].section != Cache || i == |fs| - 1 || fs[i + 1].section != Cache
  }

  /** The padding written after file `i`'s data when that data starts at
      `pos`. */
  function PadAfter(fs: seq<FileEntry>, i: nat, pos: nat): seq<byte>
    requires i < |fs|
  {
    if AlignsAfter(fs, i) then PadAt(pos + |fs[i].data|, SECTOR) else []
  }

  /** Where the payload of file `i + 1` starts when file `i`'s starts at `p`. */
  function NextFile(fs: seq<FileEntry>, i: nat, p: nat): nat
    requires i < |fs|
  {
    p + |fs[i].data| + |PadAfter(fs, i, p)|
  }

  /** The payload loop from file `i` on, with the cursor at `pos`. */
  function PayloadFrom(fs: seq<FileEntry>, i: nat, pos: nat): seq<byte>
    requires i <= |fs|
    decreases |fs| - i
  {
    if i == |fs| then []
    else fs[i].data + PadAfter(fs, i, pos) + PayloadFrom(fs, i + 1, NextFile(fs, i, pos))
  }

  /** The payload always ends on a sector boundary: the last file is always
      followed by padding. */
  lemma {:induction false} PayloadEndsAligned(fs: seq<FileEntry>, i: nat, pos: nat)
    requires i <= |fs|
    requires i == |fs| ==> pos % SECTOR == 0
    ensures (pos + |PayloadFrom(fs, i, pos)|) % SECTOR == 0
    decreases |fs| - i
  {
    if i < |fs| {
      PayloadEndsAligned(fs, i + 1, NextFile(fs, i, pos));
    }
  }

  /** Where file `i`'s data starts when the payload starts at `pos`; at
      `i == |fs|` it is where the payload ends. */
  function FileStart(fs: seq<FileEntry>, i: nat, pos: nat): (start: nat)
    requires i <= |fs|
    ensures pos <= start
    decreases i
  {
    if i == 0 then pos else NextFile(fs, i - 1, FileStart(fs, i - 1, pos))
  }

  /** `rest` is the tail of `whole` from offset `q` on. */
  predicate SuffixAt(whole: seq<byte>, q: nat, rest: seq<byte>)
  {
    q <= |whole| && whole[q..] == rest
  }

  /** The payload from file `i` on is the tail of the whole payload that
      begins at file `i`'s start. */
  lemma {:induction false} PayloadSuffix(fs: seq<FileEntry>, i: nat, pos: nat)
    requires i <= |fs|
    ensures SuffixAt(PayloadFrom(fs, 0, pos), FileStart(fs, i, pos) - pos, PayloadFrom(fs, i, FileStart(fs, i, pos)))
    decreases i
  {
    if i > 0 {
      var j := i - 1;
      PayloadSuffix(fs, j, pos);
      SuffixNext(fs, j, pos, PayloadFrom(fs, 0, pos));
      assert j + 1 == i;
    }
  }

  /** From file `i`'s tail of the payload to file `i + 1`'s. */
  lemma SuffixNext(fs: seq<FileEntry>, i: nat, pos: nat, whole: seq<byte>)
    requires i < |fs|
    requires SuffixAt(whole, FileStart(fs, i, pos) - pos, PayloadFrom(fs, i, FileStart(fs, i, pos)))
    ensures SuffixAt(whole, FileStart(fs, i + 1, pos) - pos, PayloadFrom(fs, i + 1, FileStart(fs, i + 1, pos)))
  {
    var p := FileStart(fs, i, pos);
    var d := fs[i].data + PadAfter(fs, i, p);
    var q := NextFile(fs, i, p);
    assert PayloadFrom(fs, i, p) == d + PayloadFrom(fs, i + 1, q);
    assert FileStart(fs, i + 1, pos) == q == p + |d|;
    SuffixStep(whole, p - pos, d, PayloadFrom(fs, i + 1, q));
  }

  lemma SuffixStep(whole: seq<byte>, q: nat, d: seq<byte>, tail: seq<byte>)
    requires SuffixAt(whole, q, d + tail)
    ensures SuffixAt(whole, q + |d|, tail)
  {
    assert whole[q + |d|..] == whole[q..][|d|..];
  }

  lemma PrefixStep(whole: seq<byte>, q: nat, d: seq<byte>, pad: seq<byte>, tail: seq<byte>)
    requires SuffixAt(whole, q, d + pad + tail)
    ensures At(whole, q, d)
  {
    assert whole[q..q + |d|] == whole[q..][..|d|];
  }

  lemma SuffixEnd(whole: seq<byte>, q: nat)
    requires SuffixAt(whole, q, [])
    ensures q == |whole|
  {
  }

  /** The payload segments, with the payload starting on a sector boundary:
      a file starts on a sector boundary when it is the first or follows
      padding, a file after a cache file of the same run starts right where
      that file's data ends, every file's data sits at its start, and the
      payload ends where the last file's segment does. */
  lemma PayloadSegments(fs: seq<FileEntry>, i: nat, pos: nat)
    requires pos % SECTOR == 0 && i < |fs|
    ensures i == 0 || AlignsAfter(fs, i - 1) ==> FileStart(fs, i, pos) % SECTOR == 0
    ensures i > 0 && !AlignsAfter(fs, i - 1) ==> FileStart(fs, i, pos) == FileStart(fs, i - 1, pos) + |fs[i - 1].data|
    ensures AlignsAfter(fs, i) ==> FileStart(fs, i + 1, pos) % SECTOR == 0
    ensures !AlignsAfter(fs, i) ==> FileStart(fs, i + 1, pos) == FileStart(fs, i, pos) + |fs[i].data|
    ensures At(PayloadFrom(fs, 0, pos), FileStart(fs, i, pos) - pos, fs[i].data)
    ensures FileStart(fs, |fs|, pos) == pos + |PayloadFrom(fs, 0, pos)|
  {
    SegmentStart(fs, i, pos);
    SegmentBounds(fs, i, pos);
    FileDataAt(fs, i, pos);
    PayloadEnd(fs, pos);
  }

  /** File `i` starts on a sector boundary when it is the first or the file
      before it is padded, and right after that file's data otherwise. */
  lemma SegmentStart(fs: seq<FileEntry>, i: nat, pos: nat)
    requires pos % SECTOR == 0 && i < |fs|
    ensures i == 0 || AlignsAfter(fs, i - 1) ==> FileStart(fs, i, pos) % SECTOR == 0
    ensures i > 0 && !AlignsAfter(fs, i - 1) ==> FileStart(fs, i, pos) == FileStart(fs, i - 1, pos) + |fs[i - 1].data|
  {
    if i > 0 {
      var j := i - 1;
      SegmentBounds(fs, j, pos);
      assert j + 1 == i;
    }
  }

  /** After file `i` the next file starts on a sector boundary, or, inside
      a cache run, right where file `i`'s data ends. */
  lemma SegmentBounds(fs: seq<FileEntry>, i: nat, pos: nat)
    requires i < |fs|
    ensures AlignsAfter(fs, i) ==> FileStart(fs, i + 1, pos) % SECTOR == 0
    ensures !AlignsAfter(fs, i) ==> FileStart(fs, i + 1, pos) == FileStart(fs, i, pos) + |fs[i].data|
  {
  }

  /** File `i`'s data sits at its start. */
  lemma FileDataAt(fs: seq<FileEntry>, i: nat, pos: nat)
    requires i < |fs|
    ensures At(PayloadFrom(fs, 0, pos), FileStart(fs, i, pos) - pos, fs[i].data)
  {
    PayloadSuffix(fs, i, pos);
    var p := FileStart(fs, i, pos);
    PrefixStep(PayloadFrom(fs, 0, pos), p - pos, fs[i].data,
               PadAfter(fs, i, p), PayloadFrom(fs, i + 1, NextFile(fs, i, p)));
  }

  /** The start past the last file is where the payload ends. */
  lemma PayloadEnd(fs: seq<FileEntry>, pos: nat)
    ensures FileStart(fs, |fs|, pos) == pos + |PayloadFrom(fs, 0, pos)|
  {
    PayloadSuffix(fs, |fs|, pos);
    SuffixEnd(PayloadFrom(fs, 0, pos), FileStart(fs, |fs|, pos) - pos);
  }

  /** Every payload byte is either file data or padding, so a payload that
      holds any data fills at least one whole sector. */
  lemma PayloadHoldsData(fs: seq<FileEntry>, i: nat, pos: nat, k: nat)
    requires i <= k < |fs| && |fs[k].data| > 0 && pos % SECTOR == 0
    ensures |PayloadFrom(fs, i, pos)| >= SECTOR
  {
    PayloadHoldsDataStep(fs, i, pos, k);
    PayloadEndsAligned(fs, i, pos);
    ModDiff(pos + |PayloadFrom(fs, i, pos)|, pos, SECTOR);
  }

  lemma {:induction false} PayloadHoldsDataStep(fs: seq<FileEntry>, i: nat, pos: nat, k: nat)
    requires i <= k < |fs| && |fs[k].data| > 0
    ensures |PayloadFrom(fs, i, pos)| > 0
    decreases |fs| - i
  {
    if k > i {
      PayloadHoldsDataStep(fs, i + 1, NextFile(fs, i, pos), k);
    }
  }

  // ----- the whole stage -----

  datatype PackedStage = PackedStage(bytes: seq<byte>, warning: bool)

  /** Sectors taken by a header holding `records` entry records. */
  function HeaderSectors(records: nat): nat
  {
    AlignUp(4 + 8 * records, SECTOR) / SECTOR
  }

  /** The header sector count as `pack_stage` computes it, from the number
      of files alone: the trailer record is not counted. */
  function HeaderSectorsAsWritten(files: nat): nat
  {
    ((4 + files * 8 + 2047) / 2048 * 2048) / 2048
  }

  /** The sub-header (header sectors, total sectors, both `<h`), the records,
      the padding after them, and the payload. */
  function Assemble(start: nat, recs: seq<Record>, payload: seq<byte>, headerSectors: nat): Result<seq<byte>>
  {
    var body := Serialize(recs) + PadAt(start + 4 + 8 * |recs|, SECTOR) + payload;
    var totalSectors := (4 + |body|) / SECTOR;
    if headerSectors >= 0x8000 || totalSectors >= 0x8000 then Fail(FieldOverflow)
    else Ok(U16(headerSectors) + U16(totalSectors) + body)
  }

  /** Where the payload of a stage written at `start` begins. */
  function PayloadStart(start: nat, recordCount: nat): nat
  {
    AlignUp(start + 4 + 8 * recordCount, SECTOR)
  }

  /** One stage, with the header sector count taken from the records
      actually written. */
  function EncodeStage(start: nat, fs: seq<FileEntry>, enc: Encoder): Result<PackedStage>
  {
    var recs :- EncodeRecords(fs, enc);
    var payload := PayloadFrom(fs, 0, PayloadStart(start, |recs|));
    var bytes :- Assemble(start, recs, payload, HeaderSectors(|recs|));
    Ok(PackedStage(bytes, |fs| > 255))
  }

  /** One stage exactly as `pack_stage` writes it. */
  function EncodeStageAsWritten(start: nat, fs: seq<FileEntry>, enc: Encoder): Result<PackedStage>
  {
    var recs :- EncodeRecords(fs, enc);
    var payload := PayloadFrom(fs, 0, PayloadStart(start, |recs|));
    var bytes :- Assemble(start, recs, payload, HeaderSectorsAsWritten(|fs|));
    Ok(PackedStage(bytes, |fs| > 255))
  }

  /** `pack_stage` with the header sector count corrected: read the
      configuration, then write the stage with `EncodeStage`. The rest of the
      model packs stages with it; `PackStageAsWritten` is the source's
      version. */
  function PackStage(start: nat, lines: seq<string>, dir: map<string, seq<byte>>, enc: Encoder): Result<PackedStage>
  {
    var fs :- ParseConfig(lines, dir);
    EncodeStage(start, fs, enc)
  }

  /** `pack_stage` exactly as written: read the configuration, then write
      the stage with `EncodeStageAsWritten`. */
  function PackStageAsWritten(start: nat, lines: seq<string>, dir: map<string, seq<byte>>, enc: Encoder): Result<PackedStage>
  {
    var fs :- ParseConfig(lines, dir);
    EncodeStageAsWritten(start, fs, enc)
  }

  /** The header count from the file count is the count of sectors the
      records take: the source's sub-header is right for these files. */
  predicate HeaderCounted(fs: seq<FileEntry>, enc: Encoder)
  {
    EncodeRecords(fs, enc).Ok? ==> HeaderSectorsAsWritten(|fs|) == HeaderSectors(|EncodeRecords(fs, enc).value|)
  }

  /** The source's stage and the corrected one are the same exactly when
      the header count from the file count is right. */
  lemma AsWrittenAgrees(start: nat, fs: seq<FileEntry>, enc: Encoder)
    ensures HeaderCounted(fs, enc) ==> EncodeStageAsWritten(start, fs, enc) == EncodeStage(start, fs, enc)
    ensures EncodeStage(start, fs, enc).Ok? && EncodeStageAsWritten(start, fs, enc) == EncodeStage(start, fs, enc) ==>
      HeaderCounted(fs, enc)
  {
    if EncodeStage(start, fs, enc).Ok? && EncodeStageAsWritten(start, fs, enc) == EncodeStage(start, fs, enc) {
      var recs, body := StageImage(start, fs, enc);
      var recs', body' := StageImageAsWritten(start, fs, enc);
      var bs := EncodeStage(start, fs, enc).value.bytes;
      var t := U16((4 + |body|) / SECTOR) + body;
      assert bs == [] + U16(HeaderSectors(|recs|)) + t;
      assert bs == [] + U16(HeaderSectorsAsWritten(|fs|)) + t;
      U16RoundTrip(HeaderSectors(|recs|), [], t);
      U16RoundTrip(HeaderSectorsAsWritten(|fs|), [], t);
    }
  }

  /** `pack_stage` as written agrees with the corrected one whenever the
      header count from the file count is right. */
  lemma PackStageAgrees(start: nat, lines: seq<string>, dir: map<string, seq<byte>>, enc: Encoder)
    requires ParseConfig(lines, dir).Ok? ==> HeaderCounted(ParseConfig(lines, dir).value, enc)
    ensures PackStageAsWritten(start, lines, dir, enc) == PackStage(start, lines, dir, enc)
  {
    if ParseConfig(lines, dir).Ok? {
      AsWrittenAgrees(start, ParseConfig(lines, dir).value, enc);
    }
  }

  /** A stage written at a sector boundary has the bytes it has at 0. */
  lemma PackStageShift(base: nat, start: nat, lines: seq<string>, dir: map<string, seq<byte>>, enc: Encoder)
    requires base % SECTOR == 0
    ensures PackStage(base + start, lines, dir, enc) == PackStage(start, lines, dir, enc)
  {
    match ParseConfig(lines, dir)
    case Fail(_) =>
    case Ok(fs) => EncodeStageShift(base, start, fs, enc);
  }

  /** A stage packed at a sector boundary is the stage packed at offset 0. */
  lemma PackStageAnywhere(base: nat, lines: seq<string>, dir: map<string, seq<byte>>, enc: Encoder)
    requires base % SECTOR == 0
    ensures PackStage(base, lines, dir, enc) == PackStage(0, lines, dir, enc)
  {
    PackStageShift(base, 0, lines, dir, enc);
  }

  /** `pack_stage` as written, moved by whole sectors, writes the same
      bytes. */
  lemma PackStageAsWrittenShift(base: nat, start: nat, lines: seq<string>, dir: map<string, seq<byte>>, enc: Encoder)
    requires base % SECTOR == 0
    ensures PackStageAsWritten(base + start, lines, dir, enc) == PackStageAsWritten(start, lines, dir, enc)
  {
    match ParseConfig(lines, dir)
    case Fail(_) =>
    case Ok(fs) => EncodeStageAsWrittenShift(base, start, fs, enc);
  }

  /** A stage packed as written at a sector boundary is the one packed at
      offset 0. */
  lemma PackStageAsWrittenAnywhere(base: nat, lines: seq<string>, dir: map<string, seq<byte>>, enc: Encoder)
    requires base % SECTOR == 0
    ensures PackStageAsWritten(base, lines, dir, enc) == PackStageAsWritten(0, lines, dir, enc)
  {
    PackStageAsWrittenShift(base, 0, lines, dir, enc);
  }

  /** A stage packed as written fills a whole, non-zero number of sectors. */
  lemma PackStageAsWrittenSize(lines: seq<string>, dir: map<string, seq<byte>>, enc: Encoder)
    requires PackStageAsWritten(0, lines, dir, enc).Ok?
    ensures var n := |PackStageAsWritten(0, lines, dir, enc).value.bytes|;
      n % SECTOR == 0 && n > 0
  {
    StageLengthAsWritten(ParseConfig(lines, dir).value, enc);
  }

  /** A packed stage fills a whole, non-zero number of sectors. */
  lemma PackStageSize(lines: seq<string>, dir: map<string, seq<byte>>, enc: Encoder)
    requires PackStage(0, lines, dir, enc).Ok?
    ensures var n := |PackStage(0, lines, dir, enc).value.bytes|;
      n % SECTOR == 0 && n > 0
  {
    StageLength(0, ParseConfig(lines, dir).value, enc);
  }

  /** The size warning is printed exactly when the header, as computed from
      the file count, needs more than one sector. */
  lemma WarningIffHeaderOverflows(n: nat)
    ensures n > 255 <==> HeaderSectorsAsWritten(n) > 1
  {
  }

  /** The bytes of an encoded stage, piece by piece. */
  lemma StageImage(start: nat, fs: seq<FileEntry>, enc: Encoder) returns (recs: seq<Record>, body: seq<byte>)
    requires EncodeStage(start, fs, enc).Ok?
    ensures EncodeRecords(fs, enc) == Ok(recs)
    ensures body == Serialize(recs) + PadAt(start + 4 + 8 * |recs|, SECTOR) + PayloadFrom(fs, 0, PayloadStart(start, |recs|))
    ensures HeaderSectors(|recs|) < 0x8000 && (4 + |body|) / SECTOR < 0x8000
    ensures EncodeStage(start, fs, enc).value.bytes == U16(HeaderSectors(|recs|)) + U16((4 + |body|) / SECTOR) + body
  {
    recs := EncodeRecords(fs, enc).value;
    var payload := PayloadFrom(fs, 0, PayloadStart(start, |recs|));
    assert Assemble(start, recs, payload, HeaderSectors(|recs|)).Ok?;
    body := AssembleImage(start, recs, payload, HeaderSectors(|recs|));
  }

  /** What a successful assembly consists of. */
  lemma AssembleImage(start: nat, recs: seq<Record>, payload: seq<byte>, headerSectors: nat) returns (body: seq<byte>)
    requires Assemble(start, recs, payload, headerSectors).Ok?
    ensures body == Serialize(recs) + PadAt(start + 4 + 8 * |recs|, SECTOR) + payload
    ensures headerSectors < 0x8000 && (4 + |body|) / SECTOR < 0x8000
    ensures Assemble(start, recs, payload, headerSectors).value == U16(headerSectors) + U16((4 + |body|) / SECTOR) + body
  {
    body := Serialize(recs) + PadAt(start + 4 + 8 * |recs|, SECTOR) + payload;
  }

  /** The header sectors cover the records and their padding exactly. */
  lemma HeaderSectorsSpan(start: nat, records: nat)
    requires start % SECTOR == 0
    ensures HeaderSectors(records) * SECTOR == PayloadStart(start, records) - start
  {
    var a := AlignUp(4 + 8 * records, SECTOR);
    assert a == (a / SECTOR) * SECTOR + a % SECTOR;
    AlignShift(start, 4 + 8 * records, SECTOR);
  }

  /** A stage written at a sector boundary ends on one. */
  lemma StageSectors(start: nat, fs: seq<FileEntry>, recs: seq<Record>, body: seq<byte>)
    requires start % SECTOR == 0
    requires body == Serialize(recs) + PadAt(start + 4 + 8 * |recs|, SECTOR) + PayloadFrom(fs, 0, PayloadStart(start, |recs|))
    ensures (4 + |body|) % SECTOR == 0
  {
    var ps := PayloadStart(start, |recs|);
    var payload := PayloadFrom(fs, 0, ps);
    assert |body| + 4 + start == ps + |payload|;
    PayloadEndsAligned(fs, 0, ps);
    ModDiff(ps + |payload|, start, SECTOR);
  }

  /** The two sub-header fields read back as written. */
  lemma SubHeaderFields(hs: nat, ts: nat, body: seq<byte>)
    requires hs < 0x8000 && ts < 0x8000
    ensures GetI16(U16(hs) + U16(ts) + body, 0) == hs
    ensures GetI16(U16(hs) + U16(ts) + body, 2) == ts
  {
    I16RoundTrip(hs, [], U16(ts) + body);
    assert [] + U16(hs) + (U16(ts) + body) == U16(hs) + U16(ts) + body;
    I16RoundTrip(ts, U16(hs), body);
  }

  /** Written at a sector boundary, a stage is a whole number of sectors,
      its total-sectors field is that number, and its header-sectors field
      says where the payload starts. */
  lemma StageLength(start: nat, fs: seq<FileEntry>, enc: Encoder)
    requires start % SECTOR == 0 && EncodeStage(start, fs, enc).Ok?
    ensures var bs := EncodeStage(start, fs, enc).value.bytes;
      var recs := EncodeRecords(fs, enc).value;
      && |bs| % SECTOR == 0
      && GetI16(bs, 2) == |bs| / SECTOR
      && GetI16(bs, 0) * SECTOR == PayloadStart(start, |recs|) - start
  {
    var recs, body := StageImage(start, fs, enc);
    StageSectors(start, fs, recs, body);
    SubHeaderFields(HeaderSectors(|recs|), (4 + |body|) / SECTOR, body);
    HeaderSectorsSpan(start, |recs|);
  }

  // ----- the header sector count as written -----

  lemma {:induction false} RunEndsAfterCache(fs: seq<FileEntry>, i: nat)
    requires i < |fs| && fs[i].section == Cache
    ensures RunEndsFrom(fs, i) >= 1
    decreases |fs| - i
  {
    if !EndsCacheRun(fs, i) {
      RunEndsAfterCache(fs, i + 1);
    }
  }

  lemma {:induction false} RunEndsGrow(fs: seq<FileEntry>, j: nat, i: nat)
    requires j <= i <= |fs|
    ensures RunEndsFrom(fs, j) >= RunEndsFrom(fs, i)
    decreases i - j
  {
    if j < i {
      RunEndsGrow(fs, j + 1, i);
    }
  }

  /** With 255 files one of which is a cache file, `pack_stage` writes 256
      records (the trailer included), which spill into a second sector, but
      its header field still says 1: a reader that trusts the field starts
      the payload inside the records. */
  lemma HeaderUndercount(start: nat, fs: seq<FileEntry>, enc: Encoder)
    requires EncodeStageAsWritten(start, fs, enc).Ok?
    requires |fs| == 255 && exists i :: 0 <= i < |fs| && fs[i].section == Cache
    ensures var bs := EncodeStageAsWritten(start, fs, enc).value.bytes;
      var recs := EncodeRecords(fs, enc).value;
      && GetI16(bs, 0) == 1
      && start + GetI16(bs, 0) * SECTOR < PayloadStart(start, |recs|)
  {
    var recs, body := StageImageAsWritten(start, fs, enc);
    RecordCount(fs, enc);
    assert HeaderSectorsAsWritten(|fs|) == 1;
    SubHeaderFields(1, (4 + |body|) / SECTOR, body);
  }

  /** The bytes `pack_stage` writes, piece by piece. */
  lemma StageImageAsWritten(start: nat, fs: seq<FileEntry>, enc: Encoder) returns (recs: seq<Record>, body: seq<byte>)
    requires EncodeStageAsWritten(start, fs, enc).Ok?
    ensures EncodeRecords(fs, enc) == Ok(recs)
    ensures body == Serialize(recs) + PadAt(start + 4 + 8 * |recs|, SECTOR) + PayloadFrom(fs, 0, PayloadStart(start, |recs|))
    ensures HeaderSectorsAsWritten(|fs|) < 0x8000 && (4 + |body|) / SECTOR < 0x8000
    ensures EncodeStageAsWritten(start, fs, enc).value.bytes == U16(HeaderSectorsAsWritten(|fs|)) + U16((4 + |body|) / SECTOR) + body
  {
    recs := EncodeRecords(fs, enc).value;
    var payload := PayloadFrom(fs, 0, PayloadStart(start, |recs|));
    assert Assemble(start, recs, payload, HeaderSectorsAsWritten(|fs|)).Ok?;
    body := AssembleImage(start, recs, payload, HeaderSectorsAsWritten(|fs|));
  }


  /** The stage as written, at the start of a file, fills whole sectors,
      and its second sub-header field counts them. */
  lemma StageLengthAsWritten(fs: seq<FileEntry>, enc: Encoder)
    requires EncodeStageAsWritten(0, fs, enc).Ok?
    ensures var bs := EncodeStageAsWritten(0, fs, enc).value.bytes;
      |bs| % SECTOR == 0 && |bs| > 0 && GetI16(bs, 2) == |bs| / SECTOR
  {
    var recs, body := StageImageAsWritten(0, fs, enc);
    StageSectors(0, fs, recs, body);
    SubHeaderFields(HeaderSectorsAsWritten(|fs|), (4 + |body|) / SECTOR, body);
  }

  /** A stage with a cache file has at least one record more than files. */
  lemma RecordCount(fs: seq<FileEntry>, enc: Encoder)
    requires EncodeRecords(fs, enc).Ok?
    requires exists i :: 0 <= i < |fs| && fs[i].section == Cache
    ensures |EncodeRecords(fs, enc).value| >= |fs| + 1
  {
    EncodeRecordsLayout(fs, enc);
    LayoutShape(fs, 0, enc);
    var i :| 0 <= i < |fs| && fs[i].section == Cache;
    RunEndsAfterCache(fs, i);
    RunEndsGrow(fs, 0, i);
  }

  // ----- position independence -----

  lemma PadShift(base: nat, cur: nat)
    requires base % SECTOR == 0
    ensures PadAt(base + cur, SECTOR) == PadAt(cur, SECTOR)
  {
    AlignShift(base, cur, SECTOR);
  }

  /** The payload does not depend on where the stage starts, as long as it
      moves by whole sectors. */
  lemma PayloadShift(fs: seq<FileEntry>, i: nat, base: nat, pos: nat)
    requires i <= |fs| && base % SECTOR == 0
    ensures PayloadFrom(fs, i, base + pos) == PayloadFrom(fs, i, pos)
  {
    PayloadShiftFrom(fs, i, base, pos);
  }

  ghost predicate SamePayload(fs: seq<FileEntry>, i: nat, a: nat, b: nat)
    requires i <= |fs|
  {
    PayloadFrom(fs, i, a) == PayloadFrom(fs, i, b)
  }

  lemma {:induction false} PayloadShiftFrom(fs: seq<FileEntry>, i: nat, base: nat, pos: nat)
    requires i <= |fs| && base % SECTOR == 0
    ensures SamePayload(fs, i, base + pos, pos)
    decreases |fs| - i
  {
    if i < |fs| {
      PayloadShiftFrom(fs, i + 1, base, NextFile(fs, i, pos));
      PayloadShiftStep(fs, i, base, pos);
    }
  }

  /** One step of `PayloadShift`: file `i`'s padding is the same at both
      cursors, so the payloads agree once the rest does. */
  lemma PayloadShiftStep(fs: seq<FileEntry>, i: nat, base: nat, pos: nat)
    requires i < |fs| && base % SECTOR == 0
    requires SamePayload(fs, i + 1, base + NextFile(fs, i, pos), NextFile(fs, i, pos))
    ensures SamePayload(fs, i, base + pos, pos)
  {
    PadAfterShift(fs, i, base, pos);
  }

  lemma PadAfterShift(fs: seq<FileEntry>, i: nat, base: nat, pos: nat)
    requires i < |fs| && base % SECTOR == 0
    ensures PadAfter(fs, i, base + pos) == PadAfter(fs, i, pos)
    ensures NextFile(fs, i, base + pos) == base + NextFile(fs, i, pos)
  {
    PadShift(base, pos + |fs[i].data|);
  }

  /** Moving a stage by whole sectors does not change its bytes. */
  lemma EncodeStageShift(base: nat, start: nat, fs: seq<FileEntry>, enc: Encoder)
    requires base % SECTOR == 0
    ensures EncodeStage(base + start, fs, enc) == EncodeStage(start, fs, enc)
  {
    if EncodeRecords(fs, enc).Ok? {
      var recs := EncodeRecords(fs, enc).value;
      var ps := PayloadStart(start, |recs|);
      PayloadStartShift(base, start, |recs|);
      PayloadShift(fs, 0, base, ps);
      var payload := PayloadFrom(fs, 0, ps);
      assert PayloadFrom(fs, 0, PayloadStart(base + start, |recs|)) == payload;
      AssembleShift(base, start, recs, payload, HeaderSectors(|recs|));
    }
  }

  /** The same for the stage as written. */
  lemma EncodeStageAsWrittenShift(base: nat, start: nat, fs: seq<FileEntry>, enc: Encoder)
    requires base % SECTOR == 0
    ensures EncodeStageAsWritten(base + start, fs, enc) == EncodeStageAsWritten(start, fs, enc)
  {
    if EncodeRecords(fs, enc).Ok? {
      var recs := EncodeRecords(fs, enc).value;
      var ps := PayloadStart(start, |recs|);
      PayloadStartShift(base, start, |recs|);
      PayloadShift(fs, 0, base, ps);
      var payload := PayloadFrom(fs, 0, ps);
      assert PayloadFrom(fs, 0, PayloadStart(base + start, |recs|)) == payload;
      AssembleShift(base, start, recs, payload, HeaderSectorsAsWritten(|fs|));
    }
  }

  lemma PayloadStartShift(base: nat, start: nat, n: nat)
    requires base % SECTOR == 0
    ensures PayloadStart(base + start, n) == base + PayloadStart(start, n)
  {
    AlignShift(base, start + 4 + 8 * n, SECTOR);
  }

  lemma AssembleShift(base: nat, start: nat, recs: seq<Record>, payload: seq<byte>, headerSectors: nat)
    requires base % SECTOR == 0
    ensures Assemble(base + start, recs, payload, headerSectors) == Assemble(start, recs, payload, headerSectors)
  {
    PadShift(base, start + 4 + 8 * |recs|);
  }
}
