/** The container round trip: `unpack_dir` on what `pack_dir` wrote finds
    every stage under its row and recovers it as the stage round trip
    does. */
module ContainerRoundTrip {
  import opened Outcome
  import opened Bytes
  import opened Config
  import opened Records
  import opened StagePack
  import opened StageUnpack
  import opened StageRoundTrip
  import opened Dictionary
  import opened Container

  /** The conditions under which a stage's files survive the trip: they
      encode, no cached file is a `.bin`, and every record's name
      resolves. */
  predicate FilesRoundTrip(fs: seq<FileEntry>, enc: Encoder, table: map<string, string>)
  {
    && EncodeStage(0, fs, enc).Ok?
    && NoCachedBin(fs) && Resolvable(fs, enc, table)
  }

  /** The 8 bytes after the stage's records, whose tag byte stops the
      record loop, lie at or before `buf`'s end when the stage starts at
      `p`. */
  predicate RecordsEndBefore(buf: seq<byte>, p: nat, src: StageSource, enc: Encoder)
  {
    && ParseConfig(src.config, src.files).Ok?
    && EncodeRecords(ParseConfig(src.config, src.files).value, enc).Ok?
    && p + 8 * |EncodeRecords(ParseConfig(src.config, src.files).value, enc).value| + 12 <= |buf|
  }

  /** The same bytes lie inside the stage's own image. Nothing follows the
      last stage of a container, so it must hold them itself; every other
      stage has the next stage after it. */
  predicate EndsInside(src: StageSource, enc: Encoder)
  {
    && Packed(src, enc).Ok?
    && RecordsEndBefore(Packed(src, enc).value.bytes, 0, src, enc)
  }

  /** The same for a stage source: its configuration parses, and the files
      it lists survive. */
  predicate StageRoundTrips(src: StageSource, enc: Encoder, table: map<string, string>)
  {
    ParseConfig(src.config, src.files).Ok? && FilesRoundTrip(ParseConfig(src.config, src.files).value, enc, table)
  }

  /** `d` gives back the stage `src` describes. */
  predicate Recovers(d: StageDump, src: StageSource, enc: Encoder, table: map<string, string>)
  {
    ParseConfig(src.config, src.files).Ok? && RecoversFiles(d, ParseConfig(src.config, src.files).value, enc, table)
  }

  /** `unpack_stage` at `p` gives back the stage `src` describes. */
  predicate ReadsBack(buf: seq<byte>, p: nat, src: StageSource, enc: Encoder, table: map<string, string>)
  {
    UnpackStage(buf, p, table).Ok? && Recovers(UnpackStage(buf, p, table).value, src, enc, table)
  }

  /** A stage image found whole at a sector boundary of the container reads
      back as its files, whatever surrounds it. */
  lemma FilesAtRoundTrip(buf: seq<byte>, p: nat, fs: seq<FileEntry>, enc: Encoder, table: map<string, string>)
    requires p % SECTOR == 0 && FilesRoundTrip(fs, enc, table)
    requires At(buf, p, EncodeStage(0, fs, enc).value.bytes)
    requires p + 8 * |EncodeRecords(fs, enc).value| + 12 <= |buf|
    ensures UnpackStage(buf, p, table).Ok? && RecoversFiles(UnpackStage(buf, p, table).value, fs, enc, table)
  {
    EncodeStageShift(p, 0, fs, enc);
    var b := EncodeStage(p, fs, enc).value.bytes;
    var pre, post := buf[..p], buf[p + |b|..];
    AtPieces(buf, p, b);
    StageRoundTrip.StageRoundTrip(pre, fs, enc, table, post);
  }

  /** A buffer holding `b` at `p` is what comes before, `b`, and what
      comes after. */
  lemma AtPieces(buf: seq<byte>, p: nat, b: seq<byte>)
    requires At(buf, p, b)
    ensures |buf[..p]| == p && buf == buf[..p] + b + buf[p + |b|..]
  {
    assert buf == buf[..p] + buf[p..p + |b|] + buf[p + |b|..];
  }

  lemma StageAtRoundTrip(buf: seq<byte>, p: nat, src: StageSource, enc: Encoder, table: map<string, string>)
    requires p % SECTOR == 0 && StageRoundTrips(src, enc, table)
    requires Packed(src, enc).Ok? && At(buf, p, Packed(src, enc).value.bytes)
    requires RecordsEndBefore(buf, p, src, enc)
    ensures UnpackStage(buf, p, table).Ok? && Recovers(UnpackStage(buf, p, table).value, src, enc, table)
  {
    var fs := ParseConfig(src.config, src.files).value;
    assert Packed(src, enc) == EncodeStage(0, fs, enc);
    FilesAtRoundTrip(buf, p, fs, enc, table);
  }

  /** The stage loop of `unpack_dir` succeeds exactly when every stage
      unpacks, and then yields the stages in row order. */
  lemma {:induction false} UnpackStagesAll(buf: seq<byte>, rows: seq<Row>, table: map<string, string>)
    ensures UnpackStages(buf, rows, table).Ok? <==>
      forall j :: 0 <= j < |rows| ==> UnpackStage(buf, rows[j].offset, table).Ok?
    ensures UnpackStages(buf, rows, table).Ok? ==>
      var ds := UnpackStages(buf, rows, table).value;
      |ds| == |rows| && forall j :: 0 <= j < |rows| ==> ds[j] == UnpackStage(buf, rows[j].offset, table).value
    decreases |rows|
  {
    if rows != [] {
      UnpackStagesAll(buf, rows[1..], table);
      forall j | 0 < j < |rows|
        ensures rows[1..][j - 1] == rows[j]
      {
      }
    }
  }

  /** `unpack_dir` once the table size, the rows and the stages have been
      read. */
  lemma UnpackDirParts(buf: seq<byte>, dictLines: seq<string>, k: nat, rows: seq<Row>, stages: seq<StageDump>)
    requires |buf| >= 4 && GetU32(buf, 0) == ROW_SIZE * k
    requires ReadTable(buf, 4, k) == Ok(rows)
    requires UnpackStages(buf, rows, BuildDictionary(dictLines)) == Ok(stages)
    ensures UnpackDir(buf, dictLines) == Ok(DirDump(RowNames(rows), stages))
  {
    DivModUnique(ROW_SIZE * k, ROW_SIZE, k, 0);
  }

  /** Every row names the sector its stage was written at, so every stage
      reads back from there. */
  lemma RowsRecover(buf: seq<byte>, rows: seq<Row>, srcs: seq<StageSource>, enc: Encoder, table: map<string, string>,
                    images: seq<seq<byte>>, sizes: seq<nat>, off: nat)
    requires |sizes| == |srcs| && RowsMatch(rows, Names(srcs), sizes, off)
    requires |images| == |srcs|
    requires forall j :: 0 <= j < |srcs| ==> Packed(srcs[j], enc).Ok? && Packed(srcs[j], enc).value.bytes == images[j]
    requires Placed(buf, images, sizes, off * SECTOR)
    requires forall j :: 0 <= j < |srcs| ==> StageRoundTrips(srcs[j], enc, table)
    requires srcs != [] ==> EndsInside(srcs[|srcs| - 1], enc)
    ensures forall j :: 0 <= j < |rows| ==> UnpackStage(buf, rows[j].offset, table).Ok?
    ensures forall j :: 0 <= j < |rows| ==> Recovers(UnpackStage(buf, rows[j].offset, table).value, srcs[j], enc, table)
  {
    forall j | 0 <= j < |rows|
      ensures UnpackStage(buf, rows[j].offset, table).Ok?
      ensures Recovers(UnpackStage(buf, rows[j].offset, table).value, srcs[j], enc, table)
    {
      RowRecovers(buf, rows, srcs, enc, table, images, sizes, off, j);
    }
  }

  /** Row `j` names the sector stage `j` was written at, so it reads back
      from there. */
  lemma RowRecovers(buf: seq<byte>, rows: seq<Row>, srcs: seq<StageSource>, enc: Encoder, table: map<string, string>,
                    images: seq<seq<byte>>, sizes: seq<nat>, off: nat, j: nat)
    requires |sizes| == |srcs| && RowsMatch(rows, Names(srcs), sizes, off)
    requires |images| == |srcs|
    requires forall j :: 0 <= j < |srcs| ==> Packed(srcs[j], enc).Ok? && Packed(srcs[j], enc).value.bytes == images[j]
    requires Placed(buf, images, sizes, off * SECTOR)
    requires forall j :: 0 <= j < |srcs| ==> StageRoundTrips(srcs[j], enc, table)
    requires srcs != [] ==> EndsInside(srcs[|srcs| - 1], enc)
    requires j < |rows|
    ensures UnpackStage(buf, rows[j].offset, table).Ok?
    ensures Recovers(UnpackStage(buf, rows[j].offset, table).value, srcs[j], enc, table)
  {
    RowAt(rows, srcs, images, sizes, buf, off, j);
    StageAtRow(buf, srcs, enc, table, images, sizes, off, j);
  }

  /** Stage `j`, placed where the rows count it, reads back. */
  lemma StageAtRow(buf: seq<byte>, srcs: seq<StageSource>, enc: Encoder, table: map<string, string>,
                   images: seq<seq<byte>>, sizes: seq<nat>, off: nat, j: nat)
    requires |sizes| == |srcs| && |images| == |srcs| && j < |srcs|
    requires Placed(buf, images, sizes, off * SECTOR)
    requires Packed(srcs[j], enc).Ok? && Packed(srcs[j], enc).value.bytes == images[j]
    requires j + 1 < |srcs| ==> Packed(srcs[j + 1], enc).Ok? && Packed(srcs[j + 1], enc).value.bytes == images[j + 1]
    requires j + 1 == |srcs| ==> EndsInside(srcs[j], enc)
    requires StageRoundTrips(srcs[j], enc, table)
    ensures ReadsBack(buf, (off + SectorsBefore(sizes, j)) * SECTOR, srcs[j], enc, table)
  {
    var s := SectorsBefore(sizes, j);
    SectorOffset(off, s);
    StageEndsBefore(buf, srcs, enc, images, sizes, off, j);
    StageAtSector(buf, off + s, srcs[j], enc, table, images[j]);
  }

  /** What row `j` and the placement say about stage `j`. */
  lemma RowAt(rows: seq<Row>, srcs: seq<StageSource>, images: seq<seq<byte>>, sizes: seq<nat>, buf: seq<byte>, off: nat, j: nat)
    requires |sizes| == |srcs| && RowsMatch(rows, Names(srcs), sizes, off)
    requires |images| == |srcs| && Placed(buf, images, sizes, off * SECTOR) && j < |rows|
    ensures rows[j].offset == (off + SectorsBefore(sizes, j)) * SECTOR
    ensures At(buf, off * SECTOR + SECTOR * SectorsBefore(sizes, j), images[j])
  {
  }

  /** Stage `j`'s records end at least 8 bytes before the container does:
      the last stage holds those bytes itself, every other stage is followed
      by the next one, which starts right after it and is longer than 8
      bytes. */
  lemma StageEndsBefore(buf: seq<byte>, srcs: seq<StageSource>, enc: Encoder, images: seq<seq<byte>>, sizes: seq<nat>, off: nat, j: nat)
    requires |sizes| == |srcs| && |images| == |srcs| && j < |srcs|
    requires Placed(buf, images, sizes, off * SECTOR)
    requires Packed(srcs[j], enc).Ok? && Packed(srcs[j], enc).value.bytes == images[j]
    requires j + 1 < |srcs| ==> Packed(srcs[j + 1], enc).Ok? && Packed(srcs[j + 1], enc).value.bytes == images[j + 1]
    requires j + 1 == |srcs| ==> EndsInside(srcs[j], enc)
    ensures RecordsEndBefore(buf, off * SECTOR + SECTOR * SectorsBefore(sizes, j), srcs[j], enc)
  {
    var p := off * SECTOR + SECTOR * SectorsBefore(sizes, j);
    if j + 1 < |srcs| {
      SectorsBeforeNext(sizes, j);
      assert At(buf, off * SECTOR + SECTOR * SectorsBefore(sizes, j + 1), images[j + 1]);
      StageFollowed(buf, srcs[j], srcs[j + 1], enc, images[j], images[j + 1], off * SECTOR, SectorsBefore(sizes, j), sizes[j]);
    } else {
      RecordsEndInOwn(buf, p, srcs[j], enc, images[j]);
    }
  }

  /** A stage with the next one placed the stage's sectors after it. */
  lemma StageFollowed(buf: seq<byte>, src: StageSource, next: StageSource, enc: Encoder, img: seq<byte>, img': seq<byte>,
                      base: nat, s: nat, size: nat)
    requires Packed(src, enc).Ok? && Packed(src, enc).value.bytes == img
    requires Packed(next, enc).Ok? && Packed(next, enc).value.bytes == img'
    requires size == |img| && At(buf, base + SECTOR * s, img) && At(buf, base + SECTOR * (s + SectorsOf(size)), img')
    ensures RecordsEndBefore(buf, base + SECTOR * s, src, enc)
  {
    PackedRecords(src, enc);
    PackedRecords(next, enc);
    SectorsOfAligned(size);
  }

  /** A stage that holds the bytes after its records has its record-loop
      terminator inside the container. */
  lemma RecordsEndInOwn(buf: seq<byte>, p: nat, src: StageSource, enc: Encoder, img: seq<byte>)
    requires Packed(src, enc).Ok? && Packed(src, enc).value.bytes == img
    requires At(buf, p, img) && EndsInside(src, enc)
    ensures RecordsEndBefore(buf, p, src, enc)
  {
  }

  /** A packed stage holds its sub-header, its records and at least 4
      bytes of padding, in a whole number of sectors. */
  lemma PackedRecords(src: StageSource, enc: Encoder)
    requires Packed(src, enc).Ok?
    ensures ParseConfig(src.config, src.files).Ok?
    ensures var fs := ParseConfig(src.config, src.files).value;
      var n := |Packed(src, enc).value.bytes|;
      && EncodeRecords(fs, enc).Ok?
      && 8 * |EncodeRecords(fs, enc).value| + 8 <= n && n % SECTOR == 0
  {
    var fs := ParseConfig(src.config, src.files).value;
    var recs, body := StageImage(0, fs, enc);
    RecordPadding(0, |recs|);
    PackStageSize(src.config, src.files, enc);
  }

  /** Sector `off + s` starts `s` sectors after sector `off`. */
  lemma SectorOffset(off: nat, s: nat)
    ensures (off + s) * SECTOR == off * SECTOR + SECTOR * s
  {
  }

  lemma StageAtSector(buf: seq<byte>, s: nat, src: StageSource, enc: Encoder, table: map<string, string>, img: seq<byte>)
    requires At(buf, s * SECTOR, img)
    requires Packed(src, enc).Ok? && Packed(src, enc).value.bytes == img
    requires StageRoundTrips(src, enc, table) && RecordsEndBefore(buf, s * SECTOR, src, enc)
    ensures ReadsBack(buf, s * SECTOR, src, enc, table)
  {
    DivModUnique(s * SECTOR, SECTOR, s, 0);
    StageAtRoundTrip(buf, s * SECTOR, src, enc, table);
  }

  /** Reading a container laid out as `pack_dir` lays it out: the rows name
      every stage's sector and every stage there reads back. */
  lemma UnpackPlaced(buf: seq<byte>, srcs: seq<StageSource>, enc: Encoder, dictLines: seq<string>,
                     images: seq<seq<byte>>, sizes: seq<nat>, off: nat)
    requires |buf| >= 4 && GetU32(buf, 0) == ROW_SIZE * |srcs|
    requires |sizes| == |srcs| && TableFrom(Names(srcs), sizes, off).Ok?
    requires At(buf, 4, TableFrom(Names(srcs), sizes, off).value)
    requires |images| == |srcs|
    requires forall j :: 0 <= j < |srcs| ==> Packed(srcs[j], enc).Ok? && Packed(srcs[j], enc).value.bytes == images[j]
    requires Placed(buf, images, sizes, off * SECTOR)
    requires forall j :: 0 <= j < |srcs| ==> StageRoundTrips(srcs[j], enc, BuildDictionary(dictLines))
    requires srcs != [] ==> EndsInside(srcs[|srcs| - 1], enc)
    ensures UnpackDir(buf, dictLines).Ok?
    ensures var d := UnpackDir(buf, dictLines).value;
      && |d.names| == |srcs| && |d.stages| == |srcs|
      && forall j :: 0 <= j < |srcs| ==>
        d.names[j] == StoredName(srcs[j].name) && Recovers(d.stages[j], srcs[j], enc, BuildDictionary(dictLines))
  {
    var k := |srcs|;
    var table := BuildDictionary(dictLines);
    TableRoundTrip(Names(srcs), sizes, off, buf, 4);
    var rows := ReadTable(buf, 4, k).value;
    RowsRecover(buf, rows, srcs, enc, table, images, sizes, off);
    UnpackStagesAll(buf, rows, table);
    var stages := UnpackStages(buf, rows, table).value;
    UnpackDirParts(buf, dictLines, k, rows, stages);
  }

  /** The container round trip: unpacking what `pack_dir` wrote, with both
      corrections, gives back the stage list (each name as the table stores
      it) and recovers every stage whose files survive the stage round
      trip, provided the last stage holds the bytes after its records. */
  lemma DirRoundTrip(srcs: seq<StageSource>, enc: Encoder, dictLines: seq<string>)
    requires PackDir(srcs, enc).Ok?
    requires forall j :: 0 <= j < |srcs| ==> StageRoundTrips(srcs[j], enc, BuildDictionary(dictLines))
    requires srcs != [] ==> EndsInside(srcs[|srcs| - 1], enc)
    ensures UnpackDir(PackDir(srcs, enc).value, dictLines).Ok?
    ensures var d := UnpackDir(PackDir(srcs, enc).value, dictLines).value;
      && |d.names| == |srcs| && |d.stages| == |srcs|
      && forall j :: 0 <= j < |srcs| ==>
        d.names[j] == StoredName(srcs[j].name) && Recovers(d.stages[j], srcs[j], enc, BuildDictionary(dictLines))
  {
    PackerStable(enc);
    var buf, images, sizes := DirLayout(PackerOf(enc), srcs);
    forall j | 0 <= j < |srcs|
      ensures Packed(srcs[j], enc).Ok? && Packed(srcs[j], enc).value.bytes == images[j]
    {
      assert PackerOf(enc)(0, srcs[j]) == Packed(srcs[j], enc);
    }
    var first := FirstStage(|srcs|);
    assert first == (first / SECTOR) * SECTOR;
    UnpackPlaced(buf, srcs, enc, dictLines, images, sizes, first / SECTOR);
  }

  /** The same round trip for the source's `pack_dir` and `pack_stage`
      as they stand, for up to 170 stages whose header counts are right. */
  lemma DirRoundTripAsWritten(srcs: seq<StageSource>, enc: Encoder, dictLines: seq<string>)
    requires |srcs| <= 170 && PackDirOriginal(srcs, enc).Ok?
    requires forall j :: 0 <= j < |srcs| ==>
      StageRoundTrips(srcs[j], enc, BuildDictionary(dictLines)) && StageHeaderCounted(srcs[j], enc)
    requires srcs != [] ==> EndsInside(srcs[|srcs| - 1], enc)
    ensures UnpackDir(PackDirOriginal(srcs, enc).value, dictLines).Ok?
    ensures var d := UnpackDir(PackDirOriginal(srcs, enc).value, dictLines).value;
      && |d.names| == |srcs| && |d.stages| == |srcs|
      && forall j :: 0 <= j < |srcs| ==>
        d.names[j] == StoredName(srcs[j].name) && Recovers(d.stages[j], srcs[j], enc, BuildDictionary(dictLines))
  {
    PackDirOriginalAgrees(srcs, enc);
    DirRoundTrip(srcs, enc, dictLines);
  }
}
