/** The stage container (`pack_dir` / `unpack_dir`): a 4-byte table size,
    one 12-byte row per stage (an eight-byte NUL-padded ASCII name and the
    stage's start sector), then the stages themselves, each on a sector
    boundary, in stage-list order. */
module Container {
  import opened Outcome
  import opened Bytes
  import opened Config
  import opened Records
  import opened StagePack
  import opened StageDecode
  import opened StageUnpack
  import opened Dictionary
  import opened StageRoundTrip

  /** One line of the stage list with the stage directory it names: the
      lines of its `data.cnf` and its files' contents by file name. */
  datatype StageSource = StageSource(name: string, config: seq<string>, files: map<string, seq<byte>>)

  /** A stage-table row as read back: the name and the byte offset. */
  datatype Row = Row(name: string, offset: nat)

  /** What unpacking a container produces: the stage list, in table order,
      and the dump of every stage. */
  datatype DirDump = DirDump(names: seq<string>, stages: seq<StageDump>)

  const ROW_SIZE: nat := 12
  const NAME_SIZE: nat := 8

  // ----- stage names -----

  predicate IsAscii(s: string)
  {
    forall i :: 0 <= i < |s| ==> s[i] as int < 0x80
  }

  function AsciiBytes(s: string): (bs: seq<byte>)
    requires IsAscii(s)
    ensures |bs| == |s| && forall i :: 0 <= i < |s| ==> bs[i] == s[i] as int
  {
    seq(|s|, i requires 0 <= i < |s| => s[i] as int)
  }

  /** `struct.pack("8s", name.encode("ascii"))`: the name's bytes cut or
      NUL-padded to eight. */
  function Name8(name: string): Result<seq<byte>>
  {
    if !IsAscii(name) then Fail(NotAscii)
    else
      var bs := AsciiBytes(name);
      Ok(if |bs| >= NAME_SIZE then bs[..NAME_SIZE] else bs + Zeros(NAME_SIZE - |bs|))
  }

  /** `s.rstrip("\x00")`: the longest prefix that does not end in NUL and
      leaves only NULs behind. */
  function RStripNul(s: string): (r: string)
    ensures |r| <= |s| && r == s[..|r|]
    ensures r == [] || r[|r| - 1] != '\0'
    ensures forall i :: |r| <= i < |s| ==> s[i] == '\0'
    decreases |s|
  {
    if s != [] && s[|s| - 1] == '\0' then RStripNul(s[..|s| - 1]) else s
  }

  /** `raw.decode("ascii").rstrip("\x00")` */
  function NameFrom8(raw: seq<byte>): Result<string>
  {
    if exists i :: 0 <= i < |raw| && raw[i] >= 0x80 then Fail(NotAscii)
    else Ok(RStripNul(seq(|raw|, i requires 0 <= i < |raw| => raw[i] as char)))
  }

  /** A name the table stores without loss: ASCII, at most eight
      characters, and not ending in NUL. */
  predicate TableName(name: string)
  {
    IsAscii(name) && |name| <= NAME_SIZE && (name == [] || name[|name| - 1] != '\0')
  }

  /** The name a stage comes back under: cut to eight characters, then
      stripped of trailing NULs. */
  function StoredName(name: string): string
  {
    RStripNul(if |name| <= NAME_SIZE then name else name[..NAME_SIZE])
  }

  function Nuls(n: nat): (z: string)
    ensures |z| == n && forall i :: 0 <= i < n ==> z[i] == '\0'
  {
    seq(n, _ => '\0')
  }

  lemma {:induction false} RStripNulPadded(s: string, n: nat)
    ensures RStripNul(s + Nuls(n)) == RStripNul(s)
    decreases n
  {
    if n == 0 {
      assert s + Nuls(0) == s;
    } else {
      var t := s + Nuls(n);
      assert t[|t| - 1] == '\0';
      assert t[..|t| - 1] == s + Nuls(n - 1);
      RStripNulPadded(s, n - 1);
    }
  }

  /** A name packs exactly when it is ASCII, and reads back as its stored
      form; a table name reads back unchanged. */
  lemma NameRoundTrip(name: string)
    ensures Name8(name).Ok? <==> IsAscii(name)
    ensures Name8(name).Ok? ==> |Name8(name).value| == NAME_SIZE && NameFrom8(Name8(name).value) == Ok(StoredName(name))
    ensures TableName(name) ==> NameFrom8(Name8(name).value) == Ok(name)
  {
    if IsAscii(name) {
      NameBack(name);
    }
  }

  /** An ASCII name comes back from its eight bytes cut and stripped. */
  lemma NameBack(name: string)
    requires IsAscii(name)
    ensures Name8(name).Ok? && |Name8(name).value| == NAME_SIZE
    ensures NameFrom8(Name8(name).value) == Ok(StoredName(name))
  {
    var raw := Name8(name).value;
    var cut := if |name| <= NAME_SIZE then name else name[..NAME_SIZE];
    var chars := seq(|raw|, i requires 0 <= i < |raw| => raw[i] as char);
    assert chars == cut + Nuls(NAME_SIZE - |cut|);
    RStripNulPadded(cut, NAME_SIZE - |cut|);
  }

  // ----- the stage table -----

  /** The sectors a stage of `size` bytes moves the next offset by. */
  function SectorsOf(size: nat): nat
  {
    (size + (SECTOR - 1)) / SECTOR
  }

  /** The sectors taken by the first `m` stages. */
  function SectorsBefore(sizes: seq<nat>, m: nat): nat
    requires m <= |sizes|
    decreases m
  {
    if m == 0 then 0 else SectorsOf(sizes[0]) + SectorsBefore(sizes[1..], m - 1)
  }

  /** The sectors before stage `m + 1` are those before stage `m` and
      stage `m`'s own. */
  lemma {:induction false} SectorsBeforeNext(sizes: seq<nat>, m: nat)
    requires m < |sizes|
    ensures SectorsBefore(sizes, m + 1) == SectorsBefore(sizes, m) + SectorsOf(sizes[m])
    decreases m
  {
    if m > 0 {
      SectorsBeforeNext(sizes[1..], m - 1);
    }
  }

  /** The table rows `pack_dir` writes after all stages: the name, then the
      start sector, which begins at `off` and grows by each stage's sectors. */
  function TableFrom(names: seq<string>, sizes: seq<nat>, off: nat): Result<seq<byte>>
    requires |sizes| == |names|
    decreases |names|
  {
    if names == [] then Ok([])
    else
      var name :- Name8(names[0]);
      if off >= 0x1_0000_0000 then Fail(FieldOverflow)
      else
        var rest :- TableFrom(names[1..], sizes[1..], off + SectorsOf(sizes[0]));
        Ok(name + U32(off) + rest)
  }

  /** `n` rows read from `pos` on, each as its name and its byte offset. */
  function ReadTable(buf: seq<byte>, pos: nat, n: nat): Result<seq<Row>>
    decreases n
  {
    if n == 0 then Ok([])
    else if pos + NAME_SIZE > |buf| then Fail(Truncated)
    else
      var name :- NameFrom8(buf[pos..pos + NAME_SIZE]);
      if pos + ROW_SIZE > |buf| then Fail(Truncated)
      else
        var rest :- ReadTable(buf, pos + ROW_SIZE, n - 1);
        Ok([Row(name, GetU32(buf, pos + NAME_SIZE) * SECTOR)] + rest)
  }

  /** Every name is ASCII and every start sector fits its 32-bit field. */
  predicate RowsFit(names: seq<string>, sizes: seq<nat>, off: nat)
    requires |sizes| == |names|
  {
    forall m :: 0 <= m < |names| ==> IsAscii(names[m]) && off + SectorsBefore(sizes, m) < 0x1_0000_0000
  }

  lemma RowsFitStep(names: seq<string>, sizes: seq<nat>, off: nat)
    requires |sizes| == |names| && names != []
    ensures RowsFit(names, sizes, off) <==>
      IsAscii(names[0]) && off < 0x1_0000_0000 && RowsFit(names[1..], sizes[1..], off + SectorsOf(sizes[0]))
  {
    var next := off + SectorsOf(sizes[0]);
    if IsAscii(names[0]) && off < 0x1_0000_0000 && RowsFit(names[1..], sizes[1..], next) {
      forall m | 0 < m < |names|
        ensures IsAscii(names[m]) && off + SectorsBefore(sizes, m) < 0x1_0000_0000
      {
        assert names[m] == names[1..][m - 1];
      }
    }
    if RowsFit(names, sizes, off) {
      forall m | 0 <= m < |names| - 1
        ensures IsAscii(names[1..][m]) && next + SectorsBefore(sizes[1..], m) < 0x1_0000_0000
      {
        assert names[1..][m] == names[m + 1];
        assert SectorsBefore(sizes, m + 1) == SectorsOf(sizes[0]) + SectorsBefore(sizes[1..], m);
      }
    }
  }

  /** The table is written exactly when every name is ASCII and every start
      sector fits its 32-bit field; it then has one 12-byte row per stage. */
  lemma {:induction false} TableFromSucceeds(names: seq<string>, sizes: seq<nat>, off: nat)
    requires |sizes| == |names|
    ensures TableFrom(names, sizes, off).Ok? <==> RowsFit(names, sizes, off)
    ensures TableFrom(names, sizes, off).Ok? ==> |TableFrom(names, sizes, off).value| == ROW_SIZE * |names|
    decreases |names|
  {
    if names != [] {
      RowsFitStep(names, sizes, off);
      NameRoundTrip(names[0]);
      if IsAscii(names[0]) && off < 0x1_0000_0000 {
        TableFromSucceeds(names[1..], sizes[1..], off + SectorsOf(sizes[0]));
      }
    }
  }

  /** Row `m` holds stage `m`'s stored name and its start offset: `off`
      sectors for the first stage, then the sectors of all earlier stages
      added. */
  predicate RowsMatch(rows: seq<Row>, names: seq<string>, sizes: seq<nat>, off: nat)
    requires |sizes| == |names|
  {
    |rows| == |names| &&
    forall m :: 0 <= m < |names| ==> rows[m] == Row(StoredName(names[m]), (off + SectorsBefore(sizes, m)) * SECTOR)
  }

  lemma RowsMatchStep(row: Row, rows: seq<Row>, names: seq<string>, sizes: seq<nat>, off: nat)
    requires |sizes| == |names| && names != []
    requires row == Row(StoredName(names[0]), off * SECTOR)
    requires RowsMatch(rows, names[1..], sizes[1..], off + SectorsOf(sizes[0]))
    ensures RowsMatch([row] + rows, names, sizes, off)
  {
    forall m | 0 < m < |names|
      ensures ([row] + rows)[m] == Row(StoredName(names[m]), (off + SectorsBefore(sizes, m)) * SECTOR)
    {
      assert ([row] + rows)[m] == rows[m - 1];
      assert names[1..][m - 1] == names[m];
    }
  }

  /** The first row of a table, read back. */
  lemma FirstRow(raw: seq<byte>, x: u32, rest: seq<byte>, buf: seq<byte>, pos: nat)
    requires |raw| == NAME_SIZE && At(buf, pos, raw + U32(x) + rest)
    ensures pos + ROW_SIZE <= |buf|
    ensures buf[pos..pos + NAME_SIZE] == raw
    ensures GetU32(buf, pos + NAME_SIZE) == x
    ensures At(buf, pos + ROW_SIZE, rest)
  {
    AtSplit(buf, pos, raw + U32(x), rest);
    AtSplit(buf, pos, raw, U32(x));
    U32At(buf, pos + NAME_SIZE, x);
  }

  /** Reading the written table back gives every stage's stored name and
      its start offset. */
  lemma {:induction false} TableRoundTrip(names: seq<string>, sizes: seq<nat>, off: nat, buf: seq<byte>, pos: nat)
    requires |sizes| == |names|
    requires TableFrom(names, sizes, off).Ok? && At(buf, pos, TableFrom(names, sizes, off).value)
    ensures ReadTable(buf, pos, |names|).Ok?
    ensures RowsMatch(ReadTable(buf, pos, |names|).value, names, sizes, off)
    decreases |names|
  {
    if names != [] {
      var next := off + SectorsOf(sizes[0]);
      var rest := TableFrom(names[1..], sizes[1..], next).value;
      assert TableFrom(names, sizes, off).value == Name8(names[0]).value + U32(off) + rest;
      NameRoundTrip(names[0]);
      FirstRow(Name8(names[0]).value, off, rest, buf, pos);
      TableRoundTrip(names[1..], sizes[1..], next, buf, pos + ROW_SIZE);
      var tail := ReadTable(buf, pos + ROW_SIZE, |names| - 1).value;
      assert ReadTable(buf, pos, |names|).value == [Row(StoredName(names[0]), off * SECTOR)] + tail;
      RowsMatchStep(Row(StoredName(names[0]), off * SECTOR), tail, names, sizes, off);
    }
  }

  // ----- packing -----

  /** The stage as `PackStage`, `pack_stage` with the header count
      corrected, writes it at the start of a file. */
  function Packed(src: StageSource, enc: Encoder): Result<PackedStage>
  {
    PackStage(0, src.config, src.files, enc)
  }

  /** A stage writer for a stage written at a given cursor. */
  type StagePacker = (nat, StageSource) -> Result<PackedStage>

  /** `pack_stage` with the header count corrected. */
  function PackerOf(enc: Encoder): StagePacker
  {
    (pos: nat, src: StageSource) => PackStage(pos, src.config, src.files, enc)
  }

  /** `pack_stage` as written. */
  function PackerAsWritten(enc: Encoder): StagePacker
  {
    (pos: nat, src: StageSource) => PackStageAsWritten(pos, src.config, src.files, enc)
  }

  /** The header count from the file count is right for the stage `src`
      describes. */
  predicate StageHeaderCounted(src: StageSource, enc: Encoder)
  {
    ParseConfig(src.config, src.files).Ok? ==> HeaderCounted(ParseConfig(src.config, src.files).value, enc)
  }

  /** One turn of the stage loop of `pack_dir` with the cursor at `pos`:
      the stage is written there and padded to a sector; the result is the
      file and the stage's size. */
  function PackOne(pack: StagePacker, src: StageSource, file: seq<byte>, pos: nat): Result<(seq<byte>, nat)>
  {
    var st :- pack(pos, src);
    var end := pos + |st.bytes|;
    Ok((WriteAt(WriteAt(file, pos, st.bytes), end, PadAt(end, SECTOR)), |st.bytes|))
  }

  /** The stage loop of `pack_dir` from `pos` on: every stage in turn, and
      the sizes noted. */
  function PackStagesFrom(pack: StagePacker, srcs: seq<StageSource>, file: seq<byte>, pos: nat): (r: Result<(seq<byte>, seq<nat>)>)
    ensures r.Ok? ==> |r.value.1| == |srcs|
    decreases |srcs|
  {
    if srcs == [] then Ok((file, []))
    else
      match PackOne(pack, srcs[0], file, pos)
      case Fail(e) => Fail(e)
      case Ok(one) =>
        match PackStagesFrom(pack, srcs[1..], one.0, AlignUp(pos + one.1, SECTOR))
        case Fail(e) => Fail(e)
        case Ok(rest) =>
          var sizes: seq<nat> := [one.1] + rest.1;
          Ok((rest.0, sizes))
  }

  function Names(srcs: seq<StageSource>): (names: seq<string>)
    ensures |names| == |srcs| && forall j :: 0 <= j < |srcs| ==> names[j] == srcs[j].name
  {
    seq(|srcs|, j requires 0 <= j < |srcs| => srcs[j].name)
  }

  lemma SectorsOfAligned(size: nat)
    requires size % SECTOR == 0
    ensures SECTOR * SectorsOf(size) == size
  {
  }

  /** Image `j` sits `pos` plus the sectors of the images before it into
      `out`, and `sizes[j]` is its length. */
  predicate Placed(out: seq<byte>, images: seq<seq<byte>>, sizes: seq<nat>, pos: nat)
  {
    |sizes| == |images| &&
    forall j :: 0 <= j < |images| ==>
      sizes[j] == |images[j]| && At(out, pos + SECTOR * SectorsBefore(sizes, j), images[j])
  }

  lemma PlacedAfter(out: seq<byte>, b: seq<byte>, rest: seq<seq<byte>>, tail: seq<nat>, pos: nat, next: nat)
    requires |b| % SECTOR == 0 && next == pos + |b| && At(out, pos, b)
    requires Placed(out, rest, tail, next)
    ensures Placed(out, [b] + rest, [|b|] + tail, pos)
  {
    var images := [b] + rest;
    var sizes: seq<nat> := [|b|] + tail;
    SectorsOfAligned(|b|);
    forall j | 0 < j < |images|
      ensures sizes[j] == |images[j]| && At(out, pos + SECTOR * SectorsBefore(sizes, j), images[j])
    {
      assert images[j] == rest[j - 1] && sizes[j] == tail[j - 1];
      assert sizes[1..] == tail;
    }
  }

  /** `images[j]` is stage `j` as written at the start of a file. */
  predicate ImagesOf(images: seq<seq<byte>>, srcs: seq<StageSource>, pack: StagePacker)
  {
    |images| == |srcs| &&
    forall j :: 0 <= j < |srcs| ==> pack(0, srcs[j]).Ok? && pack(0, srcs[j]).value.bytes == images[j]
  }

  lemma ImagesOfStep(images: seq<seq<byte>>, srcs: seq<StageSource>, pack: StagePacker)
    requires images != [] && |images| == |srcs|
    requires pack(0, srcs[0]).Ok? && pack(0, srcs[0]).value.bytes == images[0]
    requires ImagesOf(images[1..], srcs[1..], pack)
    ensures ImagesOf(images, srcs, pack)
  {
    forall j | 0 < j < |srcs|
      ensures pack(0, srcs[j]).Ok? && pack(0, srcs[j]).value.bytes == images[j]
    {
      assert srcs[1..][j - 1] == srcs[j] && images[1..][j - 1] == images[j];
    }
  }

  /** A stage packed at any sector boundary has the bytes it has at the
      start of a file, and takes whole sectors. */
  ghost predicate SectorStable(pack: StagePacker)
  {
    forall pos: nat, src: StageSource :: pos % SECTOR == 0 && pack(pos, src).Ok? ==>
      pack(pos, src) == pack(0, src) && |pack(pos, src).value.bytes| % SECTOR == 0 && |pack(pos, src).value.bytes| > 0
  }

  lemma PackedAt(pos: nat, src: StageSource, enc: Encoder)
    requires pos % SECTOR == 0 && PackStage(pos, src.config, src.files, enc).Ok?
    ensures PackStage(pos, src.config, src.files, enc) == Packed(src, enc)
    ensures |Packed(src, enc).value.bytes| % SECTOR == 0 && |Packed(src, enc).value.bytes| > 0
  {
    PackStageAnywhere(pos, src.config, src.files, enc);
    PackStageSize(src.config, src.files, enc);
  }

  /** `pack_stage` moved by whole sectors writes the same bytes, a whole
      number of sectors of them. */
  lemma PackerStable(enc: Encoder)
    ensures SectorStable(PackerOf(enc))
    ensures forall src :: PackerOf(enc)(0, src) == Packed(src, enc)
  {
    forall pos: nat, src: StageSource | pos % SECTOR == 0 && PackerOf(enc)(pos, src).Ok?
      ensures PackerOf(enc)(pos, src) == PackerOf(enc)(0, src)
      ensures |PackerOf(enc)(pos, src).value.bytes| % SECTOR == 0 && |PackerOf(enc)(pos, src).value.bytes| > 0
    {
      PackedAt(pos, src, enc);
    }
  }

  /** The same for `pack_stage` as written. */
  lemma PackerAsWrittenStable(enc: Encoder)
    ensures SectorStable(PackerAsWritten(enc))
  {
    forall pos: nat, src: StageSource | pos % SECTOR == 0 && PackerAsWritten(enc)(pos, src).Ok?
      ensures PackerAsWritten(enc)(pos, src) == PackerAsWritten(enc)(0, src)
      ensures |PackerAsWritten(enc)(pos, src).value.bytes| % SECTOR == 0 && |PackerAsWritten(enc)(pos, src).value.bytes| > 0
    {
      PackedAsWrittenAt(pos, src, enc);
    }
  }

  lemma PackedAsWrittenAt(pos: nat, src: StageSource, enc: Encoder)
    requires pos % SECTOR == 0 && PackStageAsWritten(pos, src.config, src.files, enc).Ok?
    ensures var st := PackStageAsWritten(0, src.config, src.files, enc);
      && PackStageAsWritten(pos, src.config, src.files, enc) == st
      && |st.value.bytes| % SECTOR == 0 && |st.value.bytes| > 0
  {
    PackStageAsWrittenAnywhere(pos, src.config, src.files, enc);
    PackStageAsWrittenSize(src.config, src.files, enc);
  }

  /** Where the header count is right, `pack_stage` as written and as
      corrected write the same stage at every cursor. */
  lemma PackersAgree(src: StageSource, enc: Encoder)
    requires StageHeaderCounted(src, enc)
    ensures forall pos: nat :: PackerAsWritten(enc)(pos, src) == PackerOf(enc)(pos, src)
  {
    forall pos: nat
      ensures PackerAsWritten(enc)(pos, src) == PackerOf(enc)(pos, src)
    {
      PackStageAgrees(pos, src.config, src.files, enc);
    }
  }

  /** Two stage writers that agree on every stage make the stage loop write
      the same file. */
  lemma {:induction false} PackStagesAgree(p1: StagePacker, p2: StagePacker, srcs: seq<StageSource>, file: seq<byte>, pos: nat)
    requires forall src, q: nat :: src in srcs ==> p1(q, src) == p2(q, src)
    ensures PackStagesFrom(p1, srcs, file, pos) == PackStagesFrom(p2, srcs, file, pos)
    decreases |srcs|
  {
    if srcs != [] {
      assert srcs[0] in srcs;
      assert PackOne(p1, srcs[0], file, pos) == PackOne(p2, srcs[0], file, pos);
      match PackOne(p1, srcs[0], file, pos)
      case Fail(_) =>
      case Ok(one) =>
        var next := AlignUp(pos + one.1, SECTOR);
        PackStagesAgree(p1, p2, srcs[1..], one.0, next);
        match PackStagesFrom(p1, srcs[1..], one.0, next)
        case Fail(e) =>
          PackStagesFails(p1, srcs, file, pos, one.0, one.1, next, e);
          PackStagesFails(p2, srcs, file, pos, one.0, one.1, next, e);
        case Ok(rest) =>
          PackStagesFold(p1, srcs, file, pos, one.0, one.1, next, rest.0, rest.1);
          PackStagesFold(p2, srcs, file, pos, one.0, one.1, next, rest.0, rest.1);
    }
  }

  /** Writing `data` past `file`'s end leaves `file` in front and `data` at
      `pos`. */
  lemma WriteAfter(file: seq<byte>, pos: nat, data: seq<byte>)
    requires |file| <= pos && |data| > 0
    ensures var w := WriteAt(file, pos, data);
      |w| == pos + |data| && w[..|file|] == file && At(w, pos, data)
  {
  }

  /** A stage written at a sector boundary into a file that ends at or
      before it: the file, a gap, then the stage, and nothing after. */
  lemma PackOneAt(pack: StagePacker, src: StageSource, file: seq<byte>, pos: nat) returns (b: seq<byte>, w: seq<byte>)
    requires SectorStable(pack)
    requires pos % SECTOR == 0 && |file| <= pos && PackOne(pack, src, file, pos).Ok?
    ensures pack(0, src).Ok? && pack(0, src).value.bytes == b
    ensures PackOne(pack, src, file, pos) == Ok((w, |b|))
    ensures |b| % SECTOR == 0 && |w| == pos + |b| && w[..|file|] == file && At(w, pos, b)
  {
    b := pack(pos, src).value.bytes;
    var end := pos + |b|;
    assert PadAt(end, SECTOR) == [] by { ModSum(pos, |b|, SECTOR); }
    w := WriteAt(file, pos, b);
    WriteAfter(file, pos, b);
  }

  /** One turn of the stage loop: the first stage is written whole at
      `pos`, after `file`, and the next turn starts right after it. */
  lemma PackStagesHead(pack: StagePacker, srcs: seq<StageSource>, file: seq<byte>, pos: nat) returns (b: seq<byte>, w: seq<byte>)
    requires SectorStable(pack)
    requires pos % SECTOR == 0 && |file| <= pos
    requires srcs != [] && PackOne(pack, srcs[0], file, pos).Ok?
    ensures pack(0, srcs[0]).Ok? && pack(0, srcs[0]).value.bytes == b
    ensures PackOne(pack, srcs[0], file, pos) == Ok((w, |b|))
    ensures |b| % SECTOR == 0 && |w| == pos + |b| && w[..|file|] == file && At(w, pos, b)
    ensures (pos + |b|) % SECTOR == 0 && AlignUp(pos + |b|, SECTOR) == pos + |b|
  {
    b, w := PackOneAt(pack, srcs[0], file, pos);
    ModSum(pos, |b|, SECTOR);
    AlignedIsFixed(pos + |b|, SECTOR);
  }

  /** A loop that succeeds succeeds on its first stage and on the rest. */
  lemma PackStagesTail(pack: StagePacker, srcs: seq<StageSource>, file: seq<byte>, pos: nat, w: seq<byte>, n: nat, next: nat)
    requires srcs != [] && PackStagesFrom(pack, srcs, file, pos).Ok?
    ensures PackOne(pack, srcs[0], file, pos).Ok?
    ensures PackOne(pack, srcs[0], file, pos) == Ok((w, n)) && AlignUp(pos + n, SECTOR) == next ==>
      PackStagesFrom(pack, srcs[1..], w, next).Ok?
  {
  }

  lemma PackStagesFold(pack: StagePacker, srcs: seq<StageSource>, file: seq<byte>, pos: nat,
                       w: seq<byte>, n: nat, next: nat, out: seq<byte>, tail: seq<nat>)
    requires srcs != [] && PackOne(pack, srcs[0], file, pos) == Ok((w, n))
    requires AlignUp(pos + n, SECTOR) == next
    requires PackStagesFrom(pack, srcs[1..], w, next) == Ok((out, tail))
    ensures PackStagesFrom(pack, srcs, file, pos) == Ok((out, [n] + tail))
  {
  }

  lemma PackStagesFails(pack: StagePacker, srcs: seq<StageSource>, file: seq<byte>, pos: nat,
                        w: seq<byte>, n: nat, next: nat, e: Error)
    requires srcs != [] && PackOne(pack, srcs[0], file, pos) == Ok((w, n))
    requires AlignUp(pos + n, SECTOR) == next
    requires PackStagesFrom(pack, srcs[1..], w, next) == Fail(e)
    ensures PackStagesFrom(pack, srcs, file, pos) == Fail(e)
  {
  }

  /** The stage loop writes every stage, whole and in order, one after the
      other from `pos`, keeps what was written before, and, when there is a
      stage, ends where the last stage does, on a sector boundary. */
  lemma PackStagesLayout(pack: StagePacker, srcs: seq<StageSource>, file: seq<byte>, pos: nat)
    returns (out: seq<byte>, sizes: seq<nat>, images: seq<seq<byte>>)
    requires SectorStable(pack)
    requires pos % SECTOR == 0 && |file| <= pos
    requires PackStagesFrom(pack, srcs, file, pos).Ok?
    ensures PackStagesFrom(pack, srcs, file, pos) == Ok((out, sizes))
    ensures |out| >= |file| && out[..|file|] == file
    ensures ImagesOf(images, srcs, pack) && Placed(out, images, sizes, pos)
    ensures srcs != [] ==> |out| == pos + SECTOR * SectorsBefore(sizes, |srcs|)
  {
    out, sizes, images := PackStagesPlaced(pack, srcs, file, pos);
    if srcs != [] {
      PackStagesEnd(pack, srcs, file, pos, out, sizes);
    }
  }

  lemma {:induction false} PackStagesPlaced(pack: StagePacker, srcs: seq<StageSource>, file: seq<byte>, pos: nat)
    returns (out: seq<byte>, sizes: seq<nat>, images: seq<seq<byte>>)
    requires SectorStable(pack)
    requires pos % SECTOR == 0 && |file| <= pos
    requires PackStagesFrom(pack, srcs, file, pos).Ok?
    ensures PackStagesFrom(pack, srcs, file, pos) == Ok((out, sizes))
    ensures |out| >= |file| && out[..|file|] == file
    ensures ImagesOf(images, srcs, pack) && Placed(out, images, sizes, pos)
    decreases |srcs|
  {
    if srcs == [] {
      out, sizes, images := file, [], [];
    } else {
      PackStagesTail(pack, srcs, file, pos, [], 0, 0);
      var b, w := PackStagesHead(pack, srcs, file, pos);
      var next := pos + |b|;
      PackStagesTail(pack, srcs, file, pos, w, |b|, next);
      var tail, rest;
      out, tail, rest := PackStagesPlaced(pack, srcs[1..], w, next);
      PackStagesFold(pack, srcs, file, pos, w, |b|, next, out, tail);
      sizes := [|b|] + tail;
      images := [b] + rest;
      LayoutStep(pack, srcs, file, pos, b, w, next, out, tail, rest);
    }
  }

  /** A stage loop over at least one stage ends where its last stage does. */
  lemma {:induction false} PackStagesEnd(pack: StagePacker, srcs: seq<StageSource>, file: seq<byte>, pos: nat,
                                         out: seq<byte>, sizes: seq<nat>)
    requires SectorStable(pack)
    requires pos % SECTOR == 0 && |file| <= pos && srcs != []
    requires PackStagesFrom(pack, srcs, file, pos) == Ok((out, sizes))
    ensures |sizes| == |srcs| && |out| == pos + SECTOR * SectorsBefore(sizes, |srcs|)
    decreases |srcs|
  {
    PackStagesTail(pack, srcs, file, pos, [], 0, 0);
    var b, w := PackStagesHead(pack, srcs, file, pos);
    var next := pos + |b|;
    PackStagesTail(pack, srcs, file, pos, w, |b|, next);
    var rest := PackStagesFrom(pack, srcs[1..], w, next).value;
    PackStagesFold(pack, srcs, file, pos, w, |b|, next, rest.0, rest.1);
    if srcs[1..] != [] {
      PackStagesEnd(pack, srcs[1..], w, next, rest.0, rest.1);
    }
    LayoutEnd(sizes, pos, next, |w|, |out|, srcs[1..] != []);
  }

  /** The stage loop's file ends where its last stage does: the first stage
      takes `sizes[0]` bytes and the rest end where their own loop does. */
  lemma LayoutEnd(sizes: seq<nat>, pos: nat, next: nat, w: nat, out: nat, more: bool)
    requires sizes != [] && sizes[0] % SECTOR == 0 && next == pos + sizes[0] && w == next
    requires more ==> out == next + SECTOR * SectorsBefore(sizes[1..], |sizes| - 1)
    requires !more ==> |sizes| == 1 && out == w
    ensures out == pos + SECTOR * SectorsBefore(sizes, |sizes|)
  {
    SectorsOfAligned(sizes[0]);
    assert SectorsBefore(sizes, |sizes|) == SectorsOf(sizes[0]) + SectorsBefore(sizes[1..], |sizes| - 1);
  }

  lemma LayoutStep(pack: StagePacker, srcs: seq<StageSource>, file: seq<byte>, pos: nat,
                   b: seq<byte>, w: seq<byte>, next: nat, out: seq<byte>, tail: seq<nat>, rest: seq<seq<byte>>)
    requires srcs != [] && pack(0, srcs[0]).Ok? && pack(0, srcs[0]).value.bytes == b
    requires |b| % SECTOR == 0 && |w| == pos + |b| && |file| <= pos && w[..|file|] == file && At(w, pos, b)
    requires |out| >= |w| && out[..|w|] == w
    requires next == pos + |b| && ImagesOf(rest, srcs[1..], pack) && Placed(out, rest, tail, next)
    ensures |out| >= |file| && out[..|file|] == file
    ensures ImagesOf([b] + rest, srcs, pack) && Placed(out, [b] + rest, [|b|] + tail, pos)
  {
    OutKeeps(out, w, file, pos, b);
    PlacedAfter(out, b, rest, tail, pos, next);
    assert ([b] + rest)[1..] == rest;
    ImagesOfStep([b] + rest, srcs, pack);
  }

  lemma OutKeeps(out: seq<byte>, mid: seq<byte>, file: seq<byte>, pos: nat, b: seq<byte>)
    requires |mid| <= |out| && out[..|mid|] == mid
    requires |file| <= pos && |file| <= |mid| && mid[..|file|] == file && At(mid, pos, b)
    ensures out[..|file|] == file && At(out, pos, b)
  {
    assert out[..|file|] == mid[..|file|];
    assert out[pos..pos + |b|] == mid[pos..pos + |b|];
  }

  /** Where `pack_dir` puts the first stage: the first sector boundary at
      or after the table size, which leaves out the 4-byte size field. */
  function FirstStageAsWritten(k: nat): nat
  {
    AlignUp(ROW_SIZE * k, SECTOR)
  }

  /** The first sector boundary past the size field and the table. */
  function FirstStage(k: nat): (first: nat)
    ensures first % SECTOR == 0 && 4 + ROW_SIZE * k <= first
  {
    AlignUp(4 + ROW_SIZE * k, SECTOR)
  }

  /** `pack_dir` as written: the table size, the stages from
      `FirstStageAsWritten`, then the table, whose first row always says
      sector 1, written over the gap after the size field. */
  function PackDirAsWritten(pack: StagePacker, srcs: seq<StageSource>): Result<seq<byte>>
  {
    var tableSize := ROW_SIZE * |srcs|;
    if tableSize >= 0x1_0000_0000 then Fail(FieldOverflow)
    else
      var packed :- PackStagesFrom(pack, srcs, U32(tableSize), FirstStageAsWritten(|srcs|));
      var table :- TableFrom(Names(srcs), packed.1, 1);
      Ok(WriteAt(packed.0, 4, table))
  }

  /** `pack_dir` with the stages placed after the size field and the table,
      and the rows counting sectors from the first stage. */
  function PackDirWith(pack: StagePacker, srcs: seq<StageSource>): Result<seq<byte>>
  {
    var tableSize := ROW_SIZE * |srcs|;
    if tableSize >= 0x1_0000_0000 then Fail(FieldOverflow)
    else
      var first := FirstStage(|srcs|);
      var packed :- PackStagesFrom(pack, srcs, U32(tableSize), first);
      var table :- TableFrom(Names(srcs), packed.1, first / SECTOR);
      Ok(WriteAt(packed.0, 4, table))
  }

  /** `pack_dir` with both corrections: stages after the table, and
      `pack_stage` with the corrected header count. */
  function PackDir(srcs: seq<StageSource>, enc: Encoder): Result<seq<byte>>
  {
    PackDirWith(PackerOf(enc), srcs)
  }

  /** `pack_dir` and `pack_stage` both as written. */
  function PackDirOriginal(srcs: seq<StageSource>, enc: Encoder): Result<seq<byte>>
  {
    PackDirAsWritten(PackerAsWritten(enc), srcs)
  }

  /** The first stage lands on sector 1, where the first row says it is,
      exactly when there are between 1 and 170 stages. */
  lemma FirstStageSector(k: nat)
    ensures FirstStageAsWritten(k) == SECTOR <==> 1 <= k <= 170
    ensures k <= 170 ==> FirstStage(k) == SECTOR
  {
    var a := FirstStageAsWritten(k);
    assert a == (a / SECTOR) * SECTOR;
    var f := FirstStage(k);
    assert f == (f / SECTOR) * SECTOR;
  }

  /** Up to 170 stages, `pack_dir` as written and as corrected write the
      same container. */
  lemma PackDirAgrees(pack: StagePacker, srcs: seq<StageSource>)
    requires |srcs| <= 170
    ensures PackDirWith(pack, srcs) == PackDirAsWritten(pack, srcs)
  {
    if srcs != [] {
      FirstStageSector(|srcs|);
      DivModUnique(SECTOR, SECTOR, 1, 0);
      assert FirstStage(|srcs|) / SECTOR == 1;
    }
  }

  /** Up to 170 stages, each with a header count that is right, the
      source's `pack_dir` writes the container the corrected one does. */
  lemma PackDirOriginalAgrees(srcs: seq<StageSource>, enc: Encoder)
    requires |srcs| <= 170
    requires forall j :: 0 <= j < |srcs| ==> StageHeaderCounted(srcs[j], enc)
    ensures PackDirOriginal(srcs, enc) == PackDir(srcs, enc)
  {
    forall src | src in srcs
      ensures forall pos: nat :: PackerAsWritten(enc)(pos, src) == PackerOf(enc)(pos, src)
    {
      PackersAgree(src, enc);
    }
    PackDirAgrees(PackerAsWritten(enc), srcs);
    PackDirWithAgrees(PackerAsWritten(enc), PackerOf(enc), srcs);
  }

  /** Two stage writers that agree on every stage make `pack_dir` write the
      same container. */
  lemma PackDirWithAgrees(p1: StagePacker, p2: StagePacker, srcs: seq<StageSource>)
    requires forall src, q: nat :: src in srcs ==> p1(q, src) == p2(q, src)
    ensures PackDirWith(p1, srcs) == PackDirWith(p2, srcs)
  {
    if ROW_SIZE * |srcs| < 0x1_0000_0000 {
      PackStagesAgree(p1, p2, srcs, U32(ROW_SIZE * |srcs|), FirstStage(|srcs|));
    }
  }

  /** With more than 170 stages (and not a multiple of 512) the table runs
      into sector 1, the stages start at sector 2 or later, yet the first
      row still reads back as sector 1. */
  lemma FirstRowAsWritten(pack: StagePacker, srcs: seq<StageSource>) returns (buf: seq<byte>, images: seq<seq<byte>>, sizes: seq<nat>)
    requires SectorStable(pack)
    requires |srcs| > 170 && |srcs| % 512 != 0 && PackDirAsWritten(pack, srcs).Ok?
    ensures PackDirAsWritten(pack, srcs) == Ok(buf)
    ensures 4 + ROW_SIZE * |srcs| > SECTOR && FirstStageAsWritten(|srcs|) >= 2 * SECTOR
    ensures ReadTable(buf, 4, |srcs|).Ok? && ReadTable(buf, 4, |srcs|).value[0].offset == SECTOR
    ensures ImagesOf(images, srcs, pack) && Placed(buf, images, sizes, FirstStageAsWritten(|srcs|))
  {
    var k := |srcs|;
    var first := FirstStageAsWritten(k);
    AfterTableAsWritten(k);
    var packed := PackStagesFrom(pack, srcs, U32(ROW_SIZE * k), first).value;
    var table := TableFrom(Names(srcs), packed.1, 1).value;
    sizes := packed.1;
    buf := WriteAt(packed.0, 4, table);
    images := TableOverStages(pack, srcs, first, 1, packed.0, sizes, table);
    TableRoundTrip(Names(srcs), sizes, 1, buf, 4);
  }

  /** Where the first stage goes as written, for more than 170 stages: past
      sector 1, and past the table unless the table ends on a sector
      boundary. */
  lemma AfterTableAsWritten(k: nat)
    requires k > 170
    ensures FirstStageAsWritten(k) >= 2 * SECTOR && FirstStageAsWritten(k) % SECTOR == 0
    ensures k % 512 != 0 ==> 4 + ROW_SIZE * k <= FirstStageAsWritten(k)
    ensures k % 512 == 0 ==> FirstStageAsWritten(k) == ROW_SIZE * k
  {
    var x, a := ROW_SIZE * k, FirstStageAsWritten(k);
    RowsOnBoundary(k);
    assert a == (a / SECTOR) * SECTOR;
    if k % 512 != 0 {
      assert a != x;
      assert a == 4 * (512 * (a / SECTOR)) && x == 4 * (3 * k);
    } else {
      AlignedIsFixed(x, SECTOR);
    }
  }

  /** The table size is a whole number of sectors exactly when the number
      of stages is a multiple of 512. */
  lemma RowsOnBoundary(k: nat)
    ensures (ROW_SIZE * k) % SECTOR == 0 <==> k % 512 == 0
  {
    var x := ROW_SIZE * k;
    if x % SECTOR == 0 {
      var q := x / SECTOR;
      assert x == q * SECTOR;
      var t, u := q / 3, q % 3;
      assert q == 3 * t + u;
      assert 3 * k == 1536 * t + 512 * u;
      assert u == 0;
      DivModUnique(k, 512, t, 0);
    }
    if k % 512 == 0 {
      var m := k / 512;
      assert k == 512 * m;
      DivModUnique(x, SECTOR, 3 * m, 0);
    }
  }

  /** With a positive multiple of 512 stages the table ends 4 bytes into
      the first stage, so it overwrites that stage's sub-header. */
  lemma SubHeaderOverwrittenAsWritten(pack: StagePacker, srcs: seq<StageSource>) returns (buf: seq<byte>, table: seq<byte>)
    requires |srcs| > 0 && |srcs| % 512 == 0 && PackDirAsWritten(pack, srcs).Ok?
    ensures PackDirAsWritten(pack, srcs) == Ok(buf)
    ensures |table| == ROW_SIZE * |srcs| && At(buf, 4, table)
    ensures 4 + |table| == FirstStageAsWritten(|srcs|) + 4
  {
    var k := |srcs|;
    AfterTableAsWritten(k);
    var packed := PackStagesFrom(pack, srcs, U32(ROW_SIZE * k), FirstStageAsWritten(k)).value;
    table := TableFrom(Names(srcs), packed.1, 1).value;
    TableFromSucceeds(Names(srcs), packed.1, 1);
    buf := WriteAt(packed.0, 4, table);
  }

  /** A write that does not overlap the bytes of `s` at `p` leaves them
      alone. */
  lemma WriteBefore(buf: seq<byte>, at: nat, data: seq<byte>, p: nat, s: seq<byte>)
    requires (at + |data| <= p || p + |s| <= at) && At(buf, p, s)
    ensures At(WriteAt(buf, at, data), p, s)
  {
    var w := WriteAt(buf, at, data);
    assert w[p..p + |s|] == buf[p..p + |s|];
  }

  /** A successful `pack_dir`: the stage loop from the first sector after
      the table, then the table written from byte 4. */
  lemma PackDirParts(pack: StagePacker, srcs: seq<StageSource>) returns (out: seq<byte>, sizes: seq<nat>, table: seq<byte>)
    requires PackDirWith(pack, srcs).Ok?
    ensures ROW_SIZE * |srcs| < 0x1_0000_0000
    ensures PackStagesFrom(pack, srcs, U32(ROW_SIZE * |srcs|), FirstStage(|srcs|)) == Ok((out, sizes))
    ensures TableFrom(Names(srcs), sizes, FirstStage(|srcs|) / SECTOR) == Ok(table)
    ensures PackDirWith(pack, srcs) == Ok(WriteAt(out, 4, table))
  {
    var first := FirstStage(|srcs|);
    var packed := PackStagesFrom(pack, srcs, U32(ROW_SIZE * |srcs|), first).value;
    out, sizes := packed.0, packed.1;
    table := TableFrom(Names(srcs), sizes, first / SECTOR).value;
  }

  /** The container holds the table size, the table written from byte 4,
      and every stage from the first sector after the table on, one after
      the other. */
  lemma DirLayout(pack: StagePacker, srcs: seq<StageSource>) returns (buf: seq<byte>, images: seq<seq<byte>>, sizes: seq<nat>)
    requires SectorStable(pack)
    requires PackDirWith(pack, srcs).Ok?
    ensures PackDirWith(pack, srcs) == Ok(buf)
    ensures |buf| >= 4 && GetU32(buf, 0) == ROW_SIZE * |srcs|
    ensures |sizes| == |srcs| && TableFrom(Names(srcs), sizes, FirstStage(|srcs|) / SECTOR).Ok?
    ensures At(buf, 4, TableFrom(Names(srcs), sizes, FirstStage(|srcs|) / SECTOR).value)
    ensures ImagesOf(images, srcs, pack) && Placed(buf, images, sizes, FirstStage(|srcs|))
    ensures srcs != [] ==> |buf| == FirstStage(|srcs|) + SECTOR * SectorsBefore(sizes, |srcs|) && |buf| % SECTOR == 0
    ensures srcs == [] ==> buf == U32(0)
  {
    var out, table;
    out, sizes, table := PackDirParts(pack, srcs);
    buf := WriteAt(out, 4, table);
    images := TableOverStages(pack, srcs, FirstStage(|srcs|), FirstStage(|srcs|) / SECTOR, out, sizes, table);
    DirLength(pack, srcs, out, sizes, table);
  }

  /** The table is written inside the file the stage loop leaves, so the
      container ends where the last stage does; with no stage, nothing
      follows the size field. */
  lemma DirLength(pack: StagePacker, srcs: seq<StageSource>, out: seq<byte>, sizes: seq<nat>, table: seq<byte>)
    requires SectorStable(pack) && ROW_SIZE * |srcs| < 0x1_0000_0000
    requires PackStagesFrom(pack, srcs, U32(ROW_SIZE * |srcs|), FirstStage(|srcs|)) == Ok((out, sizes))
    requires TableFrom(Names(srcs), sizes, FirstStage(|srcs|) / SECTOR) == Ok(table)
    ensures srcs != [] ==> |WriteAt(out, 4, table)| == FirstStage(|srcs|) + SECTOR * SectorsBefore(sizes, |srcs|)
    ensures srcs != [] ==> |WriteAt(out, 4, table)| % SECTOR == 0
    ensures srcs == [] ==> WriteAt(out, 4, table) == U32(0)
  {
    var first := FirstStage(|srcs|);
    TableFromSucceeds(Names(srcs), sizes, first / SECTOR);
    if srcs != [] {
      PackStagesEnd(pack, srcs, U32(ROW_SIZE * |srcs|), first, out, sizes);
      WriteInside(out, 4, table);
      SectorsAfter(|WriteAt(out, 4, table)|, first, SectorsBefore(sizes, |srcs|));
    } else {
      assert out == U32(0) && table == [];
    }
  }

  /** Whole sectors after a sector boundary end on one. */
  lemma SectorsAfter(len: nat, first: nat, q: nat)
    requires first % SECTOR == 0 && len == first + SECTOR * q
    ensures len % SECTOR == 0
  {
    DivModUnique(SECTOR * q, SECTOR, q, 0);
    ModSum(first, SECTOR * q, SECTOR);
  }

  /** A write that ends inside the file does not change its length. */
  lemma WriteInside(buf: seq<byte>, at: nat, data: seq<byte>)
    requires at + |data| <= |buf|
    ensures |WriteAt(buf, at, data)| == |buf|
  {
  }

  /** Writing the table over the gap after the size field keeps the size
      field and, when the table ends before the first stage, every stage. */
  lemma TableOverStages(pack: StagePacker, srcs: seq<StageSource>, first: nat, off: nat, out: seq<byte>, sizes: seq<nat>, table: seq<byte>)
    returns (images: seq<seq<byte>>)
    requires SectorStable(pack)
    requires first % SECTOR == 0 && 4 + ROW_SIZE * |srcs| <= first && ROW_SIZE * |srcs| < 0x1_0000_0000
    requires PackStagesFrom(pack, srcs, U32(ROW_SIZE * |srcs|), first) == Ok((out, sizes))
    requires TableFrom(Names(srcs), sizes, off) == Ok(table)
    ensures var buf := WriteAt(out, 4, table);
      && |buf| >= 4 && GetU32(buf, 0) == ROW_SIZE * |srcs|
      && |sizes| == |srcs| && At(buf, 4, table)
      && ImagesOf(images, srcs, pack) && Placed(buf, images, sizes, first)
  {
    var k := |srcs|;
    var head := U32(ROW_SIZE * k);
    var out', sizes';
    out', sizes', images := PackStagesLayout(pack, srcs, head, first);
    assert out' == out && sizes' == sizes;
    TableFromSucceeds(Names(srcs), sizes, off);
    TableHead(out, table, k);
    TableKeepsStages(out, table, images, sizes, first);
  }

  /** Writing the table from byte 4 keeps the size field in front of it. */
  lemma TableHead(out: seq<byte>, table: seq<byte>, k: nat)
    requires ROW_SIZE * k < 0x1_0000_0000 && |out| >= 4 && out[..4] == U32(ROW_SIZE * k)
    ensures var buf := WriteAt(out, 4, table);
      |buf| >= 4 && GetU32(buf, 0) == ROW_SIZE * k && At(buf, 4, table)
  {
    var buf := WriteAt(out, 4, table);
    WriteBefore(out, 4, table, 0, U32(ROW_SIZE * k));
    U32At(buf, 0, ROW_SIZE * k);
  }

  /** A table that ends before `first` leaves the stages placed from
      `first` on. */
  lemma TableKeepsStages(out: seq<byte>, table: seq<byte>, images: seq<seq<byte>>, sizes: seq<nat>, first: nat)
    requires 4 + |table| <= first && Placed(out, images, sizes, first)
    ensures Placed(WriteAt(out, 4, table), images, sizes, first)
  {
    forall j | 0 <= j < |images|
      ensures At(WriteAt(out, 4, table), first + SECTOR * SectorsBefore(sizes, j), images[j])
    {
      WriteBefore(out, 4, table, first + SECTOR * SectorsBefore(sizes, j), images[j]);
    }
  }

  // ----- unpacking -----

  /** `unpack_stage` for every row, in table order. */
  function UnpackStages(buf: seq<byte>, rows: seq<Row>, table: map<string, string>): Result<seq<StageDump>>
    decreases |rows|
  {
    if rows == [] then Ok([])
    else
      var dump :- UnpackStage(buf, rows[0].offset, table);
      var rest :- UnpackStages(buf, rows[1..], table);
      Ok([dump] + rest)
  }

  function RowNames(rows: seq<Row>): (names: seq<string>)
    ensures |names| == |rows| && forall j :: 0 <= j < |rows| ==> names[j] == rows[j].name
  {
    seq(|rows|, j requires 0 <= j < |rows| => rows[j].name)
  }

  /** `unpack_dir`: read the table size and check it is a whole number of
      rows, read the rows, build the dictionary, then unpack every stage. */
  function UnpackDir(buf: seq<byte>, dictLines: seq<string>): Result<DirDump>
  {
    if |buf| < 4 then Fail(Truncated)
    else
      var tableSize := GetU32(buf, 0);
      if tableSize % ROW_SIZE != 0 then Fail(CorruptHeader)
      else
        var rows :- ReadTable(buf, 4, tableSize / ROW_SIZE);
        var table := BuildDictionary(dictLines);
        var stages :- UnpackStages(buf, rows, table);
        Ok(DirDump(RowNames(rows), stages))
  }
}
