# restage: the stage container codec in Dafny

`restage.py` packs a game's stage directories into a single `STAGE.DIR`
container and unpacks them again. This project models the byte-level codec
of that tool and proves properties about it.

A container begins with a 4-byte little-endian table size. One 12-byte row
per stage follows: an eight-byte NUL-padded ASCII name and the stage's start
sector, where a sector is 2048 bytes. Each stage then sits on a sector
boundary. A stage starts with a 4-byte sub-header, a signed 16-bit header
sector count and a total sector count. Next come one 8-byte record per file:
a 16-bit name code (`strcode` of the EUC-JP name, or 0 for `.dar` files), a
section tag, the first character of the extension, and a 32-bit size. Files
under `.cache` store a running offset instead of a size. Each cache run ends
with an extra trailer record. After the records comes the sector-aligned
payload.

The modules follow the program's structure:

- `Outcome`: `Option`, `Result` and the error kinds. Each `assert`,
  `KeyError`, `IndexError`, `struct.error` and codec error of the program
  becomes a `Fail`.
- `Bytes`: the reader and writer cursors (`read`, `align`, `seek`), the
  little-endian fields and `At`, which says bytes sit at a position.
- `NameCode`: `strcode`, the rotate-and-add hash.
- `Text`: `str.split`, the `04x` hex rendering and the decimal counter in
  generated names.
- `Records`: the 8-byte record format.
- `Config`: the `data.cnf` directive state machine of `pack_stage`.
- `StagePack`: the record, trailer, payload and sub-header encoder of
  `pack_stage`. It has a reference layout (`LayoutFrom`, `PayloadFrom`) that
  the loop is proved equal to. `EncodeStageAsWritten` and
  `PackStageAsWritten` are `pack_stage` as the source has it. `EncodeStage`
  and `PackStage` are the same with the header sector count corrected (see
  Findings).
- `StageDecode`: the record loop of `unpack_stage` and its naming rules for
  dictionary, model, texture and `cache_end` names.
- `ConfigWrite`: `write_stage_config`.
- `StageUnpack`: `unpack_stage` and its extraction loop.
- `Dictionary`: `build_dictionary`.
- `StageRoundTrip`: `unpack_stage` applied to what `pack_stage` wrote.
- `Container`: `pack_dir` and `unpack_dir`. `PackDirOriginal` is `pack_dir`
  with `pack_stage`, both as the source has them. `PackDir` has both
  corrections.
- `ContainerRoundTrip`: `unpack_dir` applied to what `pack_dir` wrote.

Files, the stage list and the dictionary file are values, not paths:

- a stage is its `data.cnf` lines plus a map from file names to contents;
- the container is a byte sequence;
- the dictionary is its lines.

EUC-JP encoding is a parameter `enc: string -> Option<seq<byte>>`, where
`None` means the name cannot be encoded.

## Model

| member | source | states |
|---|---|---|
| Bytes.AlignUp | restage.py:39-43 | the aligned cursor is the least multiple of `n` at or after the cursor, and it is less than `n` past it |
| Bytes.PadAt | restage.py:39-43 | the writer's `align` writes fewer than `n` zero bytes and reaches a multiple of `n`; it writes nothing when the cursor is already aligned |
| Bytes.WriterAlign | restage.py:39-43 | aligning the output keeps everything already written and appends only zeros, fewer than `n` of them, up to the next multiple of `n` |
| Bytes.AlignShift | restage.py:39-43 | moving a cursor by a multiple of `n` moves its aligned position by the same amount |
| Bytes.WriteAt | restage.py:36-50 | a write after a seek replaces exactly the bytes it covers and keeps every other byte; seeking past the end leaves a zero-filled gap |
| Bytes.Read | restage.py:9-10 | a read returns the requested slice when the file holds it, the rest of the file when it is short or the size is -1, and nothing past the end; a size below -1 is not a valid request |
| Bytes.ReaderAlign | restage.py:12-15 | the reader's `align` moves to the next multiple of `n` when the file reaches that far and stops at the end of the file otherwise; an aligned cursor stays put |
| Bytes.GetI16 | restage.py:259-260 | a `<h` field lies in [-0x8000, 0x8000) and is negative exactly when the top bit of its high byte is set |
| Bytes.I16RoundTrip | restage.py:167-169 | a sub-header count below 0x8000 written as `<h` reads back unchanged, whatever surrounds it |
| Bytes.U16RoundTrip | restage.py:121-123 | a `<H` name code reads back unchanged, whatever surrounds it |
| Bytes.U32RoundTrip | restage.py:132-136 | a `<I` size or offset reads back unchanged, whatever surrounds it |
| NameCode.RotateInverse | restage.py:59-60 | the 16-bit rotate by 5 can be undone, and its low five bits are the old top five bits |
| NameCode.StrCodeSnoc | restage.py:58-62 | the code of a byte string extended by one byte is one rotate-and-add step from the code of the string |
| NameCode.StrCodeSingle | restage.py:55-64 | a one-byte name hashes to that byte |
| NameCode.ComputeStrCode | restage.py:55-64 | the loop returns the code that the fold over the bytes defines |
| Records.RecordRoundTrip | restage.py:280-283 | an 8-byte record read back from where it was written is the record |
| Records.SerializedAt | restage.py:279-283 | record `k` of records written back to back reads back from 8·k bytes past the first |
| Text.SplitRejoins | restage.py:99 | the pieces of `split` rejoin to the line |
| Text.SplitPieces | restage.py:99 | no piece of `split` holds the separator, and there is one more piece than separators |
| Text.SplitPair | restage.py:99 | unpacking `split` into two names succeeds exactly when the line holds the separator once, and the two halves surround it |
| Text.Hex4RoundTrip | restage.py:295 | a name code rendered with `04x` reads back as the code |
| Text.Hex4Injective | restage.py:295 | distinct name codes give distinct dictionary keys |
| Text.DecimalRoundTrip | restage.py:297-300 | a counter renders as digits that read back as the counter, with a leading zero only for 0 |
| Text.DecimalInjective | restage.py:297-300 | distinct counters render differently |
| Dictionary.DictionaryLastWins | restage.py:215-225 | a key is in the table exactly when some line is a two-field pair for it, and it maps to the value of the last such line |
| Config.Classify | restage.py:77-97 | a line is a directive exactly when it is one of the four directive texts; every other line is a file line |
| Config.ParseConfigAcceptsValidOrder | restage.py:70-101 | reading `data.cnf` succeeds exactly when every file line is `name.ext` of an existing file, every directive is allowed after the one before it, and no file line comes before the first directive |
| Config.DirectivesIncrease | restage.py:77-95 | in an accepted configuration the directives strictly increase in the order resident, nocache, cache, sound |
| Config.DirectivesAtMostOnce | restage.py:77-95 | no directive appears twice in an accepted configuration |
| Config.SingleCacheRun | restage.py:74-101 | the files of an accepted configuration come out with their sections in that order, so there is at most one cache run |
| StagePack.EncodeRecordsLayout | restage.py:111-144 | the record loop succeeds exactly when every file's code, extension tag and size fit their fields, and it then writes the reference layout |
| StagePack.EmitMatchesLayout | restage.py:114-144 | from any file on, with the matching cache state and running total, the loop writes the reference layout of the remaining files |
| StagePack.LayoutShape | restage.py:114-144 | there is one record per file plus one trailer per cache run; file `i`'s record sits at its index; after the run's last file comes a trailer holding the run's total |
| StagePack.CacheValuesArePrefixSums | restage.py:132-134 | a cache file stores the total size of the cache files before it, so the first stores 0, each next one adds the previous size, and the trailer holds the whole run's size |
| StagePack.RecordCount | restage.py:138-144 | a stage with a cache file has more records than files |
| StagePack.PayloadEndsAligned | restage.py:146-157 | the payload ends on a sector boundary |
| StagePack.PayloadSegments | restage.py:148-155 | with the payload starting on a sector boundary, a file starts on a sector boundary when it is the first or the one before it is padded; a file after a cache file of the same run starts exactly where that file's data ends; every file's data sits at its start; and the payload ends where the last segment does |
| StagePack.PayloadHoldsData | restage.py:148-157 | a stage with any non-empty file has at least one sector of payload |
| StagePack.PayloadShift | restage.py:146-157 | the payload bytes do not change when the stage moves by whole sectors |
| StagePack.EncodeStageShift | restage.py:108-170 | the bytes of the stage with the corrected header count do not depend on the sector boundary the stage starts at |
| StagePack.EncodeStageAsWrittenShift | restage.py:108-170 | the bytes of the stage as the source writes it do not depend on the sector boundary it starts at |
| StagePack.PackStageShift | restage.py:66-176 | the same holds for the corrected `pack_stage`, configuration reading included |
| StagePack.PackStageAsWrittenShift | restage.py:66-176 | the same holds for `pack_stage` as written, configuration reading included |
| StagePack.PackStageSize | restage.py:146-176 | a stage packed with the corrected header count is a positive whole number of sectors |
| StagePack.PackStageAsWrittenSize | restage.py:146-176 | a stage packed as written is a positive whole number of sectors |
| StagePack.StageLengthAsWritten | restage.py:159-169 | the stage as written fills whole sectors and its total field is its length in sectors |
| StagePack.AsWrittenAgrees | restage.py:159-169 | the source's stage and the corrected one are equal exactly when the header count from the file count equals the sectors the records take |
| StagePack.PackStageAgrees | restage.py:66-176 | `pack_stage` as written writes the corrected stage whenever its header count is right |
| StagePack.SubHeaderFields | restage.py:167-169 | the two sub-header fields read back as written |
| StagePack.StageLength | restage.py:159-169 | the stage with the corrected header count is a whole number of sectors, the total field is its length in sectors, and the header field times 2048 is the distance from the stage start to the payload |
| StagePack.WarningIffHeaderOverflows | restage.py:159-165 | the warning is printed exactly when the header count, as the source computes it, exceeds one sector |
| StagePack.HeaderUndercount | restage.py:159-160 | with 255 files including a cache run, the source's header field says one sector, but the payload starts later |
| StageDecode.DecodeSerialized | restage.py:279-311 | the record loop run over records written back to back and a zero-mode terminator yields those records, named |
| StageDecode.NamingRules | restage.py:272-303 | naming succeeds exactly when every record has a mode tag and an allowed extension tag, and every nonzero code is in the dictionary; entry `k` then carries the name its position gives it |
| StageDecode.NameRecordAt | restage.py:291-303 | one record is named exactly when its nonzero code has a dictionary key; the name and the next counters are the ones its position gives |
| StageDecode.PrefixIsPermanent | restage.py:291-292 | after a resident record, every generated `.dar` name starts with `res` |
| StageDecode.ModelNumbersDistinct | restage.py:296-298 | a later model record gets a strictly larger number, so no model number repeats |
| StageDecode.ModelNamesDistinct | restage.py:296-298 | two model records get different generated names |
| ConfigWrite.WriteStageConfigReadBack | restage.py:227-251 | writing succeeds exactly when every mode is one of `cnrs`; provided no kept name is itself a directive text, the lines read back give every entry except `cache_end` its section (`n` for `.bin` names), in order, and no directive repeats the current section |
| ConfigWrite.DirectiveNameLost | restage.py:227-251 | an entry named `.cache` is written as the lines `.nocache`, `.cache`, and reading them back finds no file at all |
| StageUnpack.ExtractNames | restage.py:325-340 | extraction writes one file per entry other than `cache_end`, and succeeds only when no cache entry other than `cache_end` is last |
| StageRoundTrip.SoundDarIsCacheEnd | restage.py:120-128 | a `.dar` file listed under `.sound` is written with code 0 and tag `s`, and the decoder names that record `cache_end` rather than the file |
| StageRoundTrip.DecodeStageRecords | restage.py:279-311 | the records `pack_stage` writes decode to entries named by their positions |
| StageRoundTrip.EntryOfFile | restage.py:325-334 | the entry for file `i` has the file's name and tag, and the size extraction computes for it is the file's length |
| StageRoundTrip.ExtractLayout | restage.py:325-340 | extraction over the payload `pack_stage` wrote gives back every file in order, with its contents |
| StageRoundTrip.ConfigOfLayout | restage.py:227-251 | the configuration can be written for every stage `pack_stage` produces |
| StageRoundTrip.StageRoundTrip | restage.py:253-340 | `unpack_stage` on a stage the corrected `pack_stage` wrote at a sector boundary writes back every file, in order, with its contents and section tag, and warns exactly when the header needs more than one sector |
| StageRoundTrip.StageRoundTripAsWritten | restage.py:253-340 | the same holds for the stage `pack_stage` writes as it stands, when its header count from the file count is right |
| StageUnpack.BackwardCacheOffset | restage.py:332-337 | a cache entry whose next offset is smaller than its own by more than one makes the read size invalid and extraction fails; a difference of exactly -1 reads the rest of the file |
| Container.NameRoundTrip | restage.py:203 | a stage name packs exactly when it is ASCII, and reads back cut to eight characters and stripped of trailing NULs; a short ASCII name without trailing NULs reads back unchanged |
| Container.TableFromSucceeds | restage.py:199-209 | the table is written exactly when every name is ASCII and every start sector fits 32 bits, and it is 12 bytes per stage |
| Container.TableRoundTrip | restage.py:353-357 | the rows read back from a written table hold the stored names, and row `j` holds byte offset 2048·(start sector + the sectors of the stages before `j`) |
| Container.PackStagesLayout | restage.py:192-197 | the stage loop keeps the bytes before it and puts every stage image, whole, at its sector, in stage-list order; with at least one stage the file ends right after the last stage, on a sector boundary |
| Container.PackerStable | restage.py:108-170 | a stage packed with the corrected header count at any sector boundary has the bytes it has at offset 0, a positive whole number of sectors of them |
| Container.PackerAsWrittenStable | restage.py:108-170 | the same holds for `pack_stage` as written |
| Container.PackersAgree | restage.py:159-169 | for a stage whose header count is right, `pack_stage` as written and corrected write the same bytes at every cursor |
| Container.PackStagesAgree | restage.py:192-197 | two stage writers that agree on every stage make the stage loop write the same file and sizes |
| Container.PackDirWithAgrees | restage.py:187-209 | two stage writers that agree on every stage make `pack_dir` write the same container |
| Container.PackDirOriginalAgrees | restage.py:187-209 | up to 170 stages whose header counts are right, the source's `pack_dir` and `pack_stage` write the container the corrected ones write |
| Container.FirstStageSector | restage.py:187-190 | the source's first stage lands on sector 1 exactly when there are 1 to 170 stages |
| Container.RowsOnBoundary | restage.py:187-190 | the table ends on a sector boundary exactly when the stage count is a multiple of 512 |
| Container.AfterTableAsWritten | restage.py:187-190 | past 170 stages the source's first stage starts at sector 2 or later; it clears the table unless the stage count is a multiple of 512, and then it starts exactly where the table ends, without the size field |
| Container.FirstRowAsWritten | restage.py:187-209 | past 170 stages (and not a multiple of 512), the source's first row points at sector 1, while the first stage sits at sector 2 or later |
| Container.SubHeaderOverwrittenAsWritten | restage.py:187-209 | with a multiple of 512 stages, the source's table covers the first four bytes of the first stage |
| Container.PackDirAgrees | restage.py:187-209 | up to 170 stages, the corrected `pack_dir` writes the same bytes as the source |
| Container.DirLayout | restage.py:187-209 | the corrected container holds the table size, the table, and every stage at the sector its row names; with at least one stage its length is the first stage's offset plus every stage's sectors, a multiple of 2048; with no stage it is the 4-byte size field alone |
| ContainerRoundTrip.UnpackStagesAll | restage.py:363-368 | unpacking every row succeeds exactly when each row's stage unpacks, and gives those dumps in row order |
| ContainerRoundTrip.StageAtRoundTrip | restage.py:363-368 | a stage found whole at a sector boundary of the container reads back as its files, whatever surrounds it |
| ContainerRoundTrip.StageEndsBefore | restage.py:279-286 | in a container every stage's terminator record lies inside the file once the last stage holds its own: every other stage is followed by the next one |
| ContainerRoundTrip.DirRoundTrip | restage.py:342-368 | `unpack_dir` on what the corrected `pack_dir` wrote lists every stage under its stored name, in order, and writes back each stage's files |
| ContainerRoundTrip.DirRoundTripAsWritten | restage.py:342-368 | the same holds for the source's `pack_dir` and `pack_stage`, for up to 170 stages whose header counts are right |

## Left out

- The command line (`argparse`, `parse_args`), verbose printing and the final messages are left out: they do not affect the bytes.
- File I/O is replaced by values:
  - a stage directory is its `data.cnf` lines and a map from file name to contents;
  - `os.path.getsize` is the length of those contents;
  - `os.mkdir` and the files `unpack_stage` writes are the returned `StageDump`;
  - the stage list, the dictionary file and `stage_list.txt` are sequences of lines.
- `str.strip()` on lines read from files is not modelled: lines are taken already stripped, because Unicode whitespace is outside the codec.
- EUC-JP encoding is the parameter `enc`. The model does not fix which names it encodes or to which bytes.
- `unpack_dir`'s `--stage` filter is left out: the model unpacks every stage, which is the default.
- An empty `stage_list.txt` gives a container of 4 bytes, the zero table size and nothing after it, so the length is a multiple of 2048 only when there is at least one stage. `Container.DirLayout` states both cases.
- Container.PackDirWith takes the stage writer as a parameter (`StagePacker`). The layout lemmas ask only that the writer be sector-stable.
- Container.PackerStable is stated for `pack_stage` with the corrected header count (`PackerOf`). `Container.PackerAsWrittenStable` states it for the source's `pack_stage`.
- StagePack.PackStageShift is stated for `pack_stage` with the corrected header count. `StagePack.PackStageAsWrittenShift` states it for the source's `pack_stage`.
- StageRoundTrip.StageRoundTrip is stated for the stage with the corrected header count. For the source's stage, `StageRoundTripAsWritten` asks that the header count from the file count equal the sectors the records take (`HeaderCounted`). When it does not, the source's stage cannot be read back (see Findings).
- ContainerRoundTrip.DirRoundTrip is stated for `pack_dir` and `pack_stage` with both corrections. `DirRoundTripAsWritten` covers the source's versions, for up to 170 stages whose header counts are right. Past 170 stages the source's rows point at the wrong sector (see Findings).
- StageRoundTrip.StageRoundTrip and ContainerRoundTrip.DirRoundTrip promise recovery only under three conditions:
  - no `.bin` file is listed under `.cache`. Such a file is tagged `s` but stores its cache offset, which `unpack_stage` then reads as its size;
  - every record resolves: the dictionary holds every nonzero code, the name is not `cache_end`, and the extension tag is lower-case. This rules out a `.dar` file listed under `.sound`. `pack_stage` writes it with code 0 and tag `s`, and `unpack_stage` names that record `cache_end` (`StageRoundTrip.SoundDarIsCacheEnd`). The file is then not extracted. The align that skips it does nothing on an aligned cursor, so the next file's read starts at its bytes;
  - the 8-byte read that stops the record loop lies inside the file. In a container every stage but the last is followed by another stage, which holds those bytes. So `DirRoundTrip` asks this only of the last stage (`EndsInside`), which fails when its records end 4 bytes before a sector boundary and its payload is empty.
- ConfigWrite.WriteStageConfigReadBack asks that no kept entry name be `.resident`, `.nocache`, `.cache` or `.sound`. Such a name can come from the dictionary. `write_stage_config` writes it as a plain line, and reading `data.cnf` again takes that line for a directive, so the file drops out (`ConfigWrite.DirectiveNameLost`).
- StageRoundTrip.StageRoundTrip returns the unpacked files as the sequence of writes `unpack_stage` makes, not as the directory they leave. A name written twice keeps only its last contents on disk. Two files whose 16-bit `strcode` and extension agree share one dictionary key, so they come back under one name. The lemma promises every write, not that the directory holds every file.
- ContainerRoundTrip.DirRoundTrip likewise returns one dump per table row. Two stage names that agree in their first eight characters come back under one stored name, hence one directory and one `data.cnf`, and the later stage overwrites the earlier one's files there.
- StageRoundTrip.StageRoundTrip does not prove that the regenerated `data.cnf` packs again. `write_stage_config` moves `.bin` files to `.nocache`, which can come after `.cache`.

## Findings

| source | as written | input that shows it | evidently intended | confidence | as-written member | corrected member |
|---|---|---|---|---|---|---|
| restage.py:159-160 | the header sector count is `ceil((4 + 8·files) / 2048)`, which ignores the trailer record after the cache run | a stage of 255 files with a cache run: 256 records need two sectors, but the field says one, so `unpack_stage` seeks into the records | `ceil((4 + 8·records) / 2048)`, the sectors the records occupy | high; not executed | StagePack.HeaderUndercount | StagePack.StageLength |
| restage.py:187-201 | the first stage goes to `AlignUp(12·k)`, which leaves out the 4-byte size field, while the rows count sectors from 1 | 171 stages: the table ends at byte 2056, the first stage lands at sector 2, but its row says sector 1. 512 stages: the table's last row overwrites the first stage's sub-header | the first stage at `AlignUp(4 + 12·k)`, with rows counting from that sector | high; not executed | Container.FirstRowAsWritten, Container.SubHeaderOverwrittenAsWritten | ContainerRoundTrip.DirRoundTrip |
