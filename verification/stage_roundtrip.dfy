/** The headline property of the stage codec: `unpack_stage`, run on a
    stage that `pack_stage` wrote, gives back every file's contents and
    section, under the name the dictionary or the naming rules give it. */
module StageRoundTrip {
  import opened Outcome
  import opened Bytes
  import opened Text
  import opened Config
  import opened Records
  import opened StagePack
  import opened StageDecode
  import opened ConfigWrite
  import opened StageUnpack

  /** No `.bin` file is listed under `.cache`: such a file is tagged `'s'`
      but stores its cache offset, which the decoder reads as its size. */
  predicate NoCachedBin(fs: seq<FileEntry>)
  {
    forall i :: 0 <= i < |fs| && fs[i].section == Cache ==> fs[i].ext != "bin"
  }

  /** A record the decoder accepts and names as a file (not as a cache-run
      end): a lower-case extension tag, a dictionary entry for a nonzero
      code, and a model or texture kind for a zero code. */
  predicate ResolvableRecord(r: Record, table: map<string, string>)
  {
    && IsLowerByte(r.ext)
    && (r.code != 0 ==> DictKey(r.code, r.ext) in table && table[DictKey(r.code, r.ext)] != CACHE_END)
    && (r.code == 0 ==> r.tag != TAG_SOUND && r.ext != TRAILER_EXT)
  }

  /** Why `ResolvableRecord` rules out a zero code under tag `'s'`: a `.dar`
      file listed under `.sound` is written with code 0 and tag `'s'`, and
      `unpack_stage` names that record `cache_end`, as if it closed a cache
      run, so the file is not extracted. */
  lemma SoundDarIsCacheEnd(fs: seq<FileEntry>, i: nat, enc: Encoder, st: Namer, table: map<string, string>)
    requires i < |fs| && EncodableAt(fs, i, enc) && fs[i].ext == "dar" && fs[i].section == Sound
    ensures RecordOf(fs, i, enc).code == 0 && RecordOf(fs, i, enc).tag == TAG_SOUND
    ensures !ResolvableRecord(RecordOf(fs, i, enc), table)
    ensures NameRecord(RecordOf(fs, i, enc), st, table) == Ok((CACHE_END, st))
  {
  }

  predicate Resolvable(fs: seq<FileEntry>, enc: Encoder, table: map<string, string>)
  {
    forall i :: 0 <= i < |fs| ==> EncodableAt(fs, i, enc) && ResolvableRecord(RecordOf(fs, i, enc), table)
  }

  /** The decoded entries are the records, each named by its position. */
  predicate Decoded(es: seq<Entry>, recs: seq<Record>, table: map<string, string>)
  {
    |es| == |recs| && forall k :: 0 <= k < |es| ==> es[k] == Entry(NameAt(recs, k, table), recs[k].tag, recs[k].value)
  }

  /** The name file `i` comes back under. */
  function NameOfFile(fs: seq<FileEntry>, i: nat, enc: Encoder, table: map<string, string>): string
    requires i < |fs| && EncodableFrom(fs, 0, enc)
  {
    LayoutShape(fs, 0, enc);
    NameAt(LayoutFrom(fs, 0, enc), RecordIndex(fs, 0, i), table)
  }

  lemma NameableAppend(a: seq<Record>, b: seq<Record>, table: map<string, string>)
    requires Nameable(a, table) && Nameable(b, table) && NonzeroTags(a) && NonzeroTags(b)
    ensures Nameable(a + b, table) && NonzeroTags(a + b)
  {
    assert forall k :: |a| <= k < |a + b| ==> (a + b)[k] == b[k - |a|];
  }

  /** Every record of a resolvable layout passes the decoder's checks. */
  lemma {:induction false} LayoutNameable(fs: seq<FileEntry>, from: nat, enc: Encoder, table: map<string, string>)
    requires from <= |fs| && Resolvable(fs, enc, table)
    ensures EncodableFrom(fs, from, enc)
    ensures Nameable(LayoutFrom(fs, from, enc), table) && NonzeroTags(LayoutFrom(fs, from, enc))
    decreases |fs| - from
  {
    if from < |fs| {
      LayoutNameable(fs, from + 1, enc, table);
      var head := RecordsFor(fs, from, enc);
      assert Nameable(head, table) && NonzeroTags(head);
      NameableAppend(head, LayoutFrom(fs, from + 1, enc), table);
    }
  }

  /** After the last file the record index is the number of records. */
  lemma {:induction false} RecordIndexTotal(fs: seq<FileEntry>, i: nat)
    requires i <= |fs|
    ensures RecordIndex(fs, 0, i) + (|fs| - i) + RunEndsFrom(fs, i) == |fs| + RunEndsFrom(fs, 0)
    decreases i
  {
    if i > 0 {
      RecordIndexTotal(fs, i - 1);
    }
  }

  lemma DarNameIsNotCacheEnd(rs: seq<Record>, i: nat, kind: string, n: nat)
    requires i < |rs|
    ensures DarName(PrefixAt(rs, i), kind, n) != CACHE_END
  {
    assert DarName(PrefixAt(rs, i), kind, n)[0] != CACHE_END[0];
  }

  /** The records of file `i` in the layout of the whole stage. */
  lemma RecordsOfFile(fs: seq<FileEntry>, enc: Encoder, i: nat)
    requires i < |fs| && EncodableFrom(fs, 0, enc)
    ensures var recs := LayoutFrom(fs, 0, enc);
      var k := RecordIndex(fs, 0, i);
      && RecordIndex(fs, 0, i + 1) == k + (if EndsCacheRun(fs, i) then 2 else 1)
      && RecordIndex(fs, 0, i + 1) <= |recs|
      && (i + 1 < |fs| ==> RecordIndex(fs, 0, i + 1) < |recs|)
      && recs[k] == RecordOf(fs, i, enc)
      && (EndsCacheRun(fs, i) ==> recs[k + 1] == Trailer(CacheBefore(fs, i + 1)))
      && (!EndsCacheRun(fs, i) && i + 1 < |fs| ==> recs[k + 1] == RecordOf(fs, i + 1, enc))
  {
    LayoutShape(fs, 0, enc);
    RecordIndexTotal(fs, i + 1);
  }

  /** The name file `i` comes back under is a file name, not a run end. */
  lemma NameOfFileIsFile(fs: seq<FileEntry>, enc: Encoder, table: map<string, string>, i: nat)
    requires i < |fs| && Resolvable(fs, enc, table) && EncodableFrom(fs, 0, enc)
    ensures NameOfFile(fs, i, enc, table) != CACHE_END
  {
    RecordsOfFile(fs, enc, i);
    var recs := LayoutFrom(fs, 0, enc);
    var k := RecordIndex(fs, 0, i);
    var r := RecordOf(fs, i, enc);
    assert ResolvableRecord(r, table);
    if r.code == 0 {
      DarNameIsNotCacheEnd(recs, k, "mdl", 1 + ModelsBefore(recs, k));
      DarNameIsNotCacheEnd(recs, k, "tex", 1 + TexturesBefore(recs, k));
    }
  }

  /** What the decoded entry of file `i` (and of the trailer after it, if
      any) looks like to the extraction loop. */
  lemma EntryOfFile(fs: seq<FileEntry>, enc: Encoder, table: map<string, string>, es: seq<Entry>, i: nat)
    requires i < |fs| && Resolvable(fs, enc, table) && NoCachedBin(fs)
    requires EncodableFrom(fs, 0, enc) && Decoded(es, LayoutFrom(fs, 0, enc), table)
    ensures var k := RecordIndex(fs, 0, i);
      && RecordIndex(fs, 0, i + 1) == k + (if EndsCacheRun(fs, i) then 2 else 1)
      && RecordIndex(fs, 0, i + 1) <= |es|
      && es[k].name == NameOfFile(fs, i, enc, table) != CACHE_END
      && es[k].mode == Tag(fs[i])
      && (es[k].mode == TAG_CACHE <==> fs[i].section == Cache)
      && SizeOf(es, k) == Ok(|fs[i].data|)
      && (EndsCacheRun(fs, i) ==> es[k + 1].name == CACHE_END)
  {
    var recs := LayoutFrom(fs, 0, enc);
    RecordsOfFile(fs, enc, i);
    NameOfFileIsFile(fs, enc, table, i);
    var k := RecordIndex(fs, 0, i);
    assert es[k] == Entry(NameAt(recs, k, table), recs[k].tag, recs[k].value);
    assert EncodableAt(fs, i, enc);
    if EndsCacheRun(fs, i) {
      assert es[k + 1] == Entry(NameAt(recs, k + 1, table), recs[k + 1].tag, recs[k + 1].value);
    }
    if fs[i].section == Cache {
      assert es[k + 1] == Entry(NameAt(recs, k + 1, table), recs[k + 1].tag, recs[k + 1].value);
      assert es[k + 1].value == CacheBefore(fs, i + 1) == es[k].value + |fs[i].data|;
    }
    SizeFromValues(es, k, |fs[i].data|);
  }

  /** The extraction loop's size of entry `k`, from the value fields. */
  lemma SizeFromValues(es: seq<Entry>, k: nat, size: nat)
    requires k < |es|
    requires es[k].mode == TAG_CACHE ==> k + 1 < |es| && es[k + 1].value == es[k].value + size
    requires es[k].mode != TAG_CACHE ==> es[k].value == size
    ensures SizeOf(es, k) == Ok(size)
  {
  }

  /** The reader's view of file `i`'s payload: its data, then the padding
      (if any) up to the next file's payload. */
  lemma PayloadStep(buf: seq<byte>, fs: seq<FileEntry>, i: nat, p: nat)
    requires i < |fs| && At(buf, p, PayloadFrom(fs, i, p))
    ensures var d := fs[i].data;
      var p' := NextFile(fs, i, p);
      && Read(buf, p, |d|) == (d, p + |d|)
      && At(buf, p', PayloadFrom(fs, i + 1, p'))
      && (AlignsAfter(fs, i) ==> ReaderAlign(buf, p + |d|, SECTOR) == p')
      && (!AlignsAfter(fs, i) ==> p' == p + |d|)
  {
    var d := fs[i].data;
    var pad := PadAfter(fs, i, p);
    var p' := NextFile(fs, i, p);
    var rest := PayloadFrom(fs, i + 1, p');
    assert PayloadFrom(fs, i, p) == d + pad + rest;
    AtSplit(buf, p, d + pad, rest);
    AtSplit(buf, p, d, pad);
  }

  /** One file's turn in the extraction loop: its entry (and the trailer
      after it, if any) reads exactly its data and leaves the reader at the
      next file's payload. */
  lemma ExtractOne(buf: seq<byte>, fs: seq<FileEntry>, enc: Encoder, table: map<string, string>,
                   es: seq<Entry>, i: nat, p: nat)
    requires i < |fs| && Resolvable(fs, enc, table) && NoCachedBin(fs)
    requires EncodableFrom(fs, 0, enc) && Decoded(es, LayoutFrom(fs, 0, enc), table)
    requires At(buf, p, PayloadFrom(fs, i, p))
    ensures RecordIndex(fs, 0, i) < RecordIndex(fs, 0, i + 1) <= |es|
    ensures var r := ExtractFrom(buf, es, RecordIndex(fs, 0, i + 1), NextFile(fs, i, p));
      ExtractFrom(buf, es, RecordIndex(fs, 0, i), p) ==
        if r.Ok? then Ok([Extracted(NameOfFile(fs, i, enc, table), Tag(fs[i]), fs[i].data)] + r.value) else r
  {
    var k, k', p', cache, ends, aligns := FileTurn(buf, fs, enc, table, es, i, p);
    ExtractEntry(buf, es, k, k', p, p', fs[i].data, cache, ends, aligns);
  }

  /** File `i`'s turn in the quantities of the extraction loop. */
  lemma FileTurn(buf: seq<byte>, fs: seq<FileEntry>, enc: Encoder, table: map<string, string>,
                 es: seq<Entry>, i: nat, p: nat)
    returns (k: nat, k': nat, p': nat, cache: bool, ends: bool, aligns: bool)
    requires i < |fs| && Resolvable(fs, enc, table) && NoCachedBin(fs)
    requires EncodableFrom(fs, 0, enc) && Decoded(es, LayoutFrom(fs, 0, enc), table)
    requires At(buf, p, PayloadFrom(fs, i, p))
    ensures k == RecordIndex(fs, 0, i) && k' == RecordIndex(fs, 0, i + 1) && p' == NextFile(fs, i, p)
    ensures k < |es| && es[k].name == NameOfFile(fs, i, enc, table) && es[k].mode == Tag(fs[i])
    ensures EntryTurn(buf, es, k, k', p, p', fs[i].data, cache, ends, aligns)
  {
    k, k' := RecordIndex(fs, 0, i), RecordIndex(fs, 0, i + 1);
    p' := NextFile(fs, i, p);
    cache, ends, aligns := fs[i].section == Cache, EndsCacheRun(fs, i), AlignsAfter(fs, i);
    EntryOfFile(fs, enc, table, es, i);
    PayloadStep(buf, fs, i, p);
  }

  /** Entry `k` describes a file of `|d|` bytes that the reader finds at
      `p`; `cache` says it is a cache file, `ends` that a run end follows
      it, `aligns` that the reader then moves to a sector boundary, which
      is `p'`; the loop's next file entry is `k'`. */
  predicate EntryTurn(buf: seq<byte>, es: seq<Entry>, k: nat, k': nat, p: nat, p': nat, d: seq<byte>,
                      cache: bool, ends: bool, aligns: bool)
  {
    && k < k' <= |es| && k' == k + (if ends then 2 else 1)
    && es[k].name != CACHE_END && SizeOf(es, k) == Ok(|d|)
    && (es[k].mode == TAG_CACHE <==> cache)
    && (ends ==> es[k + 1].name == CACHE_END)
    && (aligns <==> !cache || ends)
    && Read(buf, p, |d|) == (d, p + |d|)
    && (aligns ==> ReaderAlign(buf, p + |d|, SECTOR) == p')
    && (!aligns ==> p' == p + |d|)
  }

  /** The extraction loop on entry `k`, stated with the loop's own
      quantities: a file of `|d|` bytes at `p`, possibly followed by a
      run end, after which the reader is at `p'` and the loop at `k'`. */
  lemma ExtractEntry(buf: seq<byte>, es: seq<Entry>, k: nat, k': nat, p: nat, p': nat, d: seq<byte>,
                     cache: bool, ends: bool, aligns: bool)
    requires EntryTurn(buf, es, k, k', p, p', d, cache, ends, aligns)
    ensures var r := ExtractFrom(buf, es, k', p');
      ExtractFrom(buf, es, k, p) == if r.Ok? then Ok([Extracted(es[k].name, es[k].mode, d)] + r.value) else r
  {
    var next := if cache then p + |d| else p';
    ExtractHead(buf, es, k, p, d, next);
    ExtractAfter(buf, es, k, k', p, p', d, cache, ends, aligns);
  }

  /** After entry `k`'s data, the loop reaches `k'` with the reader at `p'`
      without writing anything. */
  lemma ExtractAfter(buf: seq<byte>, es: seq<Entry>, k: nat, k': nat, p: nat, p': nat, d: seq<byte>,
                     cache: bool, ends: bool, aligns: bool)
    requires EntryTurn(buf, es, k, k', p, p', d, cache, ends, aligns)
    ensures ExtractFrom(buf, es, k + 1, if cache then p + |d| else p') == ExtractFrom(buf, es, k', p')
  {
    if cache && ends {
      ExtractRunEnd(buf, es, k + 1, p + |d|);
    }
  }

  /** The extraction loop at a file entry: its data is read, and the loop
      goes on after it (aligned to a sector unless it is a cache file). */
  lemma ExtractHead(buf: seq<byte>, es: seq<Entry>, k: nat, p: nat, d: seq<byte>, next: nat)
    requires k < |es| && es[k].name != CACHE_END && SizeOf(es, k) == Ok(|d|)
    requires Read(buf, p, |d|) == (d, p + |d|)
    requires next == if es[k].mode != TAG_CACHE then ReaderAlign(buf, p + |d|, SECTOR) else p + |d|
    ensures var r := ExtractFrom(buf, es, k + 1, next);
      ExtractFrom(buf, es, k, p) == if r.Ok? then Ok([Extracted(es[k].name, es[k].mode, d)] + r.value) else r
  {
  }

  /** The extraction loop at a run end: nothing is written and the reader
      moves to the next sector. */
  lemma ExtractRunEnd(buf: seq<byte>, es: seq<Entry>, k: nat, q: nat)
    requires k < |es| && es[k].name == CACHE_END
    ensures ExtractFrom(buf, es, k, q) == ExtractFrom(buf, es, k + 1, ReaderAlign(buf, q, SECTOR))
  {
  }

  /** The extraction loop, started at file `i`'s entry with the reader at
      `p`, writes files `i..` back exactly: under their names, with their
      section tags and their data. */
  ghost predicate ExtractsFiles(buf: seq<byte>, fs: seq<FileEntry>, enc: Encoder, table: map<string, string>,
                                es: seq<Entry>, i: nat, p: nat)
    requires i <= |fs| && EncodableFrom(fs, 0, enc)
  {
    && RecordIndex(fs, 0, i) <= |es|
    && ExtractFrom(buf, es, RecordIndex(fs, 0, i), p).Ok?
    && var out := ExtractFrom(buf, es, RecordIndex(fs, 0, i), p).value;
      && |out| == |fs| - i
      && forall j :: i <= j < |fs| ==> out[j - i] == Extracted(NameOfFile(fs, j, enc, table), Tag(fs[j]), fs[j].data)
  }

  /** Started at file `i`'s entry with the reader at the start of file
      `i`'s payload, the extraction loop writes files `i..` back. */
  lemma {:induction false} ExtractLayout(buf: seq<byte>, fs: seq<FileEntry>, enc: Encoder, table: map<string, string>,
                                         es: seq<Entry>, i: nat, p: nat)
    requires i <= |fs| && Resolvable(fs, enc, table) && NoCachedBin(fs)
    requires EncodableFrom(fs, 0, enc) && Decoded(es, LayoutFrom(fs, 0, enc), table)
    requires At(buf, p, PayloadFrom(fs, i, p))
    ensures ExtractsFiles(buf, fs, enc, table, es, i, p)
    decreases |fs| - i
  {
    if i == |fs| {
      LayoutShape(fs, 0, enc);
      RecordIndexTotal(fs, |fs|);
    } else {
      PayloadStep(buf, fs, i, p);
      ExtractLayout(buf, fs, enc, table, es, i + 1, NextFile(fs, i, p));
      ExtractCons(buf, fs, enc, table, es, i, p);
    }
  }

  /** The files extracted from file `i` on: file `i`'s, then the rest. */
  lemma ExtractCons(buf: seq<byte>, fs: seq<FileEntry>, enc: Encoder, table: map<string, string>,
                    es: seq<Entry>, i: nat, p: nat)
    requires i < |fs| && Resolvable(fs, enc, table) && NoCachedBin(fs)
    requires EncodableFrom(fs, 0, enc) && Decoded(es, LayoutFrom(fs, 0, enc), table)
    requires At(buf, p, PayloadFrom(fs, i, p))
    requires ExtractsFiles(buf, fs, enc, table, es, i + 1, NextFile(fs, i, p))
    ensures ExtractsFiles(buf, fs, enc, table, es, i, p)
  {
    ExtractOne(buf, fs, enc, table, es, i, p);
    var out := ExtractFrom(buf, es, RecordIndex(fs, 0, i), p).value;
    var tail := ExtractFrom(buf, es, RecordIndex(fs, 0, i + 1), NextFile(fs, i, p)).value;
    assert out == [Extracted(NameOfFile(fs, i, enc, table), Tag(fs[i]), fs[i].data)] + tail;
    forall j | i < j < |fs|
      ensures out[j - i] == Extracted(NameOfFile(fs, j, enc, table), Tag(fs[j]), fs[j].data)
    {
      assert out[j - i] == tail[j - (i + 1)];
    }
  }

  /** The padding after the records is at least 4 bytes, because the
      records end 4 bytes past a multiple of 8 and a sector is a multiple
      of 8. */
  lemma RecordPadding(start: nat, count: nat)
    requires start % SECTOR == 0
    ensures |PadAt(start + 4 + 8 * count, SECTOR)| >= 4
  {
    var pad := PadAt(start + 4 + 8 * count, SECTOR);
    var q := (start + 4 + 8 * count + |pad|) / SECTOR;
    assert start + 4 + 8 * count + |pad| == q * SECTOR;
    var s := start / SECTOR;
    assert start == s * SECTOR;
    var m := 256 * (q - s) - count;
    assert 4 + |pad| == 8 * m;
  }

  /** Where the pieces of a stage written at `|pre|` sit in the container. */
  lemma StagePieces(pre: seq<byte>, fs: seq<FileEntry>, enc: Encoder, post: seq<byte>)
    requires |pre| % SECTOR == 0 && EncodeStage(|pre|, fs, enc).Ok?
    ensures EncodeRecords(fs, enc).Ok?
    ensures var buf := pre + EncodeStage(|pre|, fs, enc).value.bytes + post;
      var start := |pre|;
      var recs := EncodeRecords(fs, enc).value;
      var ps := PayloadStart(start, |recs|);
      && start + 4 + 8 * |recs| + 4 <= ps
      && At(buf, start + 4, Serialize(recs))
      && buf[start + 4 + 8 * |recs| + 2] == 0
      && GetI16(buf, start) == HeaderSectors(|recs|)
      && start + HeaderSectors(|recs|) * SECTOR == ps
      && At(buf, ps, PayloadFrom(fs, 0, ps))
  {
    var start := |pre|;
    var recs, body := StageImage(start, fs, enc);
    HeaderSectorsSpan(start, |recs|);
    RecordPadding(start, |recs|);
    var pad := PadAt(start + 4 + 8 * |recs|, SECTOR);
    var payload := PayloadFrom(fs, 0, PayloadStart(start, |recs|));
    ImagePieces(pre, EncodeStage(start, fs, enc).value.bytes, HeaderSectors(|recs|), (4 + |body|) / SECTOR,
                body, Serialize(recs), pad, payload, post);
  }

  lemma ImagePieces(pre: seq<byte>, img: seq<byte>, hs: u16, ts: u16, body: seq<byte>,
                    rb: seq<byte>, pad: seq<byte>, payload: seq<byte>, post: seq<byte>)
    requires hs < 0x8000 && |pad| >= 4 && pad[2] == 0
    requires img == U16(hs) + U16(ts) + body && body == rb + pad + payload
    ensures var buf := pre + img + post;
      && GetI16(buf, |pre|) == hs
      && At(buf, |pre| + 4, rb)
      && buf[|pre| + 4 + |rb| + 2] == 0
      && At(buf, |pre| + 4 + |rb| + |pad|, payload)
  {
    var buf := pre + img + post;
    assert buf == pre + U16(hs) + (U16(ts) + rb + pad + payload + post);
    I16RoundTrip(hs, pre, U16(ts) + rb + pad + payload + post);
    var head := pre + U16(hs) + U16(ts);
    assert buf == head + rb + (pad + payload + post);
    AtConcat(head, rb, pad + payload + post);
    assert buf == (head + rb + pad) + payload + post;
    AtConcat(head + rb + pad, payload, post);
  }

  /** The record loop reads back exactly the layout's records, named by
      position. */
  lemma DecodeStageRecords(buf: seq<byte>, start: nat, fs: seq<FileEntry>, enc: Encoder, table: map<string, string>)
    requires Resolvable(fs, enc, table) && EncodableFrom(fs, 0, enc)
    requires var recs := LayoutFrom(fs, 0, enc);
      && At(buf, start + 4, Serialize(recs))
      && start + 4 + 8 * |recs| + 8 <= |buf|
      && buf[start + 4 + 8 * |recs| + 2] == 0
    ensures DecodeFrom(buf, start + 4, FRESH, table).Ok?
    ensures Decoded(DecodeFrom(buf, start + 4, FRESH, table).value, LayoutFrom(fs, 0, enc), table)
  {
    var recs := LayoutFrom(fs, 0, enc);
    LayoutNameable(fs, 0, enc, table);
    assert recs[0..] == recs;
    DecodeSerialized(recs, 0, buf, start + 4, FRESH, table);
    NamingRules(recs, table);
  }

  /** The regenerated configuration of a decoded layout cannot fail: every
      mode is a section tag. */
  lemma ConfigOfLayout(fs: seq<FileEntry>, enc: Encoder, table: map<string, string>, es: seq<Entry>)
    requires Resolvable(fs, enc, table) && EncodableFrom(fs, 0, enc)
    requires Decoded(es, LayoutFrom(fs, 0, enc), table)
    ensures WriteStageConfig(es).Ok?
  {
    var recs := LayoutFrom(fs, 0, enc);
    LayoutNameable(fs, 0, enc, table);
    forall k | 0 <= k < |es|
      ensures IsModeTag(es[k].mode)
    {
      assert es[k].mode == recs[k].tag && WellTagged(recs[k]);
    }
    WriteFromSucceeds(es, 0, None);
  }

  /** `unpack_stage` on a buffer that holds a layout's records at
      `start + 4`, a readable terminator after them, a header field that
      points at the payload, and the payload itself. */
  lemma UnpackLayout(buf: seq<byte>, start: nat, fs: seq<FileEntry>, enc: Encoder, table: map<string, string>)
    returns (es: seq<Entry>, files: seq<Extracted>)
    requires Resolvable(fs, enc, table) && NoCachedBin(fs) && EncodableFrom(fs, 0, enc)
    requires var recs := LayoutFrom(fs, 0, enc);
      var ps := PayloadStart(start, |recs|);
      && At(buf, start + 4, Serialize(recs))
      && start + 4 + 8 * |recs| + 8 <= |buf|
      && buf[start + 4 + 8 * |recs| + 2] == 0
      && start + GetI16(buf, start) * SECTOR == ps
      && At(buf, ps, PayloadFrom(fs, 0, ps))
    ensures WriteStageConfig(es).Ok?
    ensures UnpackStage(buf, start, table) == Ok(StageDump(es, WriteStageConfig(es).value, files, GetI16(buf, start) != 1))
    ensures Decoded(es, LayoutFrom(fs, 0, enc), table)
    ensures |files| == |fs|
    ensures forall i :: 0 <= i < |fs| ==> files[i] == Extracted(NameOfFile(fs, i, enc, table), Tag(fs[i]), fs[i].data)
  {
    var recs := LayoutFrom(fs, 0, enc);
    DecodeStageRecords(buf, start, fs, enc, table);
    es := DecodeFrom(buf, start + 4, FRESH, table).value;
    ConfigOfLayout(fs, enc, table, es);
    var ps := PayloadStart(start, |recs|);
    ExtractLayout(buf, fs, enc, table, es, 0, ps);
    assert RecordIndex(fs, 0, 0) == 0;
    files := ExtractFrom(buf, es, 0, ps).value;
    UnpackStageParts(buf, start, table, es, ps, files);
  }

  /** `d` gives back the files `fs`: the records decode to the encoded
      ones, the size warning is raised exactly when the header needs more
      than one sector, and every file comes back, in order, with its
      contents and its section tag. */
  predicate RecoversFiles(d: StageDump, fs: seq<FileEntry>, enc: Encoder, table: map<string, string>)
  {
    && EncodeRecords(fs, enc).Ok? && EncodableFrom(fs, 0, enc)
    && Decoded(d.entries, EncodeRecords(fs, enc).value, table)
    && (d.warning <==> HeaderSectors(|EncodeRecords(fs, enc).value|) != 1)
    && |d.files| == |fs|
    && forall i :: 0 <= i < |fs| ==> d.files[i] == Extracted(NameOfFile(fs, i, enc, table), Tag(fs[i]), fs[i].data)
  }

  /** The stage round trip: a stage written at a sector boundary of the
      container and read back from there decodes every record and writes
      every file back, in order, with its contents and its section tag. The
      stage is the one `EncodeStage` writes, with the corrected header count.
      The 8 bytes after the records, whose tag byte stops the record loop,
      must lie inside the buffer: the padding after the records holds them
      unless it is 4 bytes long, the payload is empty and nothing follows. */
  lemma StageRoundTrip(pre: seq<byte>, fs: seq<FileEntry>, enc: Encoder, table: map<string, string>, post: seq<byte>)
    requires |pre| % SECTOR == 0
    requires EncodeStage(|pre|, fs, enc).Ok?
    requires NoCachedBin(fs) && Resolvable(fs, enc, table)
    requires 8 * |EncodeRecords(fs, enc).value| + 12 <= |EncodeStage(|pre|, fs, enc).value.bytes| + |post|
    ensures var buf := pre + EncodeStage(|pre|, fs, enc).value.bytes + post;
      UnpackStage(buf, |pre|, table).Ok? && RecoversFiles(UnpackStage(buf, |pre|, table).value, fs, enc, table)
  {
    EncodeRecordsLayout(fs, enc);
    StagePieces(pre, fs, enc, post);
    RecoversAt(pre + EncodeStage(|pre|, fs, enc).value.bytes + post, |pre|, fs, enc, table);
  }

  /** The same round trip for the stage `pack_stage` writes as it stands,
      for files whose header count from the file count is right. */
  lemma StageRoundTripAsWritten(pre: seq<byte>, fs: seq<FileEntry>, enc: Encoder, table: map<string, string>, post: seq<byte>)
    requires |pre| % SECTOR == 0
    requires EncodeStageAsWritten(|pre|, fs, enc).Ok? && HeaderCounted(fs, enc)
    requires NoCachedBin(fs) && Resolvable(fs, enc, table)
    requires 8 * |EncodeRecords(fs, enc).value| + 12 <= |EncodeStageAsWritten(|pre|, fs, enc).value.bytes| + |post|
    ensures var buf := pre + EncodeStageAsWritten(|pre|, fs, enc).value.bytes + post;
      UnpackStage(buf, |pre|, table).Ok? && RecoversFiles(UnpackStage(buf, |pre|, table).value, fs, enc, table)
  {
    AsWrittenAgrees(|pre|, fs, enc);
    StageRoundTrip(pre, fs, enc, table, post);
  }

  /** A buffer that holds a stage's records, terminator and payload where
      the sub-header says gives the stage's files back. */
  lemma RecoversAt(buf: seq<byte>, start: nat, fs: seq<FileEntry>, enc: Encoder, table: map<string, string>)
    requires Resolvable(fs, enc, table) && NoCachedBin(fs) && EncodableFrom(fs, 0, enc)
    requires EncodeRecords(fs, enc) == Ok(LayoutFrom(fs, 0, enc))
    requires var recs := LayoutFrom(fs, 0, enc);
      var ps := PayloadStart(start, |recs|);
      && At(buf, start + 4, Serialize(recs))
      && start + 4 + 8 * |recs| + 8 <= |buf|
      && buf[start + 4 + 8 * |recs| + 2] == 0
      && GetI16(buf, start) == HeaderSectors(|recs|)
      && start + HeaderSectors(|recs|) * SECTOR == ps
      && At(buf, ps, PayloadFrom(fs, 0, ps))
    ensures UnpackStage(buf, start, table).Ok? && RecoversFiles(UnpackStage(buf, start, table).value, fs, enc, table)
  {
    var es, files := UnpackLayout(buf, start, fs, enc, table);
  }
}
