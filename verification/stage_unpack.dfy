/** `unpack_stage`: read the sub-header and the records, regenerate the
    configuration, then cut every file out of the payload. */
module StageUnpack {
  import opened Outcome
  import opened Bytes
  import opened Records
  import opened StageDecode
  import opened ConfigWrite

  /** One file written out: its name, the section tag it was read under,
      and its contents. */
  datatype Extracted = Extracted(name: string, mode: byte, data: seq<byte>)

  /** Everything `unpack_stage` produces for one stage. */
  datatype StageDump = StageDump(entries: seq<Entry>, config: seq<string>, files: seq<Extracted>, warning: bool)

  /** The number of bytes entry `i` occupies in the payload: for a cache
      entry, the next entry's offset minus its own. */
  function SizeOf(es: seq<Entry>, i: nat): Result<int>
    requires i < |es|
  {
    if es[i].mode != TAG_CACHE then Ok(es[i].value)
    else if i + 1 == |es| then Fail(MissingNextEntry)
    else Ok(es[i + 1].value - es[i].value)
  }

  /** The extraction loop from entry `i` on, with the reader at `pos`. */
  function ExtractFrom(buf: seq<byte>, es: seq<Entry>, i: nat, pos: nat): Result<seq<Extracted>>
    requires i <= |es|
    decreases |es| - i
  {
    if i == |es| then Ok([])
    else if es[i].name == CACHE_END then ExtractFrom(buf, es, i + 1, ReaderAlign(buf, pos, SECTOR))
    else
      var size :- SizeOf(es, i);
      if size < -1 then Fail(BadReadLength)
      else
        var (data, p) := Read(buf, pos, size);
        var next := if es[i].mode != TAG_CACHE then ReaderAlign(buf, p, SECTOR) else p;
        var rest :- ExtractFrom(buf, es, i + 1, next);
        Ok([Extracted(es[i].name, es[i].mode, data)] + rest)
  }

  /** A cache entry whose successor's offset lies two or more bytes below
      its own asks the file for a negative length other than -1, which stops
      the extraction; an offset exactly one below reads to the end. */
  lemma BackwardCacheOffset(buf: seq<byte>, es: seq<Entry>, i: nat, pos: nat)
    requires i + 1 < |es| && es[i].name != CACHE_END && es[i].mode == TAG_CACHE
    ensures es[i + 1].value - es[i].value < -1 ==> ExtractFrom(buf, es, i, pos) == Fail(BadReadLength)
    ensures es[i + 1].value - es[i].value == -1 && pos < |buf| ==>
      ExtractFrom(buf, es, i, pos).Ok? ==> ExtractFrom(buf, es, i, pos).value[0].data == buf[pos..]
  {
  }

  /** One stage read from offset `start` of the container. */
  function UnpackStage(buf: seq<byte>, start: nat, table: map<string, string>): Result<StageDump>
  {
    if start + 4 > |buf| then Fail(Truncated)
    else
      var headerSectors := GetI16(buf, start);
      var es :- DecodeFrom(buf, start + 4, FRESH, table);
      var payload := start + headerSectors * SECTOR;
      if payload < 0 then Fail(NegativeSeek)
      else
        var config :- WriteStageConfig(es);
        var files :- ExtractFrom(buf, es, 0, payload);
        Ok(StageDump(es, config, files, headerSectors != 1))
  }

  /** Every entry except the cache-run ends yields exactly one file, and a
      successful extraction never meets a cache entry without a successor. */
  lemma {:induction false} ExtractNames(buf: seq<byte>, es: seq<Entry>, i: nat, pos: nat)
    requires i <= |es| && ExtractFrom(buf, es, i, pos).Ok?
    ensures var fs := ExtractFrom(buf, es, i, pos).value;
      |fs| == |es| - i - CacheEndsFrom(es, i)
    ensures forall k :: i <= k < |es| && es[k].mode == TAG_CACHE && es[k].name != CACHE_END ==> k + 1 < |es|
    decreases |es| - i
  {
    if i < |es| {
      if es[i].name == CACHE_END {
        ExtractNames(buf, es, i + 1, ReaderAlign(buf, pos, SECTOR));
      } else {
        var size := SizeOf(es, i).value;
        assert size >= -1;
        var (data, p) := Read(buf, pos, size);
        var next := if es[i].mode != TAG_CACHE then ReaderAlign(buf, p, SECTOR) else p;
        ExtractNames(buf, es, i + 1, next);
      }
    }
  }

  function CacheEndsFrom(es: seq<Entry>, i: nat): nat
    requires i <= |es|
    decreases |es| - i
  {
    if i == |es| then 0 else (if es[i].name == CACHE_END then 1 else 0) + CacheEndsFrom(es, i + 1)
  }

  /** A stage unpacks exactly when its sub-header is readable, its records
      decode, the payload offset is not negative, and extraction succeeds;
      the warning is raised exactly when the header field is not 1. */
  lemma UnpackStageParts(buf: seq<byte>, start: nat, table: map<string, string>, es: seq<Entry>, payload: nat, files: seq<Extracted>)
    requires start + 4 <= |buf|
    requires DecodeFrom(buf, start + 4, FRESH, table) == Ok(es)
    requires start + GetI16(buf, start) * SECTOR == payload
    requires WriteStageConfig(es).Ok?
    requires ExtractFrom(buf, es, 0, payload) == Ok(files)
    ensures UnpackStage(buf, start, table) == Ok(StageDump(es, WriteStageConfig(es).value, files, GetI16(buf, start) != 1))
  {
  }
}
