/** The record loop of `unpack_stage`: read 8-byte records until one has a
    zero section tag, check each one, and give it a file name, either from
    the dictionary or made up from the stage's model and texture counters. */
module StageDecode {
  import opened Outcome
  import opened Bytes
  import opened Text
  import opened Records

  /** One decoded record: the file name, its section tag (`mode`) and its
      value (a size, or an offset into the cache data). */
  datatype Entry = Entry(name: string, mode: byte, value: u32)

  /** The naming state: the `stg`/`res` prefix and the next model and
      texture numbers. */
  datatype Namer = Namer(prefix: string, models: nat, textures: nat)

  const FRESH: Namer := Namer("stg", 1, 1)

  /** The name given to the zero-code record that closes a cache run. */
  const CACHE_END: string := "cache_end"

  /** The dictionary key `f"{code:04x}.{ext}"`. */
  function DictKey(code: u16, ext: byte): string
  {
    Hex4(code) + "." + [ext as char]
  }

  predicate IsModeTag(t: byte)
  {
    t == TAG_CACHE || t == TAG_NOCACHE || t == TAG_RESIDENT || t == TAG_SOUND
  }

  /** The two checks every non-terminating record must pass. */
  predicate WellTagged(r: Record)
  {
    IsModeTag(r.tag) && (IsLowerByte(r.ext) || r.ext == TRAILER_EXT)
  }

  /** A zero-code record that is named `<prefix>_mdl<n>.dar`. */
  predicate IsModel(r: Record)
  {
    r.code == 0 && r.ext != TRAILER_EXT && (r.tag == TAG_CACHE || r.tag == TAG_RESIDENT)
  }

  /** A zero-code record that is named `<prefix>_tex<n>.dar`. */
  predicate IsTexture(r: Record)
  {
    r.code == 0 && r.ext != TRAILER_EXT && r.tag == TAG_NOCACHE
  }

  function DarName(prefix: string, kind: string, n: nat): string
  {
    prefix + "_" + kind + Decimal(n) + ".dar"
  }

  /** Name one well-tagged record, updating the naming state. */
  function NameRecord(r: Record, st: Namer, table: map<string, string>): Result<(string, Namer)>
  {
    var st1 := if r.tag == TAG_RESIDENT then st.(prefix := "res") else st;
    if r.code != 0 then
      var key := DictKey(r.code, r.ext);
      if key in table then Ok((table[key], st1)) else Fail(LookupFailure(key))
    else if IsModel(r) then Ok((DarName(st1.prefix, "mdl", st1.models), st1.(models := st1.models + 1)))
    else if IsTexture(r) then Ok((DarName(st1.prefix, "tex", st1.textures), st1.(textures := st1.textures + 1)))
    else Ok((CACHE_END, st1))
  }

  /** The record loop as written: read at `pos` until a zero tag. */
  function DecodeFrom(buf: seq<byte>, pos: nat, st: Namer, table: map<string, string>): Result<seq<Entry>>
    decreases |buf| - pos
  {
    if pos + 8 > |buf| then Fail(Truncated)
    else
      var r := RecordAt(buf, pos);
      if r.tag == 0 then Ok([])
      else if !WellTagged(r) then Fail(CorruptEntry)
      else
        var (name, st') :- NameRecord(r, st, table);
        var rest :- DecodeFrom(buf, pos + 8, st', table);
        Ok([Entry(name, r.tag, r.value)] + rest)
  }

  /** The same loop over records already read, from record `i` on. */
  function NameFrom(rs: seq<Record>, i: nat, st: Namer, table: map<string, string>): Result<seq<Entry>>
    requires i <= |rs|
    decreases |rs| - i
  {
    if i == |rs| then Ok([])
    else if !WellTagged(rs[i]) then Fail(CorruptEntry)
    else
      var (name, st') :- NameRecord(rs[i], st, table);
      var rest :- NameFrom(rs, i + 1, st', table);
      Ok([Entry(name, rs[i].tag, rs[i].value)] + rest)
  }

  predicate NonzeroTags(rs: seq<Record>)
  {
    forall i :: 0 <= i < |rs| ==> rs[i].tag != 0
  }

  /** Reading a serialized run of records with nonzero tags that is followed
      by 8 bytes with a zero tag is naming exactly those records. */
  lemma {:induction false} DecodeSerialized(rs: seq<Record>, i: nat, buf: seq<byte>, pos: nat, st: Namer, table: map<string, string>)
    requires i <= |rs| && NonzeroTags(rs)
    requires At(buf, pos, Serialize(rs[i..]))
    requires pos + 8 * (|rs| - i) + 8 <= |buf| && buf[pos + 8 * (|rs| - i) + 2] == 0
    ensures DecodeFrom(buf, pos, st, table) == NameFrom(rs, i, st, table)
    decreases |rs| - i
  {
    if i < |rs| {
      SerializedAt(rs[i..], buf, pos, 0);
      assert rs[i..][1..] == rs[i + 1..];
      AtSplit(buf, pos, RecordBytes(rs[i]), Serialize(rs[i + 1..]));
      if WellTagged(rs[i]) && NameRecord(rs[i], st, table).Ok? {
        DecodeSerialized(rs, i + 1, buf, pos + 8, NameRecord(rs[i], st, table).value.1, table);
      }
    }
  }

  // ----- naming, stated by position -----

  /** The number of records before `i` that satisfy the model test. */
  function ModelsBefore(rs: seq<Record>, i: nat): nat
    requires i <= |rs|
  {
    if i == 0 then 0 else ModelsBefore(rs, i - 1) + (if IsModel(rs[i - 1]) then 1 else 0)
  }

  function TexturesBefore(rs: seq<Record>, i: nat): nat
    requires i <= |rs|
  {
    if i == 0 then 0 else TexturesBefore(rs, i - 1) + (if IsTexture(rs[i - 1]) then 1 else 0)
  }

  /** Some record before `i` has the resident tag. */
  predicate ResidentBefore(rs: seq<Record>, i: nat)
    requires i <= |rs|
  {
    exists j :: 0 <= j < i && rs[j].tag == TAG_RESIDENT
  }

  /** The prefix in force when record `i` is named: `res` from the first
      resident record on, `stg` before it. */
  function PrefixAt(rs: seq<Record>, i: nat): string
    requires i < |rs|
  {
    if ResidentBefore(rs, i + 1) then "res" else "stg"
  }

  /** The name record `i` gets, computed from its position alone. */
  function NameAt(rs: seq<Record>, i: nat, table: map<string, string>): string
    requires i < |rs|
  {
    var r := rs[i];
    if r.code != 0 then (var key := DictKey(r.code, r.ext); if key in table then table[key] else "")
    else if IsModel(r) then DarName(PrefixAt(rs, i), "mdl", 1 + ModelsBefore(rs, i))
    else if IsTexture(r) then DarName(PrefixAt(rs, i), "tex", 1 + TexturesBefore(rs, i))
    else CACHE_END
  }

  /** Every record can be named: it passes both checks and a nonzero code
      has a dictionary entry. */
  predicate Nameable(rs: seq<Record>, table: map<string, string>)
  {
    forall i :: 0 <= i < |rs| ==>
      WellTagged(rs[i]) && (rs[i].code != 0 ==> DictKey(rs[i].code, rs[i].ext) in table)
  }

  /** The naming state after naming the records before `i` from scratch. */
  function StateAt(rs: seq<Record>, i: nat): Namer
    requires i <= |rs|
  {
    Namer(if ResidentBefore(rs, i) then "res" else "stg", 1 + ModelsBefore(rs, i), 1 + TexturesBefore(rs, i))
  }

  lemma ResidentStep(rs: seq<Record>, i: nat)
    requires i < |rs|
    ensures ResidentBefore(rs, i + 1) <==> ResidentBefore(rs, i) || rs[i].tag == TAG_RESIDENT
  {
    if ResidentBefore(rs, i + 1) && !(rs[i].tag == TAG_RESIDENT) {
      var j :| 0 <= j < i + 1 && rs[j].tag == TAG_RESIDENT;
      assert j < i;
    }
  }

  /** One record named from the state its position implies. */
  lemma NameRecordAt(rs: seq<Record>, i: nat, table: map<string, string>)
    requires i < |rs|
    ensures NameRecord(rs[i], StateAt(rs, i), table).Ok? <==>
      (rs[i].code != 0 ==> DictKey(rs[i].code, rs[i].ext) in table)
    ensures NameRecord(rs[i], StateAt(rs, i), table).Ok? ==>
      NameRecord(rs[i], StateAt(rs, i), table).value == (NameAt(rs, i, table), StateAt(rs, i + 1))
  {
    ResidentStep(rs, i);
  }

  lemma NameableStep(rs: seq<Record>, i: nat, table: map<string, string>)
    requires i < |rs|
    ensures Nameable(rs[i..], table) <==>
      WellTagged(rs[i]) && (rs[i].code != 0 ==> DictKey(rs[i].code, rs[i].ext) in table)
      && Nameable(rs[i + 1..], table)
  {
    assert forall k :: 0 < k < |rs[i..]| ==> rs[i..][k] == rs[i + 1..][k - 1];
    assert rs[i..][0] == rs[i];
  }

  lemma {:induction false} NameFromByPosition(rs: seq<Record>, i: nat, table: map<string, string>)
    requires i <= |rs|
    ensures NameFrom(rs, i, StateAt(rs, i), table).Ok? <==> Nameable(rs[i..], table)
    ensures NameFrom(rs, i, StateAt(rs, i), table).Ok? ==>
      var es := NameFrom(rs, i, StateAt(rs, i), table).value;
      && |es| == |rs| - i
      && forall k :: i <= k < |rs| ==>
        es[k - i] == Entry(NameAt(rs, k, table), rs[k].tag, rs[k].value)
    decreases |rs| - i
  {
    if i < |rs| {
      NameRecordAt(rs, i, table);
      NameableStep(rs, i, table);
      NameFromByPosition(rs, i + 1, table);
      if WellTagged(rs[i]) && NameRecord(rs[i], StateAt(rs, i), table).Ok? {
        var e := Entry(NameAt(rs, i, table), rs[i].tag, rs[i].value);
        var next := NameFrom(rs, i + 1, StateAt(rs, i + 1), table);
        if next.Ok? {
          var es := NameFrom(rs, i, StateAt(rs, i), table).value;
          assert es == [e] + next.value;
          forall k | i <= k < |rs|
            ensures es[k - i] == Entry(NameAt(rs, k, table), rs[k].tag, rs[k].value)
          {
            if k > i {
              assert es[k - i] == next.value[k - (i + 1)];
            }
          }
        }
      }
    }
  }

  /** The naming rules: a nonzero code names the record by dictionary
      lookup; a zero-code model or texture record gets the prefix in force
      and one more than the number of earlier records of its kind; any other
      zero-code record is the cache-run end. Naming fails exactly when some
      record fails a check or misses the dictionary. */
  lemma NamingRules(rs: seq<Record>, table: map<string, string>)
    ensures NameFrom(rs, 0, FRESH, table).Ok? <==> Nameable(rs, table)
    ensures NameFrom(rs, 0, FRESH, table).Ok? ==>
      var es := NameFrom(rs, 0, FRESH, table).value;
      && |es| == |rs|
      && forall k :: 0 <= k < |rs| ==> es[k] == Entry(NameAt(rs, k, table), rs[k].tag, rs[k].value)
  {
    assert StateAt(rs, 0) == FRESH;
    assert rs[0..] == rs;
    NameFromByPosition(rs, 0, table);
  }

  /** Once a resident record has been seen the prefix stays `res`. */
  lemma PrefixIsPermanent(rs: seq<Record>, i: nat, k: nat)
    requires i <= k < |rs| && rs[i].tag == TAG_RESIDENT
    ensures PrefixAt(rs, k) == "res"
  {
    assert 0 <= i < k + 1 && rs[i].tag == TAG_RESIDENT;
  }

  /** Model numbers are handed out 1, 2, 3, … in record order, so two model
      records never share a number. */
  lemma {:induction false} ModelNumbersDistinct(rs: seq<Record>, j: nat, k: nat)
    requires j < k < |rs| && IsModel(rs[j]) && IsModel(rs[k])
    ensures ModelsBefore(rs, j) < ModelsBefore(rs, k)
    decreases k - j
  {
    if k > j + 1 {
      ModelsBeforeGrows(rs, j + 1, k);
    }
  }

  /** Two model records get different generated names: the prefixes have
      the same length, so equal names would need equal numbers. */
  lemma ModelNamesDistinct(rs: seq<Record>, j: nat, k: nat, table: map<string, string>)
    requires j < k < |rs| && IsModel(rs[j]) && IsModel(rs[k])
    ensures NameAt(rs, j, table) != NameAt(rs, k, table)
  {
    ModelNumbersDistinct(rs, j, k);
    var a, b := 1 + ModelsBefore(rs, j), 1 + ModelsBefore(rs, k);
    DarNameInjective(PrefixAt(rs, j), PrefixAt(rs, k), "mdl", a, b);
    DecimalInjective(a, b);
  }

  /** Generated names with prefixes of one length and the same kind differ
      when their numbers render differently. */
  lemma DarNameInjective(p: string, q: string, kind: string, m: nat, n: nat)
    requires |p| == |q|
    ensures DarName(p, kind, m) == DarName(q, kind, n) ==> Decimal(m) == Decimal(n)
  {
    var x, y := DarName(p, kind, m), DarName(q, kind, n);
    var at := |p| + 1 + |kind|;
    assert x[at..at + |Decimal(m)|] == Decimal(m);
    assert y[at..at + |Decimal(n)|] == Decimal(n);
  }

  lemma {:induction false} ModelsBeforeGrows(rs: seq<Record>, i: nat, k: nat)
    requires i <= k <= |rs|
    ensures ModelsBefore(rs, i) <= ModelsBefore(rs, k)
    decreases k - i
  {
    if i < k {
      ModelsBeforeGrows(rs, i, k - 1);
    }
  }
}
