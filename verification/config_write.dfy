/** `write_stage_config`: the `data.cnf` that `unpack_stage` writes back
    for the decoded entries, one line per list element (without the
    newline). */
module ConfigWrite {
  import opened Outcome
  import opened Bytes
  import opened Text
  import opened Config
  import opened Records
  import opened StageDecode

  /** The section a mode tag stands for. */
  function SectionOf(mode: byte): (s: Section)
    requires IsModeTag(mode)
    ensures Letter(s) == mode
  {
    if mode == TAG_CACHE then Cache
    else if mode == TAG_NOCACHE then NoCache
    else if mode == TAG_RESIDENT then Resident
    else Sound
  }

  /** The mode an entry is written under: any name containing `.bin` is
      listed as nocache. */
  function EffectiveMode(e: Entry): byte
  {
    if Contains(e.name, ".bin") then TAG_NOCACHE else e.mode
  }

  /** The loop from entry `i` on; `last` is the mode of the last directive
      written. */
  function WriteFrom(es: seq<Entry>, i: nat, last: Option<byte>): Result<seq<string>>
    requires i <= |es|
    decreases |es| - i
  {
    if i == |es| then Ok([])
    else
      var e := es[i];
      if !IsModeTag(e.mode) then Fail(CorruptEntry)
      else if e.name == CACHE_END then WriteFrom(es, i + 1, last)
      else
        var m := EffectiveMode(e);
        var head := if last != Some(m) then [DirectiveText(SectionOf(m))] else [];
        var rest :- WriteFrom(es, i + 1, Some(m));
        Ok(head + [e.name] + rest)
  }

  function WriteStageConfig(es: seq<Entry>): Result<seq<string>>
  {
    WriteFrom(es, 0, None)
  }

  // ----- reading the written configuration back -----

  /** The file lines of `lines`, each with the section in force above it
      (`cur` before the first directive). */
  function ReadBack(lines: seq<string>, cur: Option<Section>): seq<(string, Option<Section>)>
    decreases |lines|
  {
    if lines == [] then []
    else match Classify(lines[0])
      case Directive(s) => ReadBack(lines[1..], Some(s))
      case FileLine(t) => [(t, cur)] + ReadBack(lines[1..], cur)
  }

  /** No directive is wasted: each one changes the section in force and is
      followed by a file line. */
  predicate Minimal(lines: seq<string>, cur: Option<Section>)
    decreases |lines|
  {
    lines == [] ||
    match Classify(lines[0])
    case Directive(s) =>
      Some(s) != cur && |lines| > 1 && Classify(lines[1]).FileLine? && Minimal(lines[1..], Some(s))
    case FileLine(_) => Minimal(lines[1..], cur)
  }

  /** The entries that get a line, with the section they are listed under. */
  function KeptFrom(es: seq<Entry>, i: nat): seq<(string, Option<Section>)>
    requires i <= |es| && forall k :: i <= k < |es| ==> IsModeTag(es[k].mode)
    decreases |es| - i
  {
    if i == |es| then []
    else if es[i].name == CACHE_END then KeptFrom(es, i + 1)
    else [(es[i].name, Some(SectionOf(EffectiveMode(es[i]))))] + KeptFrom(es, i + 1)
  }

  function SectionOpt(last: Option<byte>): Option<Section>
    requires last.Some? ==> IsModeTag(last.value)
  {
    if last.None? then None else Some(SectionOf(last.value))
  }

  lemma ClassifyDirective(s: Section)
    ensures Classify(DirectiveText(s)) == Directive(s)
  {
  }

  lemma ReadBackStep(name: string, rest: seq<string>, cur: Option<Section>, s: Section)
    requires Classify(name).FileLine?
    ensures ReadBack([name] + rest, cur) == [(name, cur)] + ReadBack(rest, cur)
    ensures ReadBack([DirectiveText(s)] + ([name] + rest), cur) == [(name, Some(s))] + ReadBack(rest, Some(s))
  {
    assert ([name] + rest)[1..] == rest;
    ClassifyDirective(s);
    assert ([DirectiveText(s)] + ([name] + rest))[1..] == [name] + rest;
  }

  lemma MinimalStep(name: string, rest: seq<string>, cur: Option<Section>, s: Section)
    requires Classify(name).FileLine?
    ensures Minimal([name] + rest, cur) == Minimal(rest, cur)
    ensures Some(s) != cur ==> Minimal([DirectiveText(s)] + ([name] + rest), cur) == Minimal(rest, Some(s))
  {
    assert ([name] + rest)[1..] == rest;
    ClassifyDirective(s);
    assert ([DirectiveText(s)] + ([name] + rest))[1..] == [name] + rest;
  }

  /** The loop fails exactly on an entry whose mode is not a section tag. */
  lemma {:induction false} WriteFromSucceeds(es: seq<Entry>, i: nat, last: Option<byte>)
    requires i <= |es|
    ensures WriteFrom(es, i, last).Ok? <==> forall k :: i <= k < |es| ==> IsModeTag(es[k].mode)
    decreases |es| - i
  {
    if i < |es| && IsModeTag(es[i].mode) {
      if es[i].name == CACHE_END {
        WriteFromSucceeds(es, i + 1, last);
      } else {
        WriteFromSucceeds(es, i + 1, Some(EffectiveMode(es[i])));
      }
    }
  }

  /** The loop fails exactly on an entry whose mode is not a section tag;
      otherwise reading the written lines back gives every kept entry once,
      in order, under its (possibly forced) section, and no directive is
      redundant. */
  lemma {:induction false} WriteFromReadBack(es: seq<Entry>, i: nat, last: Option<byte>)
    requires i <= |es| && (last.Some? ==> IsModeTag(last.value))
    requires forall k :: i <= k < |es| && es[k].name != CACHE_END ==> Classify(es[k].name).FileLine?
    ensures WriteFrom(es, i, last).Ok? <==> forall k :: i <= k < |es| ==> IsModeTag(es[k].mode)
    ensures WriteFrom(es, i, last).Ok? ==>
      && ReadBack(WriteFrom(es, i, last).value, SectionOpt(last)) == KeptFrom(es, i)
      && Minimal(WriteFrom(es, i, last).value, SectionOpt(last))
    decreases |es| - i
  {
    if i < |es| && IsModeTag(es[i].mode) {
      var e := es[i];
      if e.name == CACHE_END {
        WriteFromReadBack(es, i + 1, last);
      } else {
        var m := EffectiveMode(e);
        WriteFromReadBack(es, i + 1, Some(m));
        var r := WriteFrom(es, i + 1, Some(m));
        if r.Ok? {
          var s := SectionOf(m);
          ReadBackStep(e.name, r.value, SectionOpt(last), s);
          MinimalStep(e.name, r.value, SectionOpt(last), s);
          if last == Some(m) {
            assert WriteFrom(es, i, last).value == [e.name] + r.value;
          } else {
            assert SectionOpt(last) != Some(s) by {
              if last.Some? {
                assert Letter(SectionOf(last.value)) == last.value;
              }
            }
            assert WriteFrom(es, i, last).value == [DirectiveText(s)] + ([e.name] + r.value);
          }
        }
      }
    }
  }

  lemma WriteStageConfigReadBack(es: seq<Entry>)
    requires forall k :: 0 <= k < |es| && es[k].name != CACHE_END ==> Classify(es[k].name).FileLine?
    ensures WriteStageConfig(es).Ok? <==> forall k :: 0 <= k < |es| ==> IsModeTag(es[k].mode)
    ensures WriteStageConfig(es).Ok? ==>
      && ReadBack(WriteStageConfig(es).value, None) == KeptFrom(es, 0)
      && Minimal(WriteStageConfig(es).value, None)
  {
    WriteFromReadBack(es, 0, None);
  }

  /** Why `WriteStageConfigReadBack` asks that no kept name be a directive
      text: a dictionary name such as `.cache` is written as a file line,
      and reading the file back takes that line for a directive, so the
      file is lost. */
  lemma DirectiveNameLost()
    ensures var es := [Entry(".cache", TAG_NOCACHE, 0)];
      && WriteStageConfig(es) == Ok([".nocache", ".cache"])
      && KeptFrom(es, 0) == [(".cache", Some(NoCache))]
      && ReadBack([".nocache", ".cache"], None) == []
  {
    var es := [Entry(".cache", TAG_NOCACHE, 0)];
    assert !Contains("che", ".bin");
    assert !Contains("ache", ".bin") by { assert "ache"[..4][0] != '.' && "ache"[1..] == "che"; }
    assert !Contains("cache", ".bin") by { assert "cache"[..4][0] != '.' && "cache"[1..] == "ache"; }
    assert !Contains(".cache", ".bin") by { assert ".cache"[..4][1] != 'b' && ".cache"[1..] == "cache"; }
    assert es[0].name != CACHE_END by { assert |CACHE_END| != |".cache"|; }
    assert EffectiveMode(es[0]) == TAG_NOCACHE && SectionOf(TAG_NOCACHE) == NoCache;
    assert WriteFrom(es, 1, Some(TAG_NOCACHE)) == Ok([]);
    assert WriteFrom(es, 0, None) == Ok([".nocache"] + [".cache"] + []);
    assert [".nocache"] + [".cache"] + [] == [".nocache", ".cache"];
    assert [".nocache", ".cache"][1..] == [".cache"];
  }
}
