/** The stage configuration (`data.cnf`) as `pack_stage` reads it: section
    directives in a fixed order, each followed by the files of that section.
    Every line is taken as `str.strip()` leaves it, and the stage directory
    is a map from a file line (`name.ext`) to that file's bytes. */
module Config {
  import opened Outcome
  import opened Bytes
  import opened Text

  datatype Section = Resident | NoCache | Cache | Sound

  /** The order the directives must come in. */
  function Rank(s: Section): nat
  {
    match s
    case Resident => 0
    case NoCache => 1
    case Cache => 2
    case Sound => 3
  }

  function RankOpt(s: Option<Section>): int
  {
    if s.None? then -1 else Rank(s.value)
  }

  /** The section letter `'r'`, `'n'`, `'c'` or `'s'` as a byte. */
  function Letter(s: Section): byte
  {
    match s
    case Resident => 'r' as byte
    case NoCache => 'n' as byte
    case Cache => 'c' as byte
    case Sound => 's' as byte
  }

  function DirectiveText(s: Section): string
  {
    match s
    case Resident => ".resident"
    case NoCache => ".nocache"
    case Cache => ".cache"
    case Sound => ".sound"
  }

  datatype Line = Directive(section: Section) | FileLine(text: string)

  function Classify(line: string): (l: Line)
    ensures l.Directive? ==> DirectiveText(l.section) == line
    ensures l.FileLine? ==> l.text == line && forall s :: DirectiveText(s) != line
  {
    if line == ".resident" then Directive(Resident)
    else if line == ".nocache" then Directive(NoCache)
    else if line == ".cache" then Directive(Cache)
    else if line == ".sound" then Directive(Sound)
    else FileLine(line)
  }

  /** The assertion in front of each directive: which section may come
      before it (`None` is "no directive yet"). */
  predicate Accepts(current: Option<Section>, d: Section)
  {
    match d
    case Resident => current == None
    case NoCache => current == None || current == Some(Resident)
    case Cache => current == Some(Resident) || current == Some(NoCache)
    case Sound => current == Some(Cache)
  }

  /** One file of a stage: `name.ext`, the section it was listed under, and
      its contents (whose length is the size `os.path.getsize` reports). */
  datatype FileEntry = FileEntry(name: string, ext: string, section: Section, data: seq<byte>)

  /** The configuration loop from line `i` on, in section `current`. */
  function ParseFrom(lines: seq<string>, i: nat, current: Option<Section>, dir: map<string, seq<byte>>)
    : Result<seq<FileEntry>>
    decreases |lines| - i
  {
    if i >= |lines| then Ok([])
    else match Classify(lines[i])
      case Directive(d) =>
        if Accepts(current, d) then ParseFrom(lines, i + 1, Some(d), dir) else Fail(ConfigOrder(i))
      case FileLine(text) =>
        if current.None? then Fail(ConfigOrder(i))
        else match SplitPair(text, '.')
          case None => Fail(MalformedLine(i))
          case Some((name, ext)) =>
            if text !in dir then Fail(MissingFile(text))
            else
              var rest :- ParseFrom(lines, i + 1, current, dir);
              Ok([FileEntry(name, ext, current.value, dir[text])] + rest)
  }

  /** The file list of one stage, or the first configuration error. */
  function ParseConfig(lines: seq<string>, dir: map<string, seq<byte>>): Result<seq<FileEntry>>
  {
    ParseFrom(lines, 0, None, dir)
  }

  // ----- the ordering rule, stated without the state machine -----

  /** The directives of `lines`, in order. */
  function Directives(lines: seq<string>): seq<Section>
    decreases |lines|
  {
    if lines == [] then []
    else
      var init := Directives(lines[..|lines| - 1]);
      match Classify(lines[|lines| - 1])
      case Directive(d) => init + [d]
      case FileLine(_) => init
  }

  /** Directives strictly follow `.resident`, `.nocache`, `.cache`, `.sound`;
      `.cache` is never first; `.sound` comes right after `.cache`. */
  predicate ValidOrder(ds: seq<Section>)
  {
    && (forall i, j :: 0 <= i < j < |ds| ==> Rank(ds[i]) < Rank(ds[j]))
    && (forall i :: 0 <= i < |ds| && ds[i] == Cache ==> i > 0)
    && (forall i :: 0 <= i < |ds| && ds[i] == Sound ==> i > 0 && ds[i - 1] == Cache)
  }

  /** Every file line has some directive above it. */
  predicate NoOrphans(lines: seq<string>)
  {
    forall i :: 0 <= i < |lines| && Classify(lines[i]).FileLine? ==>
      exists j :: 0 <= j < i && Classify(lines[j]).Directive?
  }

  /** Every file line from `i` on names an existing `name.ext` file. */
  predicate WellFormedFrom(lines: seq<string>, i: nat, dir: map<string, seq<byte>>)
  {
    forall j :: i <= j < |lines| && Classify(lines[j]).FileLine? ==>
      SplitPair(lines[j], '.').Some? && lines[j] in dir
  }

  function LastOpt(ds: seq<Section>): Option<Section>
  {
    if ds == [] then None else Some(ds[|ds| - 1])
  }

  /** One more directive keeps the order valid exactly when the state
      machine accepts it after the last one. */
  lemma ValidOrderSnoc(ds: seq<Section>, d: Section)
    ensures ValidOrder(ds + [d]) <==> ValidOrder(ds) && Accepts(LastOpt(ds), d)
  {
    if ValidOrder(ds + [d]) {
      ValidOrderSnocSplit(ds, d);
    }
    if ValidOrder(ds) && Accepts(LastOpt(ds), d) {
      ValidOrderSnocJoin(ds, d);
    }
  }

  lemma ValidOrderSnocSplit(ds: seq<Section>, d: Section)
    requires ValidOrder(ds + [d])
    ensures ValidOrder(ds) && Accepts(LastOpt(ds), d)
  {
    var e := ds + [d];
    assert ds <= e;
    ValidOrderPrefix(e, ds);
    assert e[|ds|] == d;
    if |ds| > 0 {
      assert e[|ds| - 1] == ds[|ds| - 1];
      assert Rank(e[|ds| - 1]) < Rank(e[|ds|]);
    }
  }

  lemma ValidOrderSnocJoin(ds: seq<Section>, d: Section)
    requires ValidOrder(ds) && Accepts(LastOpt(ds), d)
    ensures ValidOrder(ds + [d])
  {
    var e := ds + [d];
    forall i, j | 0 <= i < j < |e|
      ensures Rank(e[i]) < Rank(e[j])
    {
      if j == |ds| {
        assert Rank(ds[|ds| - 1]) < Rank(d);
        if i < |ds| - 1 {
          assert Rank(ds[i]) < Rank(ds[|ds| - 1]);
        }
      } else {
        assert e[i] == ds[i] && e[j] == ds[j];
      }
    }
    forall i | 0 <= i < |e| && e[i] == Cache
      ensures i > 0
    {
      if i < |ds| {
        assert e[i] == ds[i];
      }
    }
    forall i | 0 <= i < |e| && e[i] == Sound
      ensures i > 0 && e[i - 1] == Cache
    {
      if i < |ds| {
        assert e[i] == ds[i];
        assert i > 0 && e[i - 1] == ds[i - 1];
      }
    }
  }

  lemma DirectivesSnoc(lines: seq<string>, i: nat)
    requires i < |lines|
    ensures Directives(lines[..i + 1]) ==
      Directives(lines[..i]) + (if Classify(lines[i]).Directive? then [Classify(lines[i]).section] else [])
  {
    assert lines[..i + 1][..i] == lines[..i];
  }

  lemma {:induction false} NoDirectivesMeansNone(lines: seq<string>)
    ensures Directives(lines) == [] <==> forall j :: 0 <= j < |lines| ==> Classify(lines[j]).FileLine?
    decreases |lines|
  {
    if lines != [] {
      var init := lines[..|lines| - 1];
      NoDirectivesMeansNone(init);
      assert forall j :: 0 <= j < |init| ==> init[j] == lines[j];
    }
  }

  /** A prefix of the lines has a prefix of the directives. */
  lemma {:induction false} DirectivesPrefix(lines: seq<string>, i: nat)
    requires i <= |lines|
    ensures Directives(lines[..i]) <= Directives(lines)
    decreases |lines| - i
  {
    if i < |lines| {
      DirectivesPrefix(lines, i + 1);
      DirectivesSnoc(lines, i);
    } else {
      assert lines[..i] == lines;
    }
  }

  lemma ValidOrderPrefix(ds: seq<Section>, es: seq<Section>)
    requires es <= ds && ValidOrder(ds)
    ensures ValidOrder(es)
  {
    assert forall i :: 0 <= i < |es| ==> es[i] == ds[i];
  }

  /** The state machine accepts the directive lines exactly when they obey
      the declarative ordering rule and no file precedes the first directive
      (and every file line is a readable `name.ext`). */
  lemma ParseConfigAcceptsValidOrder(lines: seq<string>, dir: map<string, seq<byte>>)
    ensures ParseConfig(lines, dir).Ok? <==>
      WellFormedFrom(lines, 0, dir) && ValidOrder(Directives(lines)) && NoOrphans(lines)
  {
    assert lines[..0] == [];
    ParseFromAccepts(lines, 0, None, dir);
  }

  lemma {:induction false} ParseFromAccepts(lines: seq<string>, i: nat, current: Option<Section>, dir: map<string, seq<byte>>)
    requires i <= |lines|
    requires current == LastOpt(Directives(lines[..i]))
    requires ValidOrder(Directives(lines[..i]))
    requires NoOrphans(lines[..i])
    ensures ParseFrom(lines, i, current, dir).Ok? <==>
      WellFormedFrom(lines, i, dir) && ValidOrder(Directives(lines)) && NoOrphans(lines)
    decreases |lines| - i
  {
    if i == |lines| {
      assert lines[..i] == lines;
    } else if Classify(lines[i]).Directive? && Accepts(current, Classify(lines[i]).section) {
      DirectiveKeepsOrder(lines, i, current);
      ParseFromAccepts(lines, i + 1, Some(Classify(lines[i]).section), dir);
      DirectiveStep(lines, i, current, dir);
    } else if Classify(lines[i]).Directive? {
      DirectiveRejected(lines, i, current, dir);
    } else if current.Some? && SplitPair(lines[i], '.').Some? && lines[i] in dir {
      FileLineKeepsOrder(lines, i, current);
      ParseFromAccepts(lines, i + 1, current, dir);
      FileLineStep(lines, i, current, dir);
    } else {
      FileLineRejected(lines, i, current, dir);
    }
  }

  /** An accepted directive keeps the state machine's invariant. */
  lemma DirectiveKeepsOrder(lines: seq<string>, i: nat, current: Option<Section>)
    requires i < |lines| && Classify(lines[i]).Directive?
    requires Accepts(current, Classify(lines[i]).section)
    requires current == LastOpt(Directives(lines[..i]))
    requires ValidOrder(Directives(lines[..i]))
    requires NoOrphans(lines[..i])
    ensures Some(Classify(lines[i]).section) == LastOpt(Directives(lines[..i + 1]))
    ensures ValidOrder(Directives(lines[..i + 1]))
    ensures NoOrphans(lines[..i + 1])
  {
    StepFacts(lines, i);
    ValidOrderSnoc(Directives(lines[..i]), Classify(lines[i]).section);
  }

  /** A file line under a directive keeps the state machine's invariant. */
  lemma FileLineKeepsOrder(lines: seq<string>, i: nat, current: Option<Section>)
    requires i < |lines| && Classify(lines[i]).FileLine? && current.Some?
    requires current == LastOpt(Directives(lines[..i]))
    requires ValidOrder(Directives(lines[..i]))
    requires NoOrphans(lines[..i])
    ensures current == LastOpt(Directives(lines[..i + 1]))
    ensures ValidOrder(Directives(lines[..i + 1]))
    ensures NoOrphans(lines[..i + 1])
  {
    StepFacts(lines, i);
  }

  /** A directive out of order stops the state machine, and the whole
      configuration then breaks the ordering rule. */
  lemma DirectiveRejected(lines: seq<string>, i: nat, current: Option<Section>, dir: map<string, seq<byte>>)
    requires i < |lines| && Classify(lines[i]).Directive?
    requires !Accepts(current, Classify(lines[i]).section)
    requires current == LastOpt(Directives(lines[..i]))
    requires NoOrphans(lines[..i])
    ensures ParseFrom(lines, i, current, dir).Fail?
    ensures !ValidOrder(Directives(lines))
  {
    StepFacts(lines, i);
    ValidOrderSnoc(Directives(lines[..i]), Classify(lines[i]).section);
    if ValidOrder(Directives(lines)) {
      ValidOrderPrefix(Directives(lines), Directives(lines[..i + 1]));
    }
    DirectiveStep(lines, i, current, dir);
  }

  /** A file line before any directive, or one that is not a readable
      `name.ext`, stops the state machine, and the configuration then has
      an orphan or a malformed line. */
  lemma FileLineRejected(lines: seq<string>, i: nat, current: Option<Section>, dir: map<string, seq<byte>>)
    requires i < |lines| && Classify(lines[i]).FileLine?
    requires current.None? || SplitPair(lines[i], '.').None? || lines[i] !in dir
    requires current == LastOpt(Directives(lines[..i]))
    requires NoOrphans(lines[..i])
    ensures ParseFrom(lines, i, current, dir).Fail?
    ensures !(WellFormedFrom(lines, i, dir) && NoOrphans(lines))
  {
    FileLineFails(lines, i, current, dir);
    if current.None? {
      StepFacts(lines, i);
    }
  }

  /** Unfolding the state machine at a directive line. */
  lemma DirectiveStep(lines: seq<string>, i: nat, current: Option<Section>, dir: map<string, seq<byte>>)
    requires i < |lines| && Classify(lines[i]).Directive?
    ensures var d := Classify(lines[i]).section;
      ParseFrom(lines, i, current, dir) ==
        if Accepts(current, d) then ParseFrom(lines, i + 1, Some(d), dir) else Fail(ConfigOrder(i))
    ensures WellFormedFrom(lines, i, dir) <==> WellFormedFrom(lines, i + 1, dir)
  {
  }

  /** A file line before any directive, or one that is not a readable
      `name.ext`, stops the state machine. */
  lemma FileLineFails(lines: seq<string>, i: nat, current: Option<Section>, dir: map<string, seq<byte>>)
    requires i < |lines| && Classify(lines[i]).FileLine?
    requires current.None? || SplitPair(lines[i], '.').None? || lines[i] !in dir
    ensures ParseFrom(lines, i, current, dir).Fail?
    ensures current.Some? ==> !WellFormedFrom(lines, i, dir)
  {
  }

  /** Unfolding the state machine at a readable file line under a directive. */
  lemma FileLineStep(lines: seq<string>, i: nat, current: Option<Section>, dir: map<string, seq<byte>>)
    requires i < |lines| && Classify(lines[i]).FileLine? && current.Some?
    requires SplitPair(lines[i], '.').Some? && lines[i] in dir
    ensures ParseFrom(lines, i, current, dir).Ok? <==> ParseFrom(lines, i + 1, current, dir).Ok?
    ensures WellFormedFrom(lines, i, dir) <==> WellFormedFrom(lines, i + 1, dir)
  {
  }

  /** What one more line does to the prefix facts `ParseFromAccepts` tracks. */
  lemma StepFacts(lines: seq<string>, i: nat)
    requires i < |lines|
    requires NoOrphans(lines[..i])
    ensures Directives(lines[..i + 1]) ==
      Directives(lines[..i]) + (if Classify(lines[i]).Directive? then [Classify(lines[i]).section] else [])
    ensures Directives(lines[..i + 1]) <= Directives(lines)
    ensures Directives(lines[..i]) == [] && Classify(lines[i]).FileLine? ==> !NoOrphans(lines)
    ensures Directives(lines[..i]) != [] || Classify(lines[i]).Directive? ==> NoOrphans(lines[..i + 1])
  {
    DirectivesSnoc(lines, i);
    DirectivesPrefix(lines, i + 1);
    NoDirectivesMeansNone(lines[..i]);
    if Directives(lines[..i]) == [] && Classify(lines[i]).FileLine? {
      OrphanAt(lines, i);
    }
    if Directives(lines[..i]) != [] || Classify(lines[i]).Directive? {
      NoOrphansSnoc(lines, i);
    }
  }

  /** A file line with only file lines above it is an orphan. */
  lemma OrphanAt(lines: seq<string>, i: nat)
    requires i < |lines| && Classify(lines[i]).FileLine?
    requires forall j :: 0 <= j < i ==> Classify(lines[..i][j]).FileLine?
    ensures !NoOrphans(lines)
  {
    forall j | 0 <= j < i
      ensures !Classify(lines[j]).Directive?
    {
      assert lines[..i][j] == lines[j];
    }
  }

  /** A line below some directive, or a directive itself, keeps the prefix
      free of orphans. */
  lemma NoOrphansSnoc(lines: seq<string>, i: nat)
    requires i < |lines| && NoOrphans(lines[..i])
    requires (exists j :: 0 <= j < i && Classify(lines[..i][j]).Directive?) || Classify(lines[i]).Directive?
    ensures NoOrphans(lines[..i + 1])
  {
    var pre := lines[..i];
    var pre' := lines[..i + 1];
    assert forall j :: 0 <= j < i ==> pre[j] == lines[j];
    assert forall j :: 0 <= j <= i ==> pre'[j] == lines[j];
    forall k | 0 <= k < |pre'| && Classify(pre'[k]).FileLine?
      ensures exists j :: 0 <= j < k && Classify(pre'[j]).Directive?
    {
      if k == i {
        var j :| 0 <= j < i && Classify(pre[j]).Directive?;
        assert Classify(pre'[j]).Directive?;
      } else {
        assert Classify(pre[k]).FileLine?;
        var j :| 0 <= j < k && Classify(pre[j]).Directive?;
        assert Classify(pre'[j]).Directive?;
      }
    }
  }

  // ----- consequences for the file list -----

  /** File `i` is the last member of a run of cache-section files. */
  predicate EndsCacheRun(fs: seq<FileEntry>, i: int)
  {
    0 <= i < |fs| && fs[i].section == Cache && (i == |fs| - 1 || fs[i + 1].section != Cache)
  }

  predicate SectionsSorted(fs: seq<FileEntry>)
  {
    forall i, j :: 0 <= i < j < |fs| ==> Rank(fs[i].section) <= Rank(fs[j].section)
  }

  lemma {:induction false} ParseFromSorted(lines: seq<string>, i: nat, current: Option<Section>, dir: map<string, seq<byte>>)
    requires ParseFrom(lines, i, current, dir).Ok?
    ensures var fs := ParseFrom(lines, i, current, dir).value;
      SectionsSorted(fs) && forall k :: 0 <= k < |fs| ==> Rank(fs[k].section) >= RankOpt(current)
    decreases |lines| - i
  {
    if i < |lines| {
      match Classify(lines[i])
      case Directive(d) =>
        ParseFromSorted(lines, i + 1, Some(d), dir);
      case FileLine(text) =>
        ParseFromSorted(lines, i + 1, current, dir);
    }
  }

  /** The files of an accepted configuration come section by section in
      directive order, so the cache files form one contiguous run with at
      most one end. */
  lemma SingleCacheRun(lines: seq<string>, dir: map<string, seq<byte>>)
    requires ParseConfig(lines, dir).Ok?
    ensures SectionsSorted(ParseConfig(lines, dir).value)
    ensures forall i, j ::
      (EndsCacheRun(ParseConfig(lines, dir).value, i) && EndsCacheRun(ParseConfig(lines, dir).value, j)) ==> i == j
  {
    ParseFromSorted(lines, 0, None, dir);
  }

  /** Each accepted directive ranks above every directive before it, so no
      directive appears twice. */
  lemma {:induction false} DirectivesIncrease(lines: seq<string>, i: nat, current: Option<Section>, dir: map<string, seq<byte>>)
    requires ParseFrom(lines, i, current, dir).Ok?
    ensures forall j :: i <= j < |lines| && Classify(lines[j]).Directive? ==>
      Rank(Classify(lines[j]).section) > RankOpt(current)
    ensures forall j, k :: i <= j < k < |lines| && Classify(lines[j]).Directive? && Classify(lines[k]).Directive? ==>
      Rank(Classify(lines[j]).section) < Rank(Classify(lines[k]).section)
    decreases |lines| - i
  {
    if i < |lines| {
      match Classify(lines[i])
      case Directive(d) =>
        DirectivesIncrease(lines, i + 1, Some(d), dir);
      case FileLine(text) =>
        DirectivesIncrease(lines, i + 1, current, dir);
    }
  }

  lemma DirectivesAtMostOnce(lines: seq<string>, dir: map<string, seq<byte>>)
    requires ParseConfig(lines, dir).Ok?
    ensures forall j, k :: 0 <= j < k < |lines| && Classify(lines[j]).Directive? && Classify(lines[k]).Directive? ==>
      Classify(lines[j]).section != Classify(lines[k]).section
  {
    DirectivesIncrease(lines, 0, None, dir);
  }
}
