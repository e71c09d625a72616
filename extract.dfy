/**
 * Field extraction (bg2md.rb lines 181-207): every working line is
 * scanned for the reference, the version title, the passage, the
 * copyright text and the footnotes. Each single-valued field takes the
 * joined groups of every match in turn, so the last match on the last
 * line that has one wins; footnotes are appended in order.
 */
module Extract {
  import opened Text
  import opened Patterns

  /** COPYRIGHT_STRING_RE, a plain text test. */
  const PublisherInfo: string := "<div class=\"publisher-info"

  /** The single-valued fields of the extraction loop. */
  datatype Field = FullRef | Version | Passage | Copyright

  /** The MATCH_..._RE pattern that fills a field. */
  function FieldPattern(f: Field): Pattern
  {
    match f
    case FullRef => RefPattern
    case Version => VersionPattern
    case Passage => PassagePattern
    case Copyright => CopyrightPattern
  }

  /**
   * The `if line =~ ...` guard in front of a field's scan. REF_RE,
   * VERSION_RE and PASSAGE_RE are the matching patterns without their
   * groups, so they match exactly when a first match exists;
   * COPYRIGHT_STRING_RE asks for the publisher block's opening tag.
   */
  predicate Guard(f: Field, line: string)
  {
    match f
    case Copyright => Contains(line, PublisherInfo)
    case _ => FirstMatch(FieldPattern(f), line, 0).Some?
  }

  /** The values the scan block assigns to a field on one line, in order. */
  function Hits(f: Field, line: string): seq<string>
  {
    if Guard(f, line) then Captures(FieldPattern(f), line) else []
  }

  /** FOOTNOTE_RE guards the footnote scan: some footnote text span is on the line. */
  predicate FootnoteGuard(line: string)
  {
    FirstMatch(FootnoteTextPattern, line, 0).Some?
  }

  /** The footnotes one line contributes, in order. */
  function FootnoteHits(line: string): seq<string>
  {
    if FootnoteGuard(line) then Captures(FootnotePattern, line) else []
  }

  /** A field's hits, line by line. */
  function FieldRuns(f: Field, lines: seq<string>): (r: seq<seq<string>>)
    ensures |r| == |lines|
    ensures forall k :: 0 <= k < |lines| ==> r[k] == Hits(f, lines[k])
  {
    seq(|lines|, k requires 0 <= k < |lines| => Hits(f, lines[k]))
  }

  /** The footnote hits, line by line. */
  function FootnoteRuns(lines: seq<string>): (r: seq<seq<string>>)
    ensures |r| == |lines|
    ensures forall k :: 0 <= k < |lines| ==> r[k] == FootnoteHits(lines[k])
  {
    seq(|lines|, k requires 0 <= k < |lines| => FootnoteHits(lines[k]))
  }

  /**
   * The value a field holds once every run of assignments has happened:
   * it starts as "" and each assignment overwrites it.
   */
  function LastOf(runs: seq<seq<string>>): string
  {
    if |runs| == 0 then ""
    else
      var h := runs[|runs| - 1];
      if |h| > 0 then h[|h| - 1] else LastOf(runs[..|runs| - 1])
  }

  /** Every run's values, one after another. */
  function Flatten(runs: seq<seq<string>>): seq<string>
  {
    if |runs| == 0 then [] else Flatten(runs[..|runs| - 1]) + runs[|runs| - 1]
  }

  /** What the extraction loop leaves behind. */
  datatype Record = Record(fullRef: string, version: string, passage: string, copyright: string, footnotes: seq<string>)

  function ExtractSpec(working: seq<string>): Record
  {
    Record(LastOf(FieldRuns(FullRef, working)), LastOf(FieldRuns(Version, working)),
           LastOf(FieldRuns(Passage, working)), LastOf(FieldRuns(Copyright, working)),
           Flatten(FootnoteRuns(working)))
  }

  /** What a field holds after one line's scan: its last hit, or what it held before. */
  function Overwrite(hits: seq<string>, current: string): string
  {
    if |hits| > 0 then hits[|hits| - 1] else current
  }

  /** The record after one more working line has been read. */
  function Absorb(rec: Record, line: string): Record
  {
    Record(Overwrite(Hits(FullRef, line), rec.fullRef), Overwrite(Hits(Version, line), rec.version),
           Overwrite(Hits(Passage, line), rec.passage), Overwrite(Hits(Copyright, line), rec.copyright),
           rec.footnotes + FootnoteHits(line))
  }

  /** Reading the working lines one by one is absorbing them one by one. */
  lemma ExtractSpecStep(lines: seq<string>)
    requires |lines| > 0
    ensures ExtractSpec(lines) == Absorb(ExtractSpec(lines[..|lines| - 1]), lines[|lines| - 1])
  {
    var n := |lines| - 1;
    assert FieldRuns(FullRef, lines)[..n] == FieldRuns(FullRef, lines[..n]);
    assert FieldRuns(Version, lines)[..n] == FieldRuns(Version, lines[..n]);
    assert FieldRuns(Passage, lines)[..n] == FieldRuns(Passage, lines[..n]);
    assert FieldRuns(Copyright, lines)[..n] == FieldRuns(Copyright, lines[..n]);
    assert FootnoteRuns(lines)[..n] == FootnoteRuns(lines[..n]);
  }

  /** `line.scan(...) { |m| field = m.join }`: the field is assigned each match in turn. */
  method AssignEach(hits: seq<string>, current: string) returns (v: string)
    ensures v == Overwrite(hits, current)
  {
    v := current;
    for j := 0 to |hits|
      invariant j == 0 ==> v == current
      invariant j > 0 ==> v == hits[j - 1]
    {
      v := hits[j];
    }
  }

  /** `line.scan(MATCH_..._RE) { |m| field = m.join } if line =~ ..._RE` for one field. */
  method ScanField(f: Field, line: string, current: string) returns (v: string)
    ensures v == Overwrite(Hits(f, line), current)
  {
    v := current;
    if Guard(f, line) {
      v := AssignEach(Captures(FieldPattern(f), line), current);
    }
  }

  /** `line.scan(...) { |m| footnotes << m.join; number_footnotes += 1 }`: each match is appended and counted. */
  method AppendEach(hits: seq<string>, footnotes: seq<string>, count: nat) returns (footnotes': seq<string>, count': nat)
    requires count == |footnotes|
    ensures footnotes' == footnotes + hits
    ensures count' == |footnotes'|
  {
    footnotes', count' := footnotes, count;
    for j := 0 to |hits|
      invariant footnotes' == footnotes + hits[..j]
      invariant count' == |footnotes'|
    {
      footnotes' := footnotes' + [hits[j]];
      count' := count' + 1;
    }
    assert hits[..|hits|] == hits;
  }

  /** The footnote scan, behind its FOOTNOTE_RE guard. */
  method ScanFootnotes(line: string, footnotes: seq<string>, count: nat) returns (footnotes': seq<string>, count': nat)
    requires count == |footnotes|
    ensures footnotes' == footnotes + FootnoteHits(line)
    ensures count' == |footnotes'|
  {
    footnotes', count' := footnotes, count;
    if FootnoteGuard(line) {
      footnotes', count' := AppendEach(Captures(FootnotePattern, line), footnotes, count);
    }
  }

  /** The body of the extraction loop for one working line. */
  method ScanLine(line: string, rec: Record, count: nat) returns (next: Record, count': nat)
    requires count == |rec.footnotes|
    ensures next == Absorb(rec, line)
    ensures count' == |next.footnotes|
  {
    var fullRef := ScanField(FullRef, line, rec.fullRef);
    var version := ScanField(Version, line, rec.version);
    var passage := ScanField(Passage, line, rec.passage);
    var copyright := ScanField(Copyright, line, rec.copyright);
    var footnotes;
    footnotes, count' := ScanFootnotes(line, rec.footnotes, count);
    next := Record(fullRef, version, passage, copyright, footnotes);
  }

  /** The extraction loop; `numberFootnotes` is `number_footnotes`. */
  method ExtractFields(working: seq<string>) returns (rec: Record, numberFootnotes: nat)
    ensures rec == ExtractSpec(working)
    ensures numberFootnotes == |rec.footnotes|
  {
    rec := Record("", "", "", "", []);
    numberFootnotes := 0;
    var n := 0;
    while n < |working|
      invariant n <= |working|
      invariant rec == ExtractSpec(working[..n])
      invariant numberFootnotes == |rec.footnotes|
    {
      rec, numberFootnotes := ScanLine(working[n], rec, numberFootnotes);
      ExtractSpecStep(working[..n + 1]);
      assert working[..n + 1][..n] == working[..n];
      n := n + 1;
    }
    assert working[..n] == working;
  }

  /** The last run with a value decides: its last value is the field's. */
  lemma {:induction false} LastMatchWins(runs: seq<seq<string>>, i: nat)
    requires i < |runs| && |runs[i]| > 0
    requires forall k :: i < k < |runs| ==> runs[k] == []
    ensures LastOf(runs) == runs[i][|runs[i]| - 1]
    decreases |runs|
  {
    var n := |runs| - 1;
    if i < n {
      assert forall k :: i < k < n ==> runs[..n][k] == runs[k];
      LastMatchWins(runs[..n], i);
    }
  }

  /** A field nothing is assigned to keeps its initial "". */
  lemma {:induction false} NoMatchEmpty(runs: seq<seq<string>>)
    requires forall k :: 0 <= k < |runs| ==> runs[k] == []
    ensures LastOf(runs) == ""
    decreases |runs|
  {
    if |runs| > 0 {
      var n := |runs| - 1;
      assert forall k :: 0 <= k < n ==> runs[..n][k] == runs[k];
      NoMatchEmpty(runs[..n]);
    }
  }

  /** A field's value is one of the values assigned to it, or "" when there is none. */
  lemma {:induction false} LastOfIsAHit(runs: seq<seq<string>>)
    ensures LastOf(runs) == "" || exists k, j :: 0 <= k < |runs| && 0 <= j < |runs[k]| && LastOf(runs) == runs[k][j]
    decreases |runs|
  {
    if |runs| > 0 {
      var n := |runs| - 1;
      if |runs[n]| == 0 {
        LastOfIsAHit(runs[..n]);
        if LastOf(runs[..n]) != "" {
          var k, j :| 0 <= k < n && 0 <= j < |runs[..n][k]| && LastOf(runs[..n]) == runs[..n][k][j];
          assert runs[..n][k] == runs[k];
        }
      }
    }
  }

  /** When no assigned value is "", the field is non-empty exactly when something was assigned. */
  lemma {:induction false} LastOfNonEmpty(runs: seq<seq<string>>)
    requires forall k, j :: 0 <= k < |runs| && 0 <= j < |runs[k]| ==> runs[k][j] != ""
    ensures LastOf(runs) != "" <==> exists k :: 0 <= k < |runs| && runs[k] != []
    decreases |runs|
  {
    if |runs| > 0 {
      var n := |runs| - 1;
      assert forall k :: 0 <= k < n ==> runs[..n][k] == runs[k];
      LastOfNonEmpty(runs[..n]);
      if runs[n] == [] {
        assert forall k :: 0 <= k < |runs| && runs[k] != [] ==> k < n;
      }
    }
  }

  /** For the reference, version and passage the guard never suppresses a match. */
  lemma GuardRedundant(f: Field, line: string)
    requires f != Copyright
    ensures Hits(f, line) == Captures(FieldPattern(f), line)
  {
    if !Guard(f, line) {
      assert |Scan(FieldPattern(f), line, 0)| == 0;
    }
  }

  /**
   * The passage is left empty, which lines 210-212 report as an error
   * before the conversion goes on, exactly when no working line matches
   * MATCH_PASSAGE_RE; otherwise it ends with one of the pattern's two
   * closing boundaries, `</p>`, whitespace and `</div>` or
   * `<div class="footnotes">`.
   */
  lemma PassageFound(lines: seq<string>)
    ensures ExtractSpec(lines).passage != "" <==> exists k :: 0 <= k < |lines| && Hits(Passage, lines[k]) != []
    ensures ExtractSpec(lines).passage != "" ==> EndsWithPassageBoundary(ExtractSpec(lines).passage)
  {
    var runs := FieldRuns(Passage, lines);
    forall k | 0 <= k < |runs|
      ensures forall j :: 0 <= j < |runs[k]| ==> EndsWithPassageBoundary(runs[k][j]) && runs[k][j] != ""
    {
      PassageCaptureShape(lines[k]);
      forall j | 0 <= j < |runs[k]|
        ensures runs[k][j] != ""
      {
        if EndsWithBoundary(runs[k][j], DivClose) {
          BoundaryEndsWithTag(runs[k][j], DivClose);
        } else {
          BoundaryEndsWithTag(runs[k][j], FootnotesDiv);
        }
      }
    }
    LastOfNonEmpty(runs);
    LastOfIsAHit(runs);
  }

  /** Runs of assignments laid end to end flatten to the flattened runs laid end to end. */
  lemma {:induction false} FlattenAppend(a: seq<seq<string>>, b: seq<seq<string>>)
    ensures Flatten(a + b) == Flatten(a) + Flatten(b)
    decreases |b|
  {
    if |b| > 0 {
      var n := |b| - 1;
      assert (a + b)[..|a + b| - 1] == a + b[..n];
      FlattenAppend(a, b[..n]);
    } else {
      assert a + b == a;
    }
  }

  /** The footnotes of consecutive runs of lines come out in line order. */
  lemma FootnotesInLineOrder(a: seq<string>, b: seq<string>)
    ensures ExtractSpec(a + b).footnotes == ExtractSpec(a).footnotes + ExtractSpec(b).footnotes
  {
    var ra, rb, rab := FootnoteRuns(a), FootnoteRuns(b), FootnoteRuns(a + b);
    forall k | 0 <= k < |rab| ensures rab[k] == (ra + rb)[k] {
      if k < |a| {
        assert (a + b)[k] == a[k];
      } else {
        assert (a + b)[k] == b[k - |a|];
      }
    }
    assert rab == ra + rb;
    FlattenAppend(ra, rb);
  }

  /** A lone empty working line (what an empty fragment leaves) fills in no field and no footnote. */
  lemma BlankLineExtractsNothing()
    ensures ExtractSpec([""]) == Record("", "", "", "", [])
  {
    assert !Contains("", PublisherInfo);
    forall f: Field ensures Hits(f, "") == [] {
    }
    assert FootnoteHits("") == [];
    var runs := FieldRuns(FullRef, [""]);
    assert runs == [[]];
    assert LastOf(runs) == LastOf([]);
    assert FieldRuns(Version, [""]) == FieldRuns(Passage, [""]) == FieldRuns(Copyright, [""]) == [[]];
    assert FootnoteRuns([""]) == [[]];
    assert Flatten([[]]) == Flatten([]) + [];
  }
}
