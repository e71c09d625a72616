/**
 * The conversion as a whole (bg2md.rb lines 131-275): the page is
 * narrowed to the passage fragment, reflowed into working lines, mined for
 * the reference, version, passage, copyright notice and footnotes, the
 * passage and footnotes are rewritten, and the document is laid out.
 */
module Pipeline {
  import opened Wrappers
  import opened Isolate
  import opened Reflow
  import opened Extract
  import opened Rewrite
  import opened Document

  /** The command-line switches the conversion consults; each is on unless switched off. */
  datatype Options = Options(copyright: bool, footnotes: bool, numbering: bool)

  /**
   * The document, one element per `puts` of lines 263-275, and whether the
   * passage came out empty, the case in which lines 210-212 report an error
   * and carry on.
   */
  datatype Outcome = Outcome(document: seq<string>, passageMissing: bool)

  /** What the extraction loop finds in the page. */
  function Extracted(page: seq<string>): Record
  {
    ExtractSpec(Reflowed(Fragment(page)))
  }

  /** The outcome once the record is known: rewrite the passage and the footnotes, then lay out the document. */
  function Emitted(rec: Record, opts: Options): Outcome
  {
    var passage := ApplyRules(rec.passage, PassageRules(opts.numbering, opts.footnotes));
    Outcome(Written(rec.fullRef, rec.version, passage, RewrittenFootnotes(rec.footnotes), rec.copyright,
                    opts.footnotes, opts.copyright),
            rec.passage == "")
  }

  /** The outcome of converting `page`. */
  function Output(page: seq<string>, opts: Options): Outcome
  {
    Emitted(Extracted(page), opts)
  }

  /** Lines 210-275: the empty-passage check, the rewriting, the footnote array and the `puts` calls. */
  method Emit(rec: Record, opts: Options) returns (out: Outcome)
    ensures out == Emitted(rec, opts)
  {
    var numberFootnotes := |rec.footnotes|;
    var passageMissing := rec.passage == "";
    var passage := RewritePassage(rec.passage, opts.numbering, opts.footnotes);
    var footnotes := new string[numberFootnotes](k requires 0 <= k < numberFootnotes => rec.footnotes[k]);
    assert footnotes[..] == rec.footnotes;
    RewriteFootnotes(footnotes, numberFootnotes);
    var notes := footnotes[..];
    var definitions: seq<string> := [];
    if numberFootnotes > 0 && opts.footnotes {
      definitions := WriteFootnotes(notes);
    }
    assert definitions == ShownFootnotes(notes, opts.footnotes);
    var notice: seq<string> := [];
    if opts.copyright {
      notice := [rec.copyright];
    }
    var document := [Heading(rec.fullRef, rec.version), "", passage, ""] + definitions + [""] + notice;
    out := Outcome(document, passageMissing);
  }

  /** The script from reading the page to the last `puts`. */
  method Convert(page: seq<string>, opts: Options) returns (out: Outcome)
    ensures out == Output(page, opts)
  {
    var inputLines, inputLineCount := IsolateFragment(page);
    var workingLines, workingLineCount := ReflowLines(inputLines);
    var rec, numberFootnotes := ExtractFields(workingLines);
    out := Emit(rec, opts);
  }

  /**
   * The document: the heading naming the reference and version found, a
   * blank line, the rewritten passage, a blank line, each rewritten footnote
   * numbered from 1 when there are footnotes and they are wanted, a blank
   * line, and the copyright notice last when it is wanted; the passage is reported missing exactly when extraction
   * found none.
   */
  lemma OutputLayout(rec: Record, opts: Options)
    ensures
      var out := Emitted(rec, opts);
      var doc := out.document;
      var n := if |rec.footnotes| > 0 && opts.footnotes then |rec.footnotes| else 0;
      && (out.passageMissing <==> rec.passage == "")
      && |doc| == 5 + n + (if opts.copyright then 1 else 0)
      && doc[0] == Heading(rec.fullRef, rec.version) && doc[1] == ""
      && doc[2] == ApplyRules(rec.passage, PassageRules(opts.numbering, opts.footnotes)) && doc[3] == ""
      && (forall k :: 0 <= k < n ==>
            ParseFootnoteLine(doc[4 + k]) == Some((k + 1, ApplyRules(rec.footnotes[k], FootnoteRules()))))
      && doc[4 + n] == ""
      && (opts.copyright ==> doc[|doc| - 1] == rec.copyright)
      && (!opts.copyright ==> doc[|doc| - 1] == "")
  {
    var passage := ApplyRules(rec.passage, PassageRules(opts.numbering, opts.footnotes));
    var notes := RewrittenFootnotes(rec.footnotes);
    WrittenLayout(rec.fullRef, rec.version, passage, notes, rec.copyright, opts.footnotes, opts.copyright);
    forall k | 0 <= k < |notes|
      ensures notes[k] == ApplyRules(rec.footnotes[k], FootnoteRules())
    {
    }
  }

  /**
   * A page without the passage container yields no fragment, and the
   * passage is reported missing: the document has a heading with neither
   * reference nor version, an empty passage, no footnotes, and an empty
   * copyright notice when one is wanted. With footnotes off the spacing
   * rule leaves a lone space as the passage.
   */
  lemma NoContainerOutput(page: seq<string>, opts: Options)
    requires forall j :: 0 <= j < |page| ==> !IsStart(page[j])
    ensures Output(page, opts) == Outcome(NothingFound(opts), true)
  {
    assert Extracted(page) == Record("", "", "", "", []) by {
      NoStartNoFragment(page);
      assert Reflowed(Fragment(page)) == [""];
      BlankLineExtractsNothing();
    }
    EmptyRecordOutput(opts);
  }

  /** The document written when nothing was found. */
  function NothingFound(opts: Options): seq<string>
  {
    [Heading("", ""), "", if opts.footnotes then "" else " ", "", ""]
    + (if opts.copyright then [""] else [])
  }

  /** The lines printed for a record with every field empty. */
  lemma EmptyRecordOutput(opts: Options)
    ensures Emitted(Record("", "", "", "", []), opts) == Outcome(NothingFound(opts), true)
  {
    EmptyPassage(opts.numbering, opts.footnotes);
    assert RewrittenFootnotes([]) == [];
  }
}
