/**
 * Markup simplification (bg2md.rb lines 217-260): the passage and every
 * footnote are rewritten by a fixed chain of `gsub!` calls. Every call
 * passes a String, not a Regexp, as the pattern, so Ruby replaces that
 * exact text: `.*?` and `\d+` inside those strings are literal
 * characters, and the empty pattern matches before every character and
 * at the end.
 */
module Rewrite {
  import opened Text

  /** One `gsub!(pat, rep)` with a String pattern. */
  datatype Rule = Rule(pat: string, rep: string)

  /** Ruby's `gsub` with a String pattern: leftmost, non-overlapping, literal occurrences. */
  function Gsub(s: string, r: Rule): string
  {
    if r.pat == "" then InsertEverywhere(s, r.rep) else ReplaceAll(s, r.pat, r.rep)
  }

  /** The rules applied one after another, first to last. */
  function ApplyRules(s: string, rules: seq<Rule>): string
    decreases |rules|
  {
    if |rules| == 0 then s else ApplyRules(Gsub(s, rules[0]), rules[1..])
  }

  // Passage rules, lines 217-240.
  const HeadingRule := Rule("<h2>.*?</h2>", "")
  const SpanIdRule := Rule("<span id.*?>", "")
  const SpanCloseRule := Rule("</span>", "")
  const NbspRule := Rule("&nbsp;", " ")
  const VerseOpenRule := Rule("<sup class=\"versenum\">", "")
  const SupCloseRule := Rule("</sup>", "")
  const VerseWholeRule := Rule("<sup class=\"versenum\">\\d+ </sup>", "")
  const SpaceOutRule := Rule("", " ")
  const LinkOpenRule := Rule("<a .*?>", "[")
  const LinkCloseRule := Rule("</a>", "]")

  // Footnote rules, lines 247-256.
  const BoldOpenRule := Rule("<b>", "*")
  const BoldCloseRule := Rule("</b>", "*")
  const ItalicOpenRule := Rule("<i>", "_")
  const ItalicCloseRule := Rule("</i>", "_")
  const SpanOpenRule := Rule("<span .*?>", "")

  /** Lines 217-229: the passage's chain up to the verse numbers. */
  function NumberedRules(numbering: bool): seq<Rule>
  {
    var cleaned := [HeadingRule] + [SpanIdRule] + [SpanCloseRule] + [NbspRule];
    if numbering then cleaned + [VerseOpenRule] + [SupCloseRule] else cleaned + [VerseWholeRule]
  }

  /**
   * The passage's whole chain, as the numbering and footnotes options
   * select it, in call order. The footnotes-on step of line 234 is not a
   * well-formed Ruby statement and is left out: that branch changes nothing.
   */
  function PassageRules(numbering: bool, footnotes: bool): seq<Rule>
  {
    var numbered := NumberedRules(numbering);
    var marked := if footnotes then numbered else numbered + [SpaceOutRule];
    marked + [LinkOpenRule] + [LinkCloseRule]
  }

  /** Every footnote's chain, in call order. */
  function FootnoteRules(): seq<Rule>
  {
    [BoldOpenRule] + [BoldCloseRule] + [ItalicOpenRule] + [ItalicCloseRule]
    + [LinkOpenRule] + [LinkCloseRule] + [SpanOpenRule] + [SpanCloseRule]
  }

  /** Applying one more rule to the result of a chain extends the chain. */
  lemma {:induction false} ApplyRulesSnoc(s: string, rules: seq<Rule>, r: Rule)
    ensures ApplyRules(s, rules + [r]) == Gsub(ApplyRules(s, rules), r)
    decreases |rules|
  {
    if |rules| > 0 {
      assert (rules + [r])[1..] == rules[1..] + [r];
      ApplyRulesSnoc(Gsub(s, rules[0]), rules[1..], r);
    }
  }

  /** A chain split in two: apply the first part, then the second. */
  lemma {:induction false} ApplyRulesAppend(s: string, a: seq<Rule>, b: seq<Rule>)
    ensures ApplyRules(s, a + b) == ApplyRules(ApplyRules(s, a), b)
    decreases |a|
  {
    if |a| > 0 {
      assert (a + b)[1..] == a[1..] + b;
      ApplyRulesAppend(Gsub(s, a[0]), a[1..], b);
    } else {
      assert a + b == b;
    }
  }

  /** Lines 217-240: the passage variable rewritten in place, call by call */
  method RewritePassage(passage: string, numbering: bool, footnotes: bool) returns (p: string)
    ensures p == ApplyRules(passage, PassageRules(numbering, footnotes))
  {
    p := passage;
    p := Gsub(p, HeadingRule);
    ghost var done: seq<Rule> := [HeadingRule];
    assert p == ApplyRules(passage, done);
    p := Gsub(p, SpanIdRule);
    ApplyRulesSnoc(passage, done, SpanIdRule); done := done + [SpanIdRule];
    p := Gsub(p, SpanCloseRule);
    ApplyRulesSnoc(passage, done, SpanCloseRule); done := done + [SpanCloseRule];
    p := Gsub(p, NbspRule);
    ApplyRulesSnoc(passage, done, NbspRule); done := done + [NbspRule];
    if numbering {
      p := Gsub(p, VerseOpenRule);
      ApplyRulesSnoc(passage, done, VerseOpenRule); done := done + [VerseOpenRule];
      p := Gsub(p, SupCloseRule);
      ApplyRulesSnoc(passage, done, SupCloseRule); done := done + [SupCloseRule];
    } else {
      p := Gsub(p, VerseWholeRule);
      ApplyRulesSnoc(passage, done, VerseWholeRule); done := done + [VerseWholeRule];
    }
    assert done == NumberedRules(numbering);
    if !footnotes {
      p := Gsub(p, SpaceOutRule);
      ApplyRulesSnoc(passage, done, SpaceOutRule); done := done + [SpaceOutRule];
    }
    p := Gsub(p, LinkOpenRule);
    ApplyRulesSnoc(passage, done, LinkOpenRule); done := done + [LinkOpenRule];
    p := Gsub(p, LinkCloseRule);
    ApplyRulesSnoc(passage, done, LinkCloseRule); done := done + [LinkCloseRule];
    assert done == PassageRules(numbering, footnotes);
  }

  /** One footnote's `gsub!` chain, lines 247-256. */
  method RewriteFootnote(ff: string) returns (t: string)
    ensures t == ApplyRules(ff, FootnoteRules())
  {
    t := ff;
    t := Gsub(t, BoldOpenRule);
    ghost var done: seq<Rule> := [BoldOpenRule];
    assert t == ApplyRules(ff, done);
    t := Gsub(t, BoldCloseRule);
    ApplyRulesSnoc(ff, done, BoldCloseRule); done := done + [BoldCloseRule];
    t := Gsub(t, ItalicOpenRule);
    ApplyRulesSnoc(ff, done, ItalicOpenRule); done := done + [ItalicOpenRule];
    t := Gsub(t, ItalicCloseRule);
    ApplyRulesSnoc(ff, done, ItalicCloseRule); done := done + [ItalicCloseRule];
    t := Gsub(t, LinkOpenRule);
    ApplyRulesSnoc(ff, done, LinkOpenRule); done := done + [LinkOpenRule];
    t := Gsub(t, LinkCloseRule);
    ApplyRulesSnoc(ff, done, LinkCloseRule); done := done + [LinkCloseRule];
    t := Gsub(t, SpanOpenRule);
    ApplyRulesSnoc(ff, done, SpanOpenRule); done := done + [SpanOpenRule];
    t := Gsub(t, SpanCloseRule);
    ApplyRulesSnoc(ff, done, SpanCloseRule); done := done + [SpanCloseRule];
    assert done == FootnoteRules();
  }

  /** Every footnote rewritten by its chain. */
  function RewrittenFootnotes(fs: seq<string>): (r: seq<string>)
    ensures |r| == |fs|
  {
    seq(|fs|, i requires 0 <= i < |fs| => ApplyRules(fs[i], FootnoteRules()))
  }

  /** Lines 242-260: the footnote array rewritten in place, entry by entry, when it has any entry. */
  method RewriteFootnotes(footnotes: array<string>, numberFootnotes: nat)
    requires numberFootnotes == footnotes.Length
    modifies footnotes
    ensures footnotes[..] == RewrittenFootnotes(old(footnotes[..]))
  {
    ghost var notes := footnotes[..];
    if numberFootnotes > 0 {
      var i := 0;
      while i < footnotes.Length
        invariant 0 <= i <= footnotes.Length
        invariant forall k :: 0 <= k < i ==> footnotes[k] == RewrittenFootnotes(notes)[k]
        invariant forall k :: i <= k < footnotes.Length ==> footnotes[k] == notes[k]
      {
        var ff := RewriteFootnote(footnotes[i]);
        footnotes[i] := ff;
        i := i + 1;
      }
    }
    assert footnotes[..] == RewrittenFootnotes(notes);
  }

  /** A literal pattern holding a character the text lacks never matches, and no rule brings the character in. */
  lemma GsubInert(s: string, r: Rule, c: char)
    requires c !in s && c !in r.rep
    ensures c !in Gsub(s, r)
    ensures c in r.pat ==> Gsub(s, r) == s
  {
    if r.pat == "" {
      InsertEverywhereKeepsAbsent(s, r.rep, c);
    } else {
      ReplaceAllKeepsAbsent(s, r.pat, r.rep, c);
      if c in r.pat {
        ReplaceAllInert(s, r.pat, r.rep, c);
      }
    }
  }

  /** No replacement brings `c` in. */
  ghost predicate RepsLack(rules: seq<Rule>, c: char)
  {
    forall i :: 0 <= i < |rules| ==> c !in rules[i].rep
  }

  /** A chain whose replacements lack `c` never brings `c` into a text that lacks it. */
  lemma {:induction false} ChainKeepsAbsent(s: string, rules: seq<Rule>, c: char)
    requires c !in s && RepsLack(rules, c)
    ensures c !in ApplyRules(s, rules)
    decreases |rules|
  {
    if |rules| > 0 {
      GsubInert(s, rules[0], c);
      ChainKeepsAbsent(Gsub(s, rules[0]), rules[1..], c);
    }
  }

  /**
   * Two chains that agree on a text lacking `c` still agree after each
   * applies the same rule, when its replacement lacks `c`.
   */
  lemma KeepStep(s: string, done: seq<Rule>, kept: seq<Rule>, r: Rule, c: char)
    requires ApplyRules(s, done) == ApplyRules(s, kept) && c !in ApplyRules(s, done) && c !in r.rep
    ensures ApplyRules(s, done + [r]) == ApplyRules(s, kept + [r])
    ensures c !in ApplyRules(s, done + [r])
  {
    ApplyRulesSnoc(s, done, r);
    ApplyRulesSnoc(s, kept, r);
    GsubInert(ApplyRules(s, done), r, c);
  }

  /** A rule whose pattern holds `c` leaves a text lacking `c` alone: the other chain may skip it. */
  lemma DropStep(s: string, done: seq<Rule>, kept: seq<Rule>, r: Rule, c: char)
    requires ApplyRules(s, done) == ApplyRules(s, kept) && c !in ApplyRules(s, done) && c !in r.rep
    requires c in r.pat
    ensures ApplyRules(s, done + [r]) == ApplyRules(s, kept)
    ensures c !in ApplyRules(s, done + [r])
  {
    ApplyRulesSnoc(s, done, r);
    GsubInert(ApplyRules(s, done), r, c);
  }

  /**
   * What the passage chain does to markup that holds no `?`: the `.*?`
   * patterns (headings, `<span id`, `<a ...>`) are
   * literal and never match, so only these rules take effect.
   */
  function EffectivePassageRules(numbering: bool, footnotes: bool): seq<Rule>
  {
    var cleaned := [SpanCloseRule] + [NbspRule];
    var numbered := if numbering then cleaned + [VerseOpenRule] + [SupCloseRule] else cleaned + [VerseWholeRule];
    var marked := if footnotes then numbered else numbered + [SpaceOutRule];
    marked + [LinkCloseRule]
  }

  lemma PassageRulesLiteral(passage: string, numbering: bool, footnotes: bool)
    requires '?' !in passage
    ensures ApplyRules(passage, PassageRules(numbering, footnotes)) == ApplyRules(passage, EffectivePassageRules(numbering, footnotes))
  {
    var c := '?';
    assert HeadingRule.pat[6] == c && SpanIdRule.pat[10] == c && LinkOpenRule.pat[5] == c;
    DropStep(passage, [], [], HeadingRule, c);
    var done: seq<Rule> := [HeadingRule];
    assert [] + [HeadingRule] == done;
    DropStep(passage, done, [], SpanIdRule, c); done := done + [SpanIdRule];
    KeepStep(passage, done, [], SpanCloseRule, c); done := done + [SpanCloseRule];
    var kept: seq<Rule> := [SpanCloseRule];
    assert [] + [SpanCloseRule] == kept;
    KeepStep(passage, done, kept, NbspRule, c); done, kept := done + [NbspRule], kept + [NbspRule];
    if numbering {
      KeepStep(passage, done, kept, VerseOpenRule, c); done, kept := done + [VerseOpenRule], kept + [VerseOpenRule];
      KeepStep(passage, done, kept, SupCloseRule, c); done, kept := done + [SupCloseRule], kept + [SupCloseRule];
    } else {
      KeepStep(passage, done, kept, VerseWholeRule, c); done, kept := done + [VerseWholeRule], kept + [VerseWholeRule];
    }
    if !footnotes {
      KeepStep(passage, done, kept, SpaceOutRule, c); done, kept := done + [SpaceOutRule], kept + [SpaceOutRule];
    }
    DropStep(passage, done, kept, LinkOpenRule, c); done := done + [LinkOpenRule];
    KeepStep(passage, done, kept, LinkCloseRule, c); done, kept := done + [LinkCloseRule], kept + [LinkCloseRule];
    assert done == PassageRules(numbering, footnotes);
    assert kept == EffectivePassageRules(numbering, footnotes);
  }

  /** What the passage chain with numbering off and footnotes on does to markup without `?` or a backslash. */
  function UnnumberedRules(): seq<Rule>
  {
    [SpanCloseRule] + [NbspRule] + [LinkCloseRule]
  }

  /**
   * With numbering off, the whole-verse-number pattern's `\d+` is literal:
   * on markup without `?` or a backslash it never matches, and the verse
   * number tags stay in the text.
   */
  lemma VerseNumbersStay(passage: string)
    requires '?' !in passage && '\\' !in passage
    ensures ApplyRules(passage, PassageRules(false, true)) == ApplyRules(passage, UnnumberedRules())
  {
    PassageRulesLiteral(passage, false, true);
    var c := '\\';
    assert VerseWholeRule.pat[22] == c;
    KeepStep(passage, [], [], SpanCloseRule, c);
    var done: seq<Rule> := [SpanCloseRule];
    assert [] + [SpanCloseRule] == done;
    var kept := done;
    KeepStep(passage, done, kept, NbspRule, c); done, kept := done + [NbspRule], kept + [NbspRule];
    DropStep(passage, done, kept, VerseWholeRule, c); done := done + [VerseWholeRule];
    KeepStep(passage, done, kept, LinkCloseRule, c); done, kept := done + [LinkCloseRule], kept + [LinkCloseRule];
    assert done == EffectivePassageRules(false, true);
    assert kept == UnnumberedRules();
  }

  /** What the footnote chain does to text without `?`. */
  function EffectiveFootnoteRules(): seq<Rule>
  {
    [BoldOpenRule] + [BoldCloseRule] + [ItalicOpenRule] + [ItalicCloseRule] + [LinkCloseRule] + [SpanCloseRule]
  }

  /** The footnote chain on text without `?`: `<a ...>` and `<span ...>` are literal and never match. */
  lemma FootnoteRulesLiteral(ff: string)
    requires '?' !in ff
    ensures ApplyRules(ff, FootnoteRules()) == ApplyRules(ff, EffectiveFootnoteRules())
  {
    var c := '?';
    assert LinkOpenRule.pat[5] == c && SpanOpenRule.pat[8] == c;
    KeepStep(ff, [], [], BoldOpenRule, c);
    var done: seq<Rule> := [BoldOpenRule];
    assert [] + [BoldOpenRule] == done;
    var kept := done;
    KeepStep(ff, done, kept, BoldCloseRule, c); done, kept := done + [BoldCloseRule], kept + [BoldCloseRule];
    KeepStep(ff, done, kept, ItalicOpenRule, c); done, kept := done + [ItalicOpenRule], kept + [ItalicOpenRule];
    KeepStep(ff, done, kept, ItalicCloseRule, c); done, kept := done + [ItalicCloseRule], kept + [ItalicCloseRule];
    DropStep(ff, done, kept, LinkOpenRule, c); done := done + [LinkOpenRule];
    KeepStep(ff, done, kept, LinkCloseRule, c); done, kept := done + [LinkCloseRule], kept + [LinkCloseRule];
    DropStep(ff, done, kept, SpanOpenRule, c); done := done + [SpanOpenRule];
    KeepStep(ff, done, kept, SpanCloseRule, c); done, kept := done + [SpanCloseRule], kept + [SpanCloseRule];
    assert done == FootnoteRules();
    assert kept == EffectiveFootnoteRules();
  }

  /**
   * With footnotes off, the empty pattern spaces the text out: a space
   * before every character and at the end, and the odd positions give the
   * text back.
   */
  lemma SpaceOutShape(s: string)
    ensures |Gsub(s, SpaceOutRule)| == 2 * |s| + 1
    ensures forall i :: 0 <= i < |Gsub(s, SpaceOutRule)| && i % 2 == 0 ==> Gsub(s, SpaceOutRule)[i] == ' '
    ensures OddPositions(Gsub(s, SpaceOutRule)) == s
  {
    InsertEverywhereShape(s, ' ');
  }

  /** A literal rule cuts the text at its pattern and glues the pieces with its replacement. */
  lemma GsubLiteral(s: string, r: Rule)
    requires r.pat != ""
    ensures Gsub(s, r) == Join(Split(s, r.pat), r.rep)
    ensures Join(Split(s, r.pat), r.pat) == s
  {
    ReplaceAllJoinsPieces(s, r.pat, r.rep);
    SplitJoin(s, r.pat);
  }

  /** A literal rule finds nothing to replace in a text that a chain left empty. */
  lemma EmptyStep(rules: seq<Rule>, r: Rule)
    requires ApplyRules("", rules) == "" && r.pat != ""
    ensures ApplyRules("", rules + [r]) == ""
  {
    ApplyRulesSnoc("", rules, r);
  }

  /**
   * An empty passage stays empty, except that with footnotes off the
   * spacing rule turns it into a single space that no later rule touches.
   */
  lemma EmptyPassage(numbering: bool, footnotes: bool)
    ensures ApplyRules("", NumberedRules(numbering)) == ""
    ensures ApplyRules("", PassageRules(numbering, footnotes)) == if footnotes then "" else " "
  {
    assert ApplyRules("", [HeadingRule]) == "";
    EmptyStep([HeadingRule], SpanIdRule);
    EmptyStep([HeadingRule] + [SpanIdRule], SpanCloseRule);
    var cleaned := [HeadingRule] + [SpanIdRule] + [SpanCloseRule];
    EmptyStep(cleaned, NbspRule);
    cleaned := cleaned + [NbspRule];
    if numbering {
      EmptyStep(cleaned, VerseOpenRule);
      EmptyStep(cleaned + [VerseOpenRule], SupCloseRule);
    } else {
      EmptyStep(cleaned, VerseWholeRule);
    }
    var numbered := NumberedRules(numbering);
    if !footnotes {
      ApplyRulesSnoc("", numbered, SpaceOutRule);
    }
    var marked := if footnotes then numbered else numbered + [SpaceOutRule];
    var m := ApplyRules("", marked);
    assert m == if footnotes then "" else " ";
    assert Gsub(m, LinkOpenRule) == m by {
      assert !OccursAt(m, LinkOpenRule.pat, 0);
      assert m == "" || m[1..] == "";
    }
    assert Gsub(m, LinkCloseRule) == m by {
      assert !OccursAt(m, LinkCloseRule.pat, 0);
      assert m == "" || m[1..] == "";
    }
    ApplyRulesSnoc("", marked, LinkOpenRule);
    ApplyRulesSnoc("", marked + [LinkOpenRule], LinkCloseRule);
  }
}
