/**
 * The written document (bg2md.rb lines 263-275): a heading naming the
 * passage and its version, the passage text, the numbered footnotes when
 * there are some and they are wanted, and the copyright notice when it is
 * wanted. Each `puts` writes one element of the document.
 */
module Document {
  import opened Wrappers

  predicate IsDigit(c: char)
  {
    '0' <= c <= '9'
  }

  predicate AllDigits(s: string)
  {
    forall i :: 0 <= i < |s| ==> IsDigit(s[i])
  }

  /** The decimal digit for `d`. */
  function DigitChar(d: nat): (c: char)
    requires d < 10
    ensures IsDigit(c) && c as int - '0' as int == d
  {
    ('0' as int + d) as char
  }

  /** Ruby's `Integer#to_s` for a natural number: decimal, no leading zero. */
  function Digits(n: nat): (r: string)
    decreases n
  {
    if n < 10 then [DigitChar(n)] else Digits(n / 10) + [DigitChar(n % 10)]
  }

  /** The number a string of decimal digits denotes. */
  function ValueOf(s: string): nat
    requires AllDigits(s)
  {
    if |s| == 0 then 0 else ValueOf(s[..|s| - 1]) * 10 + (s[|s| - 1] as int - '0' as int)
  }

  /** A digit string as `to_s` writes one: not empty, and no leading zero unless it is "0". */
  predicate Canonical(s: string)
  {
    |s| > 0 && AllDigits(s) && (s[0] == '0' ==> |s| == 1)
  }

  /** `to_s` writes a canonical digit string that reads back as the number. */
  lemma {:induction false} DigitsRoundTrip(n: nat)
    ensures Canonical(Digits(n))
    ensures ValueOf(Digits(n)) == n
    decreases n
  {
    if n >= 10 {
      DigitsRoundTrip(n / 10);
      var d := Digits(n / 10);
      var r := d + [DigitChar(n % 10)];
      assert r[..|r| - 1] == d;
      assert r[0] == d[0];
    }
  }

  /** The index of the first non-digit of `s` at or after `from`, or `|s|`. */
  function DigitRunEnd(s: string, from: nat): (r: nat)
    requires from <= |s|
    ensures from <= r <= |s|
    ensures AllDigits(s[from..r])
    ensures r < |s| ==> !IsDigit(s[r])
    decreases |s| - from
  {
    if from == |s| || !IsDigit(s[from]) then from
    else
      var r := DigitRunEnd(s, from + 1);
      assert forall i :: 0 <= i < r - from ==> s[from..r][i] == s[from + i];
      r
  }

  const FootnoteLabelOpen: string := "[^"
  const FootnoteLabelClose: string := "]: "

  /** `"[^#{i}]: #{ff}"`: a Markdown footnote definition. */
  function FootnoteLine(i: nat, text: string): string
  {
    FootnoteLabelOpen + Digits(i) + FootnoteLabelClose + text
  }

  /** Reads a footnote definition back into its number and its text. */
  function ParseFootnoteLine(line: string): Option<(nat, string)>
  {
    if |line| < 2 || line[..2] != FootnoteLabelOpen then None
    else
      var k := DigitRunEnd(line, 2);
      if k == 2 || k + 3 > |line| || line[k..k + 3] != FootnoteLabelClose then None
      else Some((ValueOf(line[2..k]), line[k + 3..]))
  }

  /** A footnote definition reads back as the number and text it was written from. */
  lemma FootnoteLineRoundTrip(i: nat, text: string)
    ensures ParseFootnoteLine(FootnoteLine(i, text)) == Some((i, text))
  {
    var d := Digits(i);
    DigitsRoundTrip(i);
    var line := FootnoteLine(i, text);
    var k := 2 + |d|;
    assert line[..2] == FootnoteLabelOpen;
    assert line[2..k] == d;
    assert line[k] == ']';
    assert DigitRunEnd(line, 2) == k by {
      DigitRunEndAt(line, 2, k);
    }
    assert line[k..k + 3] == FootnoteLabelClose;
    assert line[k + 3..] == text;
  }

  /** A run of digits followed by a non-digit ends right there. */
  lemma {:induction false} DigitRunEndAt(s: string, from: nat, k: nat)
    requires from <= k < |s|
    requires AllDigits(s[from..k]) && !IsDigit(s[k])
    ensures DigitRunEnd(s, from) == k
    decreases k - from
  {
    if from < k {
      assert s[from] == s[from..k][0];
      assert s[from + 1..k] == s[from..k][1..];
      DigitRunEndAt(s, from + 1, k);
    }
  }

  /** The footnote definitions, numbered from 1 in array order. */
  function NumberedFootnotes(fs: seq<string>): (r: seq<string>)
    ensures |r| == |fs|
  {
    seq(|fs|, k requires 0 <= k < |fs| => FootnoteLine(k + 1, fs[k]))
  }

  /** Lines 267-270: the footnote loop, its counter starting at 1. */
  method WriteFootnotes(fs: seq<string>) returns (lines: seq<string>)
    ensures lines == NumberedFootnotes(fs)
  {
    lines := [];
    var i := 1;
    for k := 0 to |fs|
      invariant i == k + 1
      invariant lines == NumberedFootnotes(fs[..k])
    {
      lines := lines + [FootnoteLine(i, fs[k])];
      i := i + 1;
    }
    assert fs[..|fs|] == fs;
  }

  /** `"# Passage: #{full_ref} (#{version})"` */
  function Heading(fullRef: string, version: string): string
  {
    "# Passage: " + fullRef + " (" + version + ")"
  }

  /** The footnote definitions printed: all of them when there are some and they are wanted. */
  function ShownFootnotes(footnotes: seq<string>, withFootnotes: bool): seq<string>
  {
    if |footnotes| > 0 && withFootnotes then NumberedFootnotes(footnotes) else []
  }

  /** Lines 263-275, one element per `puts`. */
  function Written(fullRef: string, version: string, passage: string, footnotes: seq<string>,
                   copyright: string, withFootnotes: bool, withCopyright: bool): seq<string>
  {
    [Heading(fullRef, version), "", passage, ""] + ShownFootnotes(footnotes, withFootnotes) + [""]
    + (if withCopyright then [copyright] else [])
  }

  /**
   * The document's layout: heading, blank, passage, blank, then each
   * footnote as a definition that reads back as its number (from 1) and its
   * text, then a blank, and the copyright notice last when it is wanted.
   */
  lemma WrittenLayout(fullRef: string, version: string, passage: string, footnotes: seq<string>,
                      copyright: string, withFootnotes: bool, withCopyright: bool)
    ensures
      var doc := Written(fullRef, version, passage, footnotes, copyright, withFootnotes, withCopyright);
      var n := if |footnotes| > 0 && withFootnotes then |footnotes| else 0;
      && |doc| == 5 + n + (if withCopyright then 1 else 0)
      && doc[0] == Heading(fullRef, version) && doc[1] == "" && doc[2] == passage && doc[3] == ""
      && (forall k :: 0 <= k < n ==> ParseFootnoteLine(doc[4 + k]) == Some((k + 1, footnotes[k])))
      && doc[4 + n] == ""
      && (withCopyright ==> doc[5 + n] == copyright)
  {
    var doc := Written(fullRef, version, passage, footnotes, copyright, withFootnotes, withCopyright);
    var shown := ShownFootnotes(footnotes, withFootnotes);
    var n := |shown|;
    forall k | 0 <= k < n
      ensures ParseFootnoteLine(doc[4 + k]) == Some((k + 1, footnotes[k]))
    {
      assert doc[4 + k] == shown[k] == FootnoteLine(k + 1, footnotes[k]);
      FootnoteLineRoundTrip(k + 1, footnotes[k]);
    }
  }
}
