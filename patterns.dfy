/**
 * The fixed regular expressions of bg2md.rb (lines 54-65), each matched by
 * a dedicated function rather than a general regex engine, with Ruby's
 * semantics: `.` matches any character but a newline, `\s` matches the
 * characters of `Text.IsSpace`, a lazy `.*?` takes the shortest run that
 * lets the rest match, a greedy `.*` the longest, and the leftmost start
 * position that admits a match wins. `String#scan` then collects the
 * successive non-overlapping matches, left to right.
 */
module Patterns {
  import opened Wrappers
  import opened Text

  const RefOpen: string := "<span class=\"passage-display-bcv\">"
  const VersionOpen: string := "<span class=\"passage-display-version\">"
  const SpanClose: string := "</span>"
  const PassageOpen: string := "<h1 class=\"passage-display\">"
  const ParaOpen: string := "<p>"
  const ParaClose: string := "</p>"
  const DivClose: string := "</div>"
  const FootnotesDiv: string := "<div class=\"footnotes\">"
  const FootnoteTextOpen: string := "<span class='footnote-text'>"
  const TitleAttr: string := "title="
  /** `</a>`, the `( )` group and the footnote-text span, which follow a footnote label. */
  const LabelTail: string := "</a> <span class='footnote-text'>"
  const ItemClose: string := "</span></li>"

  /** One match: where it starts and ends in the line, and its capture groups in order. */
  datatype Match = Match(start: nat, end: nat, groups: seq<string>)

  /** The concatenation of a sequence of strings. */
  function Concat(parts: seq<string>): string
  {
    if |parts| == 0 then "" else parts[0] + Concat(parts[1..])
  }

  /** Ruby's `m.join` on the captures of one match. */
  function Joined(m: Match): string
  {
    Concat(m.groups)
  }

  /** The fixed patterns that bg2md.rb scans working lines with. */
  datatype Pattern =
    | RefPattern          // MATCH_REF_RE: <span class="passage-display-bcv">(.*?)</span>
    | VersionPattern      // MATCH_VERSION_RE: <span class="passage-display-version">(.*?)</span>
    | PassagePattern      // MATCH_PASSAGE_RE: <h1 class="passage-display">(.*)(</p>\s*</div>|</p>\s*<div class="footnotes">)
    | CopyrightPattern    // MATCH_COPYRIGHT_STRING_RE: <p>(.*)</p>
    | FootnotePattern     // MATCH_FOOTNOTE_RE: title=.*?>(.*?)</a>( )<span class='footnote-text'>(.*)</span></li>
    | FootnoteTextPattern // FOOTNOTE_RE: <span class='footnote-text'>.*?</span>

  // ---------------------------------------------------------------------
  // open(.*?)close

  /** The lazy group of `open(.*?)close`, started at `s`, can end at `k`. */
  predicate LazyFits(line: string, s: nat, open: string, close: string, k: nat)
  {
    && OccursAt(line, open, s)
    && s + |open| <= k <= LineEnd(line, s + |open|)
    && OccursAt(line, close, k)
  }

  /** Where the lazy group of `open(.*?)close` tried at `s` ends: at the first `close` on its line. */
  function LazyGroupEnd(line: string, s: nat, open: string, close: string): Option<nat>
  {
    if !OccursAt(line, open, s) then None
    else
      var a := s + |open|;
      match FindFrom(line, close, a)
      case None => None
      case Some(k) => if k <= LineEnd(line, a) then Some(k) else None
  }

  /** The lazy group ends at the smallest end that lets `close` match, and fails only when none does. */
  lemma LazyGroupEndIsShortest(line: string, s: nat, open: string, close: string)
    ensures LazyGroupEnd(line, s, open, close).None? ==> forall k: nat :: !LazyFits(line, s, open, close, k)
    ensures LazyGroupEnd(line, s, open, close).Some? ==>
      var k := LazyGroupEnd(line, s, open, close).value;
      && LazyFits(line, s, open, close, k)
      && forall j: nat :: j < k ==> !LazyFits(line, s, open, close, j)
  {
  }

  /** `open(.*?)close` tried at index `s`, capturing the group. */
  function LazyAt(line: string, s: nat, open: string, close: string): (r: Option<Match>)
    requires |open| > 0
    ensures r.Some? ==> r.value.start == s && s < r.value.end <= |line|
    ensures r.Some? <==> LazyGroupEnd(line, s, open, close).Some?
    ensures r.Some? ==>
      var k := LazyGroupEnd(line, s, open, close).value;
      r.value.end == k + |close| && r.value.groups == [line[s + |open|..k]]
  {
    match LazyGroupEnd(line, s, open, close)
    case None => None
    case Some(k) => Some(Match(s, k + |close|, [line[s + |open|..k]]))
  }

  // ---------------------------------------------------------------------
  // Closing boundaries of the greedy groups

  /** What may follow a greedy `.*` group. */
  datatype Closer =
    | ParaCloser     // </p>
    | PassageCloser  // </p>\s*</div> | </p>\s*<div class="footnotes">
    | ItemCloser     // </span></li>

  /**
   * Where the closer that starts at `e` ends, if one starts there. For the
   * passage closer, `\s*` can only be followed by `</div>` or
   * `<div class="footnotes">` (both begin with '<', which is not `\s`) at the
   * end of the longest whitespace run, so only that run is tried.
   */
  function CloserEnd(line: string, e: nat, c: Closer): (r: Option<nat>)
    ensures r.Some? ==> e < r.value <= |line|
  {
    match c
    case ParaCloser => if OccursAt(line, ParaClose, e) then Some(e + |ParaClose|) else None
    case ItemCloser => if OccursAt(line, ItemClose, e) then Some(e + |ItemClose|) else None
    case PassageCloser =>
      if !OccursAt(line, ParaClose, e) then None
      else
        var j := SpaceRunEnd(line, e + |ParaClose|);
        if OccursAt(line, DivClose, j) then Some(j + |DivClose|)
        else if OccursAt(line, FootnotesDiv, j) then Some(j + |FootnotesDiv|)
        else None
  }

  /** The last index in `[lo, hi]` where a closer starts: a greedy group backs off from the right. */
  function LastCloser(line: string, lo: nat, hi: nat, c: Closer): (r: Option<nat>)
    requires lo <= hi
    decreases hi - lo
    ensures r.Some? ==> lo <= r.value <= hi && CloserEnd(line, r.value, c).Some?
    ensures r.Some? ==> forall j: nat :: r.value < j <= hi ==> CloserEnd(line, j, c).None?
    ensures r.None? ==> forall j: nat :: lo <= j <= hi ==> CloserEnd(line, j, c).None?
  {
    if CloserEnd(line, hi, c).Some? then Some(hi)
    else if hi == lo then None
    else LastCloser(line, lo, hi - 1, c)
  }

  // ---------------------------------------------------------------------
  // open(.*)closer

  /** The greedy group of `open(.*)closer`, started at `s`, can end at `e`. */
  predicate GreedyFits(line: string, s: nat, open: string, c: Closer, e: nat)
  {
    && OccursAt(line, open, s)
    && s + |open| <= e <= LineEnd(line, s + |open|)
    && CloserEnd(line, e, c).Some?
  }

  /** Where the greedy group of `open(.*)closer` tried at `s` ends: at the last closer on its line. */
  function GreedyGroupEnd(line: string, s: nat, open: string, c: Closer): (r: Option<nat>)
    ensures r.Some? ==> s + |open| <= r.value && CloserEnd(line, r.value, c).Some?
  {
    if !OccursAt(line, open, s) then None
    else
      var a := s + |open|;
      LastCloser(line, a, LineEnd(line, a), c)
  }

  /** The greedy group ends at the largest end that lets the closer match, and fails only when none does. */
  lemma GreedyGroupEndIsLongest(line: string, s: nat, open: string, c: Closer)
    ensures GreedyGroupEnd(line, s, open, c).None? ==> forall e: nat :: !GreedyFits(line, s, open, c, e)
    ensures GreedyGroupEnd(line, s, open, c).Some? ==>
      var e := GreedyGroupEnd(line, s, open, c).value;
      && GreedyFits(line, s, open, c, e)
      && forall j: nat :: e < j ==> !GreedyFits(line, s, open, c, j)
  {
  }

  /**
   * `open(.*)closer` tried at index `s`. The passage pattern also captures
   * the closer as its second group; the others do not capture it.
   */
  function GreedyAt(line: string, s: nat, open: string, c: Closer): (r: Option<Match>)
    requires |open| > 0
    ensures r.Some? ==> r.value.start == s && s < r.value.end <= |line|
    ensures r.Some? <==> GreedyGroupEnd(line, s, open, c).Some?
    ensures r.Some? ==>
      var e := GreedyGroupEnd(line, s, open, c).value;
      && r.value.end == CloserEnd(line, e, c).value
      && |r.value.groups| == (if c == PassageCloser then 2 else 1)
      && r.value.groups[0] == line[s + |open|..e]
  {
    match GreedyGroupEnd(line, s, open, c)
    case None => None
    case Some(e) =>
      var end := CloserEnd(line, e, c).value;
      Some(Match(s, end, [line[s + |open|..e]] + (if c == PassageCloser then [line[e..end]] else [])))
  }

  // ---------------------------------------------------------------------
  // title=.*?>(.*?)</a>( )<span class='footnote-text'>(.*)</span></li>

  /**
   * The footnote pattern matches at `s` with its first lazy run ending at
   * the '>' at `p`, the label ending at `q` (where `</a>` starts) and the
   * greedy text ending at `r` (where `</span></li>` starts).
   */
  predicate FootnoteFits(line: string, s: nat, p: nat, q: nat, r: nat)
  {
    && OccursAt(line, TitleAttr, s)
    && s + |TitleAttr| <= p < |line| && line[p] == '>' && p <= LineEnd(line, s + |TitleAttr|)
    && p + 1 <= q <= LineEnd(line, p + 1) && OccursAt(line, LabelTail, q)
    && q + |LabelTail| <= r <= LineEnd(line, q + |LabelTail|) && OccursAt(line, ItemClose, r)
  }

  /** The label may end at `q`: the tail follows and the greedy text group finds its closer. */
  predicate TailFits(line: string, q: nat)
  {
    && OccursAt(line, LabelTail, q)
    && LastCloser(line, q + |LabelTail|, LineEnd(line, q + |LabelTail|), ItemCloser).Some?
  }

  /** The first `q` in `[lo, hi]` where the label may end. */
  function FirstTail(line: string, lo: nat, hi: nat): (r: Option<nat>)
    requires lo <= hi + 1
    decreases hi + 1 - lo
    ensures r.Some? ==> lo <= r.value <= hi && TailFits(line, r.value)
    ensures r.Some? ==> forall j: nat :: lo <= j < r.value ==> !TailFits(line, j)
    ensures r.None? ==> forall j: nat :: lo <= j <= hi ==> !TailFits(line, j)
  {
    if lo > hi then None
    else if TailFits(line, lo) then Some(lo)
    else FirstTail(line, lo + 1, hi)
  }

  /** The '>' that ends the first lazy run of the footnote pattern tried at `s`: the first one on the line. */
  function FootnoteGt(line: string, s: nat): (r: Option<nat>)
    ensures r.Some? ==>
      && OccursAt(line, TitleAttr, s)
      && s + |TitleAttr| <= r.value < LineEnd(line, s + |TitleAttr|)
      && line[r.value] == '>'
  {
    if !OccursAt(line, TitleAttr, s) then None
    else
      var b := s + |TitleAttr|;
      match FindFrom(line, ">", b)
      case None => None
      case Some(p) =>
        if p < LineEnd(line, b) then assert line[p..p + 1] == ">"; Some(p) else None
  }

  /** A parse of the footnote pattern: the '>' index, the label end and the text end. */
  datatype Parse = Parse(p: nat, q: nat, r: nat)

  /**
   * The parse Ruby's backtracking finds at `s`. It tries the first lazy
   * run, the label and the text in that order; the first '>' after `title=`
   * always serves when any later one would (see `FootnoteAtIsFirstParse`),
   * so only the label end and the text end are searched.
   */
  function FootnoteParseAt(line: string, s: nat): (t: Option<Parse>)
    ensures t.Some? ==> FootnoteFits(line, s, t.value.p, t.value.q, t.value.r)
  {
    match FootnoteGt(line, s)
    case None => None
    case Some(p) =>
      var lb := LineEnd(line, s + |TitleAttr|);
      match FirstTail(line, p + 1, lb)
      case None => None
      case Some(q) =>
        var c := q + |LabelTail|;
        TailParseFits(line, s, p, q);
        Some(Parse(p, q, LastCloser(line, c, LineEnd(line, c), ItemCloser).value))
  }

  /** The first '>' and the first label end that lets the text group close make a parse. */
  lemma TailParseFits(line: string, s: nat, p: nat, q: nat)
    requires FootnoteGt(line, s) == Some(p)
    requires FirstTail(line, p + 1, LineEnd(line, s + |TitleAttr|)) == Some(q)
    ensures LastCloser(line, q + |LabelTail|, LineEnd(line, q + |LabelTail|), ItemCloser).Some?
    ensures FootnoteFits(line, s, p, q, LastCloser(line, q + |LabelTail|, LineEnd(line, q + |LabelTail|), ItemCloser).value)
  {
    LabelFits(line, s, p, q);
    TextFits(line, q);
  }

  /** The '>' and the label end found lie on the line of `title=`, and the label tail follows. */
  lemma LabelFits(line: string, s: nat, p: nat, q: nat)
    requires FootnoteGt(line, s) == Some(p)
    requires FirstTail(line, p + 1, LineEnd(line, s + |TitleAttr|)) == Some(q)
    ensures OccursAt(line, TitleAttr, s)
    ensures s + |TitleAttr| <= p < |line| && line[p] == '>' && p <= LineEnd(line, s + |TitleAttr|)
    ensures p + 1 <= q <= LineEnd(line, p + 1)
    ensures TailFits(line, q)
  {
    LineEndWithin(line, s + |TitleAttr|, p + 1);
  }

  /** After the label tail, the text group ends where `</span></li>` starts, on the same line. */
  lemma TextFits(line: string, q: nat)
    requires TailFits(line, q)
    ensures OccursAt(line, LabelTail, q)
    ensures
      var c := q + |LabelTail|;
      var r := LastCloser(line, c, LineEnd(line, c), ItemCloser);
      && r.Some? && c <= r.value <= LineEnd(line, c) && OccursAt(line, ItemClose, r.value)
  {
    var c := q + |LabelTail|;
    var r := LastCloser(line, c, LineEnd(line, c), ItemCloser).value;
    assert CloserEnd(line, r, ItemCloser).Some?;
  }

  /** The footnote pattern tried at index `s`: groups label, " " and text. */
  function FootnoteAt(line: string, s: nat): (res: Option<Match>)
    ensures res.Some? ==> res.value.start == s && s < res.value.end <= |line|
    ensures res.Some? ==> |res.value.groups| == 3 && res.value.groups[1] == " "
  {
    match FootnoteParseAt(line, s)
    case None => None
    case Some(t) =>
      Some(Match(s, t.r + |ItemClose|, [line[t.p + 1..t.q], " ", line[t.q + |LabelTail|..t.r]]))
  }

  /** What every parse of the footnote pattern implies about its '>' and its label end. */
  lemma FootnoteFitsWindow(line: string, s: nat, p: nat, q: nat, r: nat)
    requires FootnoteFits(line, s, p, q, r)
    ensures FootnoteGt(line, s).Some? && FootnoteGt(line, s).value <= p
    ensures LineEnd(line, p + 1) == LineEnd(line, s + |TitleAttr|)
    ensures TailFits(line, q)
  {
    var b := s + |TitleAttr|;
    assert line[p..p + 1] == ">";
    assert OccursAt(line, ">", p);
    LineEndWithin(line, b, p + 1);
    assert CloserEnd(line, r, ItemCloser).Some?;
  }

  /**
   * `FootnoteAt` agrees with the regex's backtracking order: it succeeds
   * exactly when some parse exists, and then its groups are those of the
   * parse with the smallest `p`, then the smallest `q`, then the largest `r`.
   */
  lemma FootnoteAtIsFirstParse(line: string, s: nat)
    ensures FootnoteParseAt(line, s).None? ==> forall p: nat, q: nat, r: nat :: !FootnoteFits(line, s, p, q, r)
    ensures FootnoteParseAt(line, s).Some? ==>
      var t := FootnoteParseAt(line, s).value;
      && FootnoteFits(line, s, t.p, t.q, t.r)
      && FootnoteAt(line, s).value.groups == [line[t.p + 1..t.q], " ", line[t.q + |LabelTail|..t.r]]
      && (forall p: nat, q: nat, r: nat :: FootnoteFits(line, s, p, q, r) ==> t.p <= p)
      && (forall q: nat, r: nat :: FootnoteFits(line, s, t.p, q, r) ==> t.q <= q)
      && (forall r: nat :: FootnoteFits(line, s, t.p, t.q, r) ==> r <= t.r)
  {
    forall p: nat, q: nat, r: nat | FootnoteFits(line, s, p, q, r)
      ensures FootnoteParseAt(line, s).Some?
      ensures FootnoteParseAt(line, s).value.p <= p
      ensures FootnoteParseAt(line, s).value.p == p ==> FootnoteParseAt(line, s).value.q <= q
    {
      FirstParseIsLeast(line, s, p, q, r);
    }
    if FootnoteParseAt(line, s).Some? {
      var t := FootnoteParseAt(line, s).value;
      forall r: nat | FootnoteFits(line, s, t.p, t.q, r) ensures r <= t.r {
        FirstParseIsLongest(line, s, r);
      }
    }
  }

  /** Any parse of the footnote pattern has a '>' no earlier, and with the same '>' a label end no earlier, than the one found. */
  lemma FirstParseIsLeast(line: string, s: nat, p: nat, q: nat, r: nat)
    requires FootnoteFits(line, s, p, q, r)
    ensures FootnoteParseAt(line, s).Some?
    ensures FootnoteParseAt(line, s).value.p <= p
    ensures FootnoteParseAt(line, s).value.p == p ==> FootnoteParseAt(line, s).value.q <= q
  {
    FootnoteFitsWindow(line, s, p, q, r);
    var p0 := FootnoteGt(line, s).value;
    var lb := LineEnd(line, s + |TitleAttr|);
    assert p0 + 1 <= q <= lb;
    assert FirstTail(line, p0 + 1, lb).Some?;
  }

  /** With the '>' and the label end found, no parse has a longer text group. */
  lemma FirstParseIsLongest(line: string, s: nat, r: nat)
    requires FootnoteParseAt(line, s).Some?
    requires
      var t := FootnoteParseAt(line, s).value;
      FootnoteFits(line, s, t.p, t.q, r)
    ensures r <= FootnoteParseAt(line, s).value.r
  {
    assert CloserEnd(line, r, ItemCloser).Some?;
  }

  // ---------------------------------------------------------------------
  // Leftmost match and scan

  /** A pattern tried at one start index. */
  function MatchAt(pat: Pattern, line: string, s: nat): (r: Option<Match>)
    ensures r.Some? ==> r.value.start == s && s < r.value.end <= |line|
    ensures r.Some? ==> |r.value.groups| == (match pat case PassagePattern => 2 case FootnotePattern => 3 case _ => 1)
  {
    match pat
    case RefPattern => LazyAt(line, s, RefOpen, SpanClose)
    case VersionPattern => LazyAt(line, s, VersionOpen, SpanClose)
    case FootnoteTextPattern => LazyAt(line, s, FootnoteTextOpen, SpanClose)
    case PassagePattern => GreedyAt(line, s, PassageOpen, PassageCloser)
    case CopyrightPattern => GreedyAt(line, s, ParaOpen, ParaCloser)
    case FootnotePattern => FootnoteAt(line, s)
  }

  /** The leftmost match at or after `from`. */
  function FirstMatch(pat: Pattern, line: string, from: nat): (r: Option<Match>)
    decreases |line| - from
    ensures r.Some? ==> from <= r.value.start < r.value.end <= |line|
  {
    if from >= |line| then None
    else
      match MatchAt(pat, line, from)
      case Some(m) => Some(m)
      case None => FirstMatch(pat, line, from + 1)
  }

  /** What FirstMatch finds is the pattern's match at the index it reports. */
  lemma {:induction false} FirstMatchIsMatch(pat: Pattern, line: string, from: nat)
    ensures
      var r := FirstMatch(pat, line, from);
      r.Some? ==> MatchAt(pat, line, r.value.start) == r
    decreases |line| - from
  {
    if from < |line| && MatchAt(pat, line, from).None? {
      FirstMatchIsMatch(pat, line, from + 1);
    }
  }

  /**
   * FirstMatch finds the leftmost match: no match starts at an index from
   * `from` on that lies before the one it finds, or anywhere from `from` on
   * when it finds none.
   */
  lemma {:induction false} FirstMatchIsLeftmost(pat: Pattern, line: string, from: nat, j: nat)
    requires from <= j
    requires FirstMatch(pat, line, from).None? || j < FirstMatch(pat, line, from).value.start
    ensures MatchAt(pat, line, j).None?
    decreases j - from
  {
    if j < |line| {
      var r := FirstMatch(pat, line, from);
      FirstMatchSkips(pat, line, from);
      if from < j {
        assert FirstMatch(pat, line, from + 1) == r;
        assert r.None? || j < r.value.start;
        FirstMatchIsLeftmost(pat, line, from + 1, j);
      }
    }
  }

  /** A search that finds nothing at `from` itself moves on to `from + 1`. */
  lemma FirstMatchSkips(pat: Pattern, line: string, from: nat)
    requires from < |line|
    requires FirstMatch(pat, line, from).None? || from < FirstMatch(pat, line, from).value.start
    ensures MatchAt(pat, line, from).None?
    ensures FirstMatch(pat, line, from) == FirstMatch(pat, line, from + 1)
  {
  }

  /**
   * `line.scan(pat)` from index `from`: the successive leftmost matches,
   * each search resuming where the previous match ended.
   */
  function Scan(pat: Pattern, line: string, from: nat): (ms: seq<Match>)
    decreases |line| - from
    ensures forall i :: 0 <= i < |ms| ==> from <= ms[i].start < ms[i].end <= |line|
    ensures forall i :: 0 < i < |ms| ==> ms[i - 1].end <= ms[i].start
    ensures |ms| > 0 <==> FirstMatch(pat, line, from).Some?
  {
    match FirstMatch(pat, line, from)
    case None => []
    case Some(m) => [m] + Scan(pat, line, m.end)
  }

  /** Where the search for the `i`-th match of a scan from `from` resumes. */
  function Resume(ms: seq<Match>, from: nat, i: nat): nat
    requires i <= |ms|
  {
    if i == 0 then from else ms[i - 1].end
  }

  /**
   * Scan is the sequence of leftmost matches: each is the first match at
   * or after the end of the previous one, and after the last there is none.
   */
  lemma {:induction false} ScanIsSuccessiveLeftmost(pat: Pattern, line: string, from: nat)
    ensures
      var ms := Scan(pat, line, from);
      forall i :: 0 <= i < |ms| ==> FirstMatch(pat, line, Resume(ms, from, i)) == Some(ms[i])
    ensures
      var ms := Scan(pat, line, from);
      FirstMatch(pat, line, Resume(ms, from, |ms|)).None?
    decreases |line| - from
  {
    var ms := Scan(pat, line, from);
    if |ms| > 0 {
      var m := ms[0];
      var rest := Scan(pat, line, m.end);
      ScanIsSuccessiveLeftmost(pat, line, m.end);
      assert ms == [m] + rest;
      forall i | 0 < i < |ms| ensures FirstMatch(pat, line, Resume(ms, from, i)) == Some(ms[i]) {
        assert Resume(ms, from, i) == Resume(rest, m.end, i - 1);
      }
      assert Resume(ms, from, |ms|) == Resume(rest, m.end, |rest|);
    }
  }

  /** Every match a scan collects is the pattern's match at its start index. */
  lemma ScanMatchAt(pat: Pattern, line: string, from: nat, i: nat)
    requires i < |Scan(pat, line, from)|
    ensures MatchAt(pat, line, Scan(pat, line, from)[i].start) == Some(Scan(pat, line, from)[i])
  {
    var ms := Scan(pat, line, from);
    ScanIsSuccessiveLeftmost(pat, line, from);
    assert FirstMatch(pat, line, Resume(ms, from, i)) == Some(ms[i]);
    FirstMatchIsMatch(pat, line, Resume(ms, from, i));
  }

  /** The joined captures of every match of `line.scan(pat)`, in order. */
  function Captures(pat: Pattern, line: string): (r: seq<string>)
    ensures |r| == |Scan(pat, line, 0)|
    ensures forall i :: 0 <= i < |r| ==> r[i] == Joined(Scan(pat, line, 0)[i])
  {
    var ms := Scan(pat, line, 0);
    seq(|ms|, i requires 0 <= i < |ms| => Joined(ms[i]))
  }

  /** `m.join` of one, two or three groups. */
  lemma ConcatSmall(g: seq<string>)
    ensures |g| == 1 ==> Concat(g) == g[0]
    ensures |g| == 2 ==> Concat(g) == g[0] + g[1]
    ensures |g| == 3 ==> Concat(g) == g[0] + g[1] + g[2]
  {
    if |g| > 0 {
      assert Concat(g) == g[0] + Concat(g[1..]);
      if |g| > 1 {
        assert Concat(g[1..]) == g[1] + Concat(g[2..]);
        if |g| > 2 {
          assert Concat(g[2..]) == g[2] + Concat(g[3..]);
        }
      }
    }
  }

  /** `v` ends with `</p>`, a run of `\s` and then `tag`. */
  ghost predicate EndsWithBoundary(v: string, tag: string)
  {
    exists w: string :: AllSpace(w) && EndsWith(v, ParaClose + w + tag)
  }

  /** `v` ends with one of the two closing boundaries of MATCH_PASSAGE_RE. */
  ghost predicate EndsWithPassageBoundary(v: string)
  {
    EndsWithBoundary(v, DivClose) || EndsWithBoundary(v, FootnotesDiv)
  }

  /** Text that runs up to the end of a passage closer ends with that closer. */
  lemma PassageCloserEnds(line: string, a: nat, e: nat)
    requires a <= e && CloserEnd(line, e, PassageCloser).Some?
    ensures EndsWithPassageBoundary(line[a..CloserEnd(line, e, PassageCloser).value])
  {
    var end := CloserEnd(line, e, PassageCloser).value;
    var v := line[a..end];
    var j := SpaceRunEnd(line, e + |ParaClose|);
    var w := line[e + |ParaClose|..j];
    assert AllSpace(w);
    var tag := if OccursAt(line, DivClose, j) then DivClose else FootnotesDiv;
    assert end == j + |tag| && OccursAt(line, tag, j);
    assert line[e..end] == ParaClose + w + tag by {
      assert line[e..end] == line[e..e + |ParaClose|] + line[e + |ParaClose|..j] + line[j..end];
    }
    SliceEndsWith(line, a, e, end, ParaClose + w + tag);
  }

  /** A slice ends with any of its own tails. */
  lemma SliceEndsWith(line: string, a: nat, e: nat, end: nat, t: string)
    requires a <= e <= end <= |line| && line[e..end] == t
    ensures EndsWith(line[a..end], t)
  {
    assert line[a..end][|line[a..end]| - |t|..] == line[e..end];
  }

  /**
   * A passage match joins to everything from the heading up to the end of
   * its closing boundary, so it ends with that boundary.
   */
  lemma PassageMatchShape(line: string, s: nat)
    requires GreedyAt(line, s, PassageOpen, PassageCloser).Some?
    ensures EndsWithPassageBoundary(Joined(GreedyAt(line, s, PassageOpen, PassageCloser).value))
  {
    var m := GreedyAt(line, s, PassageOpen, PassageCloser).value;
    var e := GreedyGroupEnd(line, s, PassageOpen, PassageCloser).value;
    var a := s + |PassageOpen|;
    var end := CloserEnd(line, e, PassageCloser).value;
    assert a <= e <= end <= |line| && m.groups == [line[a..e], line[e..end]];
    JoinedPair(m, line, a, e, end);
    PassageCloserEnds(line, a, e);
  }

  /** A match whose two groups are neighbouring slices joins to their union. */
  lemma JoinedPair(m: Match, line: string, a: nat, e: nat, end: nat)
    requires a <= e <= end <= |line|
    requires m.groups == [line[a..e], line[e..end]]
    ensures Joined(m) == line[a..end]
  {
    ConcatSmall(m.groups);
    assert line[a..e] + line[e..end] == line[a..end];
  }

  /**
   * Every captured passage ends with one of the two closing boundaries of
   * MATCH_PASSAGE_RE, because the closer is the pattern's second group.
   */
  lemma PassageCaptureShape(line: string)
    ensures forall i :: 0 <= i < |Captures(PassagePattern, line)| ==> EndsWithPassageBoundary(Captures(PassagePattern, line)[i])
  {
    var ms := Scan(PassagePattern, line, 0);
    forall i | 0 <= i < |ms|
      ensures EndsWithPassageBoundary(Captures(PassagePattern, line)[i])
    {
      ScanMatchAt(PassagePattern, line, 0, i);
      assert MatchAt(PassagePattern, line, ms[i].start) == GreedyAt(line, ms[i].start, PassageOpen, PassageCloser);
      PassageMatchShape(line, ms[i].start);
    }
  }

  /** A string ending with a boundary ends with its last tag, so it is not empty. */
  lemma BoundaryEndsWithTag(v: string, tag: string)
    requires EndsWithBoundary(v, tag)
    ensures EndsWith(v, tag)
  {
    var w: string :| AllSpace(w) && EndsWith(v, ParaClose + w + tag);
    var t := ParaClose + w + tag;
    assert v[|v| - |tag|..] == t[|t| - |tag|..];
  }

  /** Every captured footnote is its label, one space and its text: `m.join` of the three groups. */
  lemma FootnoteCaptureShape(line: string)
    ensures forall i :: 0 <= i < |Scan(FootnotePattern, line, 0)| ==>
      var m := Scan(FootnotePattern, line, 0)[i];
      |m.groups| == 3 && m.groups[1] == " " && Captures(FootnotePattern, line)[i] == m.groups[0] + " " + m.groups[2]
  {
    var ms := Scan(FootnotePattern, line, 0);
    forall i | 0 <= i < |ms|
      ensures |ms[i].groups| == 3 && ms[i].groups[1] == " "
      ensures Captures(FootnotePattern, line)[i] == ms[i].groups[0] + " " + ms[i].groups[2]
    {
      var m := ms[i];
      assert FootnoteAt(line, m.start) == Some(m) by {
        ScanMatchAt(FootnotePattern, line, 0, i);
      }
      JoinedTriple(m);
    }
  }

  /** `m.join` of three groups is their concatenation. */
  lemma JoinedTriple(m: Match)
    requires |m.groups| == 3
    ensures Joined(m) == m.groups[0] + m.groups[1] + m.groups[2]
  {
    ConcatSmall(m.groups);
  }
}
