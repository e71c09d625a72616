# bg2md text pipeline in Dafny

bg2md.rb turns a BibleGateway passage page into a Markdown document. This
project models the text pipeline at the centre of that script, from the
page's lines to the printed document, and proves what each pass does.

The passes, one module each:

- **Isolate** (`isolate.dfy`, lines 131-153). The page's lines are walked
  with the `in_interesting` flag. A line holding
  `<div class="passage-text">` turns the flag on and records its leading
  whitespace. A line ending in `</table>` turns it off; the start check
  runs first. Each line read while the flag is on is kept with that
  indentation removed, when it is a prefix, and its line break chomped.
  Lines that come out empty are dropped. `IsolateFragment` is the loop.
- **Reflow** (`reflow.dfy`, lines 162-177). Fragment lines are merged
  into working lines. A line whose `lstrip` *contains* `<h1>`, `<ol>` or
  `<li ` starts a new working line, stored untrimmed. Any other line is
  appended to the current working line as `' ' + lstrip`.
  `ReflowLines` is the loop.
- **Patterns** (`patterns.dfy`, lines 54-65). Each fixed regular
  expression is matched by a dedicated function, with Ruby's semantics:
  - `.` never crosses a newline;
  - lazy `.*?` takes the shortest run and greedy `.*` the longest;
  - the leftmost start wins;
  - `scan` collects successive non-overlapping matches.

  The footnote pattern's three-part backtracking order is proved, not
  assumed.
- **Extract** (`extract.dfy`, lines 181-207). Each working line is
  scanned for the reference, version, passage, copyright and footnotes,
  each behind its `=~` guard.
  - The four single-valued fields are overwritten, so the last match on
    the last matching line wins.
  - Footnotes are appended in order and counted.
  - `m.join` glues *all* groups of a match, so the passage keeps its
    closing boundary and a footnote is label, space, text.
- **Rewrite** (`rewrite.dfy`, lines 217-260). These are the `gsub!`
  chains on the passage and on every footnote, with the footnote array
  updated in place.
  - Every pattern is a Ruby String, so it is replaced literally: `.*?`
    and `\d+` in those strings are plain characters. For example,
    `'<h2>.*?</h2>'` removes only that exact text, and with numbering off
    the verse-number tags stay.
  - The empty pattern of line 236 puts a space before every character and
    at the end.
  - The code is followed here, not the regex-like intent the comments
    suggest.
- **Document** (`document.dfy`, lines 263-275). This is the printed
  layout, one element per `puts`, with footnote definitions `[^k]: text`
  numbered from 1.
- **Pipeline** (`pipeline.dfy`) composes the passes. It also carries the
  empty-passage report of lines 210-212 as a flag.
- **Text** (`text.dfy`) holds the Ruby String operations the passes use:
  - `lstrip`, `chomp` and `delete_prefix`;
  - the `^(\s*)` capture;
  - literal `gsub` as split-and-join;
  - empty-pattern `gsub`.

When the fragment is empty, Ruby's `input_lines[0]` is `nil`. The
extraction guards `nil =~ ...` are then false, so every field stays empty.
The model represents this as one empty working line, which matches
nothing and yields the same result.

## Model

| member | source | states |
|---|---|---|
| Text.FindFrom | bg2md.rb:56-59 | the search behind `.*?close`: the first index at or after `from` where the text occurs, with no occurrence in between; None only when it occurs nowhere from `from` on |
| Text.IsSpace | bg2md.rb:60-61 | Ruby's `\s`: space, tab, line feed, vertical tab, form feed, carriage return |
| Text.IsStripSpace | bg2md.rb:169 | the characters `lstrip` removes: `\s` and NUL |
| Text.LStrip | bg2md.rb:169 | `lstrip`: drops characters from the front while they are `\s` or NUL |
| Text.FindFromContains | bg2md.rb:138 | the search from 0 succeeds exactly when the unanchored literal test `line =~ /text/` holds |
| Text.LineEnd | bg2md.rb:56-65 | regex `.` stops at a newline: the end of the line holding `i` is a newline or the end of the text, with no newline before it |
| Text.LineEndWithin | bg2md.rb:56-65 | every index up to a line's end has that same line end |
| Text.SpaceRunEnd | bg2md.rb:60-61 | the `\s*` run starting at `i`: all whitespace, and followed by a non-space or the end |
| Text.LeadingSpace | bg2md.rb:140 | what `scan(/^(\s*)/)` captures: a prefix of the line, all `\s`, followed by a non-space or the end |
| Text.LStripShape | bg2md.rb:169-173 | `lstrip` is a suffix that removes exactly the leading run of whitespace and NUL, leaving a non-space first character |
| Text.LStripAppend | bg2md.rb:169-173 | when `lstrip` leaves something, appending text after the line appends it after the stripped line |
| Text.DeletePrefix | bg2md.rb:147 | `delete_prefix` removes the indentation only when the line starts with it; otherwise the line is unchanged |
| Text.Chomp | bg2md.rb:147 | `chomp` drops exactly one trailing `\r\n`, `\n` or `\r`, and nothing else |
| Text.ReplaceAll | bg2md.rb:217-256 | `gsub` with a non-empty String pattern: scanning left to right, each occurrence is replaced and scanning resumes after it; other characters are copied |
| Text.InsertEverywhere | bg2md.rb:236 | `gsub` with the empty pattern: the replacement before every character and once at the end |
| Text.SplitJoin | bg2md.rb:217-256 | the pieces between the leftmost non-overlapping occurrences of a pattern, joined by the pattern, give back the text |
| Text.ReplaceAllJoinsPieces | bg2md.rb:217-256 | literal `gsub` puts the replacement between those same pieces: every character outside an occurrence is kept, in order |
| Text.SplitPiecesFree | bg2md.rb:217-256 | no piece contains the pattern, and the first piece is a prefix of the text |
| Text.ReplaceAllAbsent | bg2md.rb:217-256 | with no occurrence, `gsub` returns the text unchanged |
| Text.ReplaceAllFirstOccurrence | bg2md.rb:217-256 | reference reading of `gsub`: keep the text before the first occurrence, put the replacement, continue after the occurrence |
| Text.ReplaceAllAt | bg2md.rb:217-256 | the same for any occurrence with none before it |
| Text.ReplaceAllKeepsAbsent | bg2md.rb:217-256 | a character in neither the text nor the replacement is not in the result |
| Text.ReplaceAllInert | bg2md.rb:217-256 | a pattern holding a character the text lacks leaves the text unchanged |
| Text.InsertEverywhereShape | bg2md.rb:236 | `gsub('', c)` has length 2n+1, `c` at every even position, and the text at the odd positions |
| Text.InsertEverywhereKeepsAbsent | bg2md.rb:236 | `gsub('', rep)` brings in no character absent from text and replacement |
| Patterns.LazyGroupEndIsShortest | bg2md.rb:56-59 | the lazy group of `open(.*?)close` ends at the smallest end on the line that lets `close` follow, and fails only when there is none |
| Patterns.LazyAt | bg2md.rb:56-59 | a lazy match tried at `s` exists exactly when the lazy group has an end `k`; it starts at `s`, ends after the closing tag at `k`, and captures as its one group the text from the end of the opening tag to `k` |
| Patterns.CloserEnd | bg2md.rb:60-61 | a closing boundary at `e` (`</p>`, `</span></li>`, or `</p>\s*</div>` / `</p>\s*<div class="footnotes">`) ends after `e`, inside the line |
| Patterns.LastCloser | bg2md.rb:60-61 | the last index in a window where a closing boundary starts, none after it; None only when none starts in the window |
| Patterns.GreedyGroupEnd | bg2md.rb:61 | the greedy group ends after the opener, where a closing boundary starts |
| Patterns.GreedyGroupEndIsLongest | bg2md.rb:61 | the greedy `(.*)` ends at the largest end on the line that lets the closer match, and fails only when none does |
| Patterns.GreedyAt | bg2md.rb:61 | a greedy match tried at `s` exists exactly when the greedy group has an end `e`; it starts at `s`, ends where the closer at `e` ends, captures the text from the end of the opening tag to `e` as its first group, and has a second group only for the passage pattern |
| Patterns.FirstTail | bg2md.rb:63 | the first label end in a window after which `</a> <span class='footnote-text'>` and a later `</span></li>` fit; none fit before it |
| Patterns.FootnoteGt | bg2md.rb:63 | the `>` ending `title=.*?>`: after `title=`, on its line |
| Patterns.FootnoteParseAt | bg2md.rb:63 | the parse found at `s` satisfies the whole footnote pattern |
| Patterns.TailParseFits | bg2md.rb:63 | the first `>` and the first workable label end make a full parse with the last item closer |
| Patterns.FootnoteAt | bg2md.rb:63 | a footnote match starts at `s`, ends in the line, and has three groups, the middle one " " |
| Patterns.FootnoteFitsWindow | bg2md.rb:63 | any parse lies on the line of `title=`, after the first `>`, with a workable label end |
| Patterns.FootnoteAtIsFirstParse | bg2md.rb:63 | the footnote match exists exactly when some parse does; its groups are those of the parse with the least `>`, then the least label end, then the longest text |
| Patterns.FirstParseIsLeast | bg2md.rb:63 | no parse has an earlier `>`, nor, with the same `>`, an earlier label end |
| Patterns.FirstParseIsLongest | bg2md.rb:63 | with that `>` and label end, no parse has a longer text group |
| Patterns.MatchAt | bg2md.rb:56-65 | any of the fixed patterns tried at `s` starts at `s`, ends inside the line, and has the pattern's number of groups: two for the passage, three for a footnote, one otherwise |
| Patterns.FirstMatch | bg2md.rb:192-201 | the leftmost match lies at or after `from`, inside the line |
| Patterns.FirstMatchIsMatch | bg2md.rb:192-201 | the leftmost match is the pattern's match at its start index |
| Patterns.FirstMatchIsLeftmost | bg2md.rb:192-201 | no match starts from `from` on before the one found, nor anywhere from `from` on when none is found |
| Patterns.Scan | bg2md.rb:192-201 | `scan`'s matches lie in the line, in order, without overlap; there are some exactly when a first match exists |
| Patterns.ScanIsSuccessiveLeftmost | bg2md.rb:192-201 | each match of `scan` is the leftmost one at or after the end of the previous, and none follows the last |
| Patterns.ScanMatchAt | bg2md.rb:192-201 | every match `scan` collects is the pattern's match at its start |
| Patterns.Captures | bg2md.rb:192-202 | one `m.join` per match of `scan`, in order |
| Patterns.EndsWithPassageBoundary | bg2md.rb:61 | the closing group of MATCH_PASSAGE_RE ends the text: `</p>`, a run of `\s`, then `</div>` or `<div class="footnotes">` |
| Patterns.PassageCloserEnds | bg2md.rb:61 | text running to the end of a passage boundary ends with `</p>`, a run of `\s`, and `</div>` or `<div class="footnotes">` |
| Patterns.PassageMatchShape | bg2md.rb:61 | a passage match joins to text ending with `</p>`, a run of `\s`, and `</div>` or `<div class="footnotes">` |
| Patterns.PassageCaptureShape | bg2md.rb:196 | every captured passage ends with one of the two closing boundaries: `</p>`, a run of `\s`, then `</div>` or `<div class="footnotes">` |
| Patterns.FootnoteCaptureShape | bg2md.rb:201-202 | every footnote match has three groups, the middle one " ", and joins to label + " " + text |
| Isolate.IsolateFragment | bg2md.rb:131-153 | the loop saves exactly the fragment lines of the page, and `input_line_count` is their number |
| Isolate.IsStart | bg2md.rb:54 | START_READ_CONTENT_RE matches: the line contains `<div class="passage-text">` |
| Isolate.IsEnd | bg2md.rb:55 | END_READ_CONTENT_RE (`<\/table>$`) matches: `</table>` right before a newline or at the end of the line |
| Isolate.Step | bg2md.rb:138-142 | one line's checks: the start check sets the flag and the indentation, then the end check clears the flag |
| Isolate.Fragment | bg2md.rb:136-152 | the lines saved, in page order: each line read with the flag on, trimmed, unless it trims to "" |
| Isolate.InsideIff | bg2md.rb:135-143 | the flag is on after a line exactly when some start line at or before it is followed by no end line, itself included |
| Isolate.IndentIsLastStart | bg2md.rb:138-140 | the indentation removed is the leading whitespace of the last start line seen |
| Isolate.NothingBeforeStart | bg2md.rb:134-143 | before any start line the flag is off and the indentation empty |
| Isolate.NoStartNoFragment | bg2md.rb:135-143 | a page with no start line keeps no line |
| Isolate.LastKeptIff | bg2md.rb:142-150 | a line is kept exactly when an opened region covers it and it does not trim to ""; a line matching the end marker is never kept, even when it also matches the start marker |
| Isolate.FragmentNonEmpty | bg2md.rb:148 | no kept line is empty |
| Isolate.FragmentGrows | bg2md.rb:150-151 | reading more lines only appends: kept lines stay in page order |
| Reflow.Reflowed | bg2md.rb:162-177 | there is always at least one working line |
| Reflow.StartsBlock | bg2md.rb:169 | the test `line.lstrip =~ ...`: the stripped line contains `<h1>`, `<ol>` or `<li ` |
| Reflow.ReflowLines | bg2md.rb:162-177 | the loop builds exactly the reflowed working lines, and `working_line_count` is their number |
| Reflow.ReflowCount | bg2md.rb:163-177 | `working_line_count` is 1 plus the number of later fragment lines that start a block, and never exceeds the fragment's length |
| Reflow.ReflowHead | bg2md.rb:163 | working line 0 begins with fragment line 0, verbatim |
| Reflow.BlockExtend | bg2md.rb:169-173 | appending text to a line that starts a block leaves it starting a block |
| Reflow.ReflowBlocks | bg2md.rb:169-173 | every working line after the first starts a block |
| Reflow.ReflowFixed | bg2md.rb:166-176 | lines whose later members all start blocks are left unchanged by reflow |
| Reflow.ReflowIdempotent | bg2md.rb:162-177 | reflowing the working lines again changes nothing |
| Reflow.TidiedAt | bg2md.rb:169-173 | each fragment line after the first appears untrimmed if it starts a block and stripped otherwise |
| Reflow.ReflowKeepsText | bg2md.rb:162-177 | reflow loses no text: read with single spaces between lines, the working lines are the fragment lines with every non-block line after the first stripped |
| Extract.ExtractSpecStep | bg2md.rb:188-206 | reading one more working line absorbs its hits into the record |
| Extract.Guard | bg2md.rb:192-198 | the `=~` guard of a field: a first match of the field's pattern for reference, version and passage; the publisher block's opening tag for the copyright |
| Extract.Hits | bg2md.rb:192-198 | the values one line's guarded scan assigns to a field, in order |
| Extract.ExtractSpec | bg2md.rb:181-207 | the record after all working lines: each field the last hit of the last line with one, or ""; the footnotes of every line, in order |
| Extract.Absorb | bg2md.rb:189-205 | the record after one more line: each field overwritten by the line's last hit, footnotes appended |
| Extract.AssignEach | bg2md.rb:192-198 | `scan { field = m.join }` leaves the field at its last hit, or unchanged when there is none |
| Extract.ScanField | bg2md.rb:192-198 | one guarded field scan leaves the field at the line's last hit, or unchanged |
| Extract.AppendEach | bg2md.rb:201-204 | every hit is appended in order and `number_footnotes` stays the number of entries |
| Extract.ScanFootnotes | bg2md.rb:200-205 | the guarded footnote scan appends the line's footnotes in order and keeps the count equal to the entries |
| Extract.ScanLine | bg2md.rb:189-205 | one loop iteration absorbs the line into the record and keeps the count |
| Extract.ExtractFields | bg2md.rb:181-207 | the loop's record is the extraction of all working lines, and `number_footnotes` is the number of footnotes |
| Extract.LastMatchWins | bg2md.rb:192-198 | a field holds the last value of the last line that assigned it |
| Extract.NoMatchEmpty | bg2md.rb:181-184 | a field nothing is assigned to keeps its initial "" |
| Extract.LastOfIsAHit | bg2md.rb:181-198 | a field's value is "" or one of the values assigned to it |
| Extract.LastOfNonEmpty | bg2md.rb:181-198 | when no assigned value is "", a field is non-empty exactly when something was assigned |
| Extract.GuardRedundant | bg2md.rb:192-196 | for reference, version and passage the `=~` guard never suppresses a match |
| Extract.PassageFound | bg2md.rb:196 | the passage is empty exactly when no working line matches MATCH_PASSAGE_RE; otherwise it ends with `</p>`, a run of `\s`, and `</div>` or `<div class="footnotes">` |
| Extract.FootnotesInLineOrder | bg2md.rb:200-205 | footnotes of consecutive runs of lines come out in line order |
| Extract.BlankLineExtractsNothing | bg2md.rb:181-207 | an empty working line fills in no field and no footnote |
| Rewrite.RewritePassage | bg2md.rb:217-240 | the in-place `gsub!` calls on the passage apply the passage chain the options select, in call order |
| Rewrite.Gsub | bg2md.rb:217-256 | one `gsub!` with a String pattern: literal replacement, or insertion everywhere for the empty pattern |
| Rewrite.PassageRules | bg2md.rb:217-240 | the passage's `gsub!` calls in order as the numbering and footnotes options select them, with the line 234 step left out |
| Rewrite.FootnoteRules | bg2md.rb:247-256 | the eight `gsub!` calls on each footnote, in order |
| Rewrite.RewriteFootnote | bg2md.rb:247-256 | one footnote's `gsub!` calls apply the footnote chain in call order |
| Rewrite.RewrittenFootnotes | bg2md.rb:243-260 | rewriting keeps the number of footnotes |
| Rewrite.RewriteFootnotes | bg2md.rb:243-260 | the array is rewritten in place, entry by entry, keeping count and order |
| Rewrite.GsubInert | bg2md.rb:217-256 | a rule adds no character absent from text and replacement, and a pattern holding such a character changes nothing |
| Rewrite.ChainKeepsAbsent | bg2md.rb:217-256 | a chain whose replacements lack a character never brings it in |
| Rewrite.PassageRulesLiteral | bg2md.rb:217-240 | on markup without `?`, the `.*?` patterns at lines 217, 219 and 239 never fire; only the `</span>`, `&nbsp;`, verse-number, spacing and `</a>` rules take effect |
| Rewrite.VerseNumbersStay | bg2md.rb:228 | with numbering off, on markup without `?` or `\`, the literal `\d+` pattern never fires and only `</span>`, `&nbsp;` and `</a>` are rewritten |
| Rewrite.FootnoteRulesLiteral | bg2md.rb:247-256 | on footnotes without `?`, `<a .*?>` and `<span .*?>` never fire; only `<b>`, `</b>`, `<i>`, `</i>`, `</a>` and `</span>` are rewritten |
| Rewrite.SpaceOutShape | bg2md.rb:236 | the empty-pattern rule of the footnotes-off branch puts a space before every character and at the end, with the text at the odd positions |
| Rewrite.GsubLiteral | bg2md.rb:217-256 | a literal rule cuts the text at its pattern and glues the pieces with its replacement |
| Rewrite.EmptyPassage | bg2md.rb:210-240 | an empty passage stays empty, except that with footnotes off it becomes one space |
| Document.DigitsRoundTrip | bg2md.rb:270 | `#{i}` writes a canonical decimal string that reads back as `i` |
| Document.Digits | bg2md.rb:270 | `Integer#to_s` for a natural number: its decimal digits, most significant first |
| Document.DigitRunEnd | bg2md.rb:270 | reading a label back stops at the end of its run of digits: all digits before, a non-digit or the end after |
| Document.FootnoteLineRoundTrip | bg2md.rb:270 | `"[^#{i}]: #{ff}"` reads back as the number and the text |
| Document.NumberedFootnotes | bg2md.rb:267-272 | one definition per footnote |
| Document.WriteFootnotes | bg2md.rb:267-272 | the loop writes the footnote definitions, its counter numbering them from 1 in array order |
| Document.Heading | bg2md.rb:263 | `"# Passage: #{full_ref} (#{version})"` |
| Document.Written | bg2md.rb:263-275 | the lines the final `puts` calls print, one element per call |
| Document.WrittenLayout | bg2md.rb:263-275 | heading, blank, passage, blank, then each footnote as a definition reading back as (k+1, footnote k), a blank, and the copyright last when wanted |
| Pipeline.Emit | bg2md.rb:210-275 | the empty-passage flag, the rewriting, the footnote array and the `puts` calls produce the document of the record |
| Pipeline.Emitted | bg2md.rb:210-275 | the outcome once the record is known: passage and footnotes rewritten, the document written, the passage reported missing when empty |
| Pipeline.Output | bg2md.rb:131-275 | the outcome of converting a page: isolate, reflow, extract, then emit |
| Pipeline.Convert | bg2md.rb:131-275 | the script from page lines to document produces the modelled outcome |
| Pipeline.OutputLayout | bg2md.rb:210-275 | the passage is reported missing exactly when it is empty; the document is the heading, a blank line, the rewritten passage, a blank line, then the rewritten footnotes numbered from 1 only when there are some and they are wanted, then a blank line; it ends with the copyright when that is wanted and with a blank line otherwise |
| Pipeline.NoContainerOutput | bg2md.rb:131-275 | a page without the passage container reports the passage missing and prints a heading with no reference or version (`# Passage:  ()`), an empty passage (one space with footnotes off), no footnotes and an empty copyright |
| Pipeline.EmptyRecordOutput | bg2md.rb:210-275 | the document printed when every field is empty |

## Left out

- Option parsing and argument handling (lines 72-113): the options that
  matter are a parameter (`Pipeline.Options`). The `headers` and
  `verbose` options change nothing in the text, and `version` only
  shapes the URL, so none of the three is modelled.
- URL construction, `printf`, `Net::HTTP.get` and `File.open` (lines
  114-131): the page is given as its sequence of lines. The
  `TEST_FILE.nil?` branch, which would leave `input_lines` a String, is
  not modelled.
- Console logging: the verbose `puts`, `colorize`, and the stray
  `puts passage` at line 231.
- The error message of lines 210-212 is printed only and execution goes
  on. The model carries it as the `passageMissing` flag.
- The footnotes-on passage step at line 234 is not a well-formed Ruby
  statement: its quoting closes the literal early. That step is modelled
  as changing nothing.
- Character encoding: strings are sequences of characters. Ruby's `\s`
  and the `lstrip` set are fixed character classes (`Text.IsSpace`,
  `Text.IsStripSpace`).
- The page is read as physical lines, each holding a line break only at
  its end, as `each_line` yields them. The `^(\s*)` capture is modelled
  for such lines.
- Each `puts` is one element of the document. A `puts` of text that
  itself holds line breaks is not split into several lines.
