/**
 * Fragment isolation (bg2md.rb lines 131-153): the page's lines are
 * walked with an `in_interesting` flag that a line holding the passage
 * container's opening tag turns on and a line ending in `</table>` turns
 * off; each line read while the flag is on is kept with the start line's
 * indentation removed and its line break chomped, unless that leaves it
 * empty.
 */
module Isolate {
  import opened Text

  const StartMarker: string := "<div class=\"passage-text\">"
  const TableClose: string := "</table>"

  /** START_READ_CONTENT_RE matches: the line holds the passage container's opening tag. */
  predicate IsStart(line: string)
  {
    Contains(line, StartMarker)
  }

  /** END_READ_CONTENT_RE (`<\/table>$`) matches: `</table>` right before a newline or the end of the line. */
  predicate IsEnd(line: string)
  {
    exists i: nat | i <= |line| - |TableClose| ::
      OccursAt(line, TableClose, i) && (i + |TableClose| == |line| || line[i + |TableClose|] == '\n')
  }

  /** The loop's state between lines: `in_interesting` and `indent_spaces`. */
  datatype ScanState = ScanState(inside: bool, indent: string)

  /** One line's effect on the state: the start check first, then the end check. */
  function Step(st: ScanState, line: string): ScanState
  {
    var st' := if IsStart(line) then ScanState(true, LeadingSpace(line)) else st;
    if IsEnd(line) then st'.(inside := false) else st'
  }

  /** The state once the checks of every line of `page` have run. */
  function StateAfter(page: seq<string>): ScanState
  {
    if |page| == 0 then ScanState(false, "")
    else Step(StateAfter(page[..|page| - 1]), page[|page| - 1])
  }

  /** `line.delete_prefix(indent_spaces).chomp` */
  function Trimmed(line: string, indent: string): string
  {
    Chomp(DeletePrefix(line, indent))
  }

  /** What the loop saves for one line, given the state after that line's checks. */
  function Kept(st: ScanState, line: string): seq<string>
  {
    if st.inside && Trimmed(line, st.indent) != "" then [Trimmed(line, st.indent)] else []
  }

  /** The fragment lines saved from `page`, in page order. */
  function Fragment(page: seq<string>): seq<string>
  {
    if |page| == 0 then []
    else Fragment(page[..|page| - 1]) + Kept(StateAfter(page), page[|page| - 1])
  }

  /** The isolation loop; `count` is `input_line_count`. */
  method IsolateFragment(page: seq<string>) returns (lines: seq<string>, count: nat)
    ensures lines == Fragment(page)
    ensures count == |lines|
  {
    lines := [];
    var n := 0;
    var indentSpaces := "";
    var inInteresting := false;
    for i := 0 to |page|
      invariant StateAfter(page[..i]) == ScanState(inInteresting, indentSpaces)
      invariant lines == Fragment(page[..i])
      invariant n == |lines|
    {
      var line := page[i];
      ghost var next := page[..i + 1];
      assert next[..i] == page[..i] && next[i] == line;
      assert StateAfter(next) == Step(StateAfter(page[..i]), line);
      assert Fragment(next) == Fragment(page[..i]) + Kept(StateAfter(next), line);
      if IsStart(line) {
        inInteresting := true;
        indentSpaces := LeadingSpace(line);
      }
      if IsEnd(line) {
        inInteresting := false;
      }
      if !inInteresting {
        continue;
      }
      var updatedLine := Chomp(DeletePrefix(line, indentSpaces));
      if updatedLine == "" {
        continue;
      }
      lines := lines + [updatedLine];
      n := n + 1;
    }
    assert page[..|page|] == page;
    count := n;
  }

  /** A start line at `j` that no end line at or after it has yet switched off. */
  ghost predicate OpenedAt(page: seq<string>, j: int)
  {
    0 <= j < |page| && IsStart(page[j]) && forall k :: j <= k < |page| ==> !IsEnd(page[k])
  }

  /**
   * The flag is on after a prefix exactly when some start line in it has
   * been followed by no end line, the start line itself included.
   */
  lemma {:induction false} InsideIff(page: seq<string>)
    ensures StateAfter(page).inside <==> exists j :: OpenedAt(page, j)
    decreases |page|
  {
    if |page| > 0 {
      var n := |page| - 1;
      var pre := page[..n];
      InsideIff(pre);
      var line := page[n];
      assert forall k :: 0 <= k < n ==> pre[k] == page[k];
      if IsEnd(line) {
        forall j ensures !OpenedAt(page, j) {
          if 0 <= j < |page| {
            assert j <= n < |page|;
          }
        }
      } else if IsStart(line) {
        assert OpenedAt(page, n);
      } else {
        if StateAfter(pre).inside {
          var j :| OpenedAt(pre, j);
          assert OpenedAt(page, j);
        }
        forall j | OpenedAt(page, j) ensures OpenedAt(pre, j) {
          assert j < n;
        }
      }
    }
  }

  /** The start line at `j` is the last one in `page`. */
  ghost predicate LastStartAt(page: seq<string>, j: int)
  {
    0 <= j < |page| && IsStart(page[j]) && forall k :: j < k < |page| ==> !IsStart(page[k])
  }

  /** The indentation in force is the leading whitespace of the last start line seen. */
  lemma {:induction false} IndentIsLastStart(page: seq<string>, j: nat)
    requires LastStartAt(page, j)
    ensures StateAfter(page).indent == LeadingSpace(page[j])
    decreases |page|
  {
    var n := |page| - 1;
    var pre := page[..n];
    if j < n {
      assert forall k :: 0 <= k < n ==> pre[k] == page[k];
      assert LastStartAt(pre, j);
      IndentIsLastStart(pre, j);
    }
  }

  /** Before any start line the indentation is empty and the flag is off. */
  lemma {:induction false} NothingBeforeStart(page: seq<string>)
    requires forall j :: 0 <= j < |page| ==> !IsStart(page[j])
    ensures StateAfter(page) == ScanState(false, "")
    decreases |page|
  {
    if |page| > 0 {
      var n := |page| - 1;
      assert forall k :: 0 <= k < n ==> page[..n][k] == page[k];
      NothingBeforeStart(page[..n]);
    }
  }

  /** With no start line anywhere, nothing is kept: the fragment is empty. */
  lemma {:induction false} NoStartNoFragment(page: seq<string>)
    requires forall j :: 0 <= j < |page| ==> !IsStart(page[j])
    ensures Fragment(page) == []
    decreases |page|
  {
    if |page| > 0 {
      var n := |page| - 1;
      assert forall k :: 0 <= k < n ==> page[..n][k] == page[k];
      NoStartNoFragment(page[..n]);
      NothingBeforeStart(page);
    }
  }

  /**
   * The last line read is kept exactly when it lies inside an opened
   * region and does not trim to ""; an end line is therefore never kept.
   */
  lemma LastKeptIff(page: seq<string>)
    requires |page| > 0
    ensures
      var st := StateAfter(page);
      var line := page[|page| - 1];
      Kept(st, line) != [] <==> (exists i :: OpenedAt(page, i)) && Trimmed(line, st.indent) != ""
    ensures IsEnd(page[|page| - 1]) ==> Kept(StateAfter(page), page[|page| - 1]) == []
  {
    InsideIff(page);
  }

  /** Every fragment line is non-empty. */
  lemma {:induction false} FragmentNonEmpty(page: seq<string>)
    ensures forall i :: 0 <= i < |Fragment(page)| ==> Fragment(page)[i] != ""
    decreases |page|
  {
    if |page| > 0 {
      FragmentNonEmpty(page[..|page| - 1]);
    }
  }

  /** Reading more lines only adds fragment lines at the end: kept lines stay in page order. */
  lemma {:induction false} FragmentGrows(page: seq<string>, i: nat)
    requires i <= |page|
    ensures Fragment(page[..i]) <= Fragment(page)
    decreases |page| - i
  {
    if i < |page| {
      FragmentGrows(page, i + 1);
      assert page[..i + 1][..i] == page[..i];
    } else {
      assert page[..i] == page;
    }
  }
}
