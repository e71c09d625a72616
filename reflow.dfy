/**
 * Line reflow (bg2md.rb lines 162-177): the fragment's lines are joined
 * into working lines. A line whose stripped text holds `<h1>`, `<ol>` or
 * `<li ` begins a new working line; any other line is stripped of its
 * leading whitespace and appended, after one space, to the working line
 * being built. The first fragment line always begins the first working
 * line.
 */
module Reflow {
  import opened Text

  /** `line.lstrip =~ /(<h1>|<ol>|<li )/`: the line opens a heading, a list or a list item. */
  predicate StartsBlock(line: string)
  {
    var t := LStrip(line);
    Contains(t, "<h1>") || Contains(t, "<ol>") || Contains(t, "<li ")
  }

  /**
   * The working lines built from `frag`. An empty fragment leaves one
   * working line that holds nothing (Ruby's `nil`, which no later pattern
   * matches).
   */
  function Reflowed(frag: seq<string>): (r: seq<string>)
    ensures |r| >= 1
    decreases |frag|
  {
    if |frag| <= 1 then (if |frag| == 0 then [""] else frag)
    else
      var w := Reflowed(frag[..|frag| - 1]);
      var line := frag[|frag| - 1];
      if StartsBlock(line) then w + [line]
      else w[..|w| - 1] + [w[|w| - 1] + " " + LStrip(line)]
  }

  /** The reflow loop; `count` is `working_line_count`. */
  method ReflowLines(frag: seq<string>) returns (working: seq<string>, count: nat)
    ensures working == Reflowed(frag)
    ensures count == |working|
  {
    working := [if |frag| == 0 then "" else frag[0]];
    var w := 0;
    var n := 1;
    while n < |frag|
      invariant 1 <= n
      invariant |frag| > 0 ==> n <= |frag| && working == Reflowed(frag[..n])
      invariant |frag| == 0 ==> working == [""]
      invariant w == |working| - 1
    {
      var line := frag[n];
      ReflowStep(frag, n);
      if StartsBlock(line) {
        w := w + 1;
        working := working + [line];
      } else {
        var joined := working[w] + " " + LStrip(line);
        assert working[w := joined] == working[..w] + [joined];
        working := working[w := joined];
      }
      n := n + 1;
    }
    if |frag| > 0 {
      assert frag[..n] == frag;
    }
    count := w + 1;
  }

  /** One more fragment line either opens a new working line or extends the last one. */
  lemma ReflowStep(frag: seq<string>, n: nat)
    requires 1 <= n < |frag|
    ensures
      var w := Reflowed(frag[..n]);
      var line := frag[n];
      Reflowed(frag[..n + 1])
        == if StartsBlock(line) then w + [line] else w[..|w| - 1] + [w[|w| - 1] + " " + LStrip(line)]
  {
    var next := frag[..n + 1];
    assert next[..|next| - 1] == frag[..n] && next[|next| - 1] == frag[n];
  }

  /** The number of lines of `lines` that open a block. */
  function CountBlocks(lines: seq<string>): (r: nat)
    ensures r <= |lines|
  {
    if |lines| == 0 then 0
    else CountBlocks(lines[..|lines| - 1]) + (if StartsBlock(lines[|lines| - 1]) then 1 else 0)
  }

  /** One working line, plus one per later fragment line that opens a block. */
  lemma {:induction false} ReflowCount(frag: seq<string>)
    requires |frag| >= 1
    ensures |Reflowed(frag)| == 1 + CountBlocks(frag[1..])
    ensures |Reflowed(frag)| <= |frag|
    decreases |frag|
  {
    if |frag| > 1 {
      var n := |frag| - 1;
      var pre := frag[..n];
      var line := frag[n];
      var b := if StartsBlock(line) then 1 else 0;
      assert |Reflowed(frag)| == |Reflowed(pre)| + b;
      assert CountBlocks(frag[1..]) == CountBlocks(pre[1..]) + b by {
        assert frag[1..][..n - 1] == pre[1..];
        assert frag[1..][n - 1] == line;
      }
      ReflowCount(pre);
    }
  }

  /** The first working line begins with the first fragment line, untouched. */
  lemma {:induction false} ReflowHead(frag: seq<string>)
    requires |frag| >= 1
    ensures frag[0] <= Reflowed(frag)[0]
    decreases |frag|
  {
    if |frag| > 1 {
      ReflowHead(frag[..|frag| - 1]);
    }
  }

  /** Text appended to a line that opens a block leaves it opening a block. */
  lemma BlockExtend(line: string, tail: string)
    requires StartsBlock(line)
    ensures StartsBlock(line + tail)
  {
    var t := LStrip(line);
    var p :| p in {"<h1>", "<ol>", "<li "} && Contains(t, p);
    LStripAppend(line, tail);
    ContainsAppend(t, tail, p);
  }

  /** Every working line after the first opens a block. */
  lemma {:induction false} ReflowBlocks(frag: seq<string>)
    ensures forall k :: 1 <= k < |Reflowed(frag)| ==> StartsBlock(Reflowed(frag)[k])
    decreases |frag|
  {
    if |frag| > 1 {
      var n := |frag| - 1;
      var w := Reflowed(frag[..n]);
      var line := frag[n];
      ReflowBlocks(frag[..n]);
      if StartsBlock(line) {
        assert Reflowed(frag) == w + [line];
      } else {
        var tail := " " + LStrip(line);
        assert Reflowed(frag) == w[..|w| - 1] + [w[|w| - 1] + tail] by {
          assert w[|w| - 1] + " " + LStrip(line) == w[|w| - 1] + tail;
        }
        if |w| > 1 {
          BlockExtend(w[|w| - 1], tail);
        }
      }
    }
  }

  /** Lines already shaped as working lines are left as they are. */
  lemma {:induction false} ReflowFixed(lines: seq<string>)
    requires |lines| >= 1
    requires forall k :: 1 <= k < |lines| ==> StartsBlock(lines[k])
    ensures Reflowed(lines) == lines
    decreases |lines|
  {
    if |lines| > 1 {
      var n := |lines| - 1;
      ReflowFixed(lines[..n]);
      assert lines[..n] + [lines[n]] == lines;
    }
  }

  /** Reflowing the working lines again changes nothing. */
  lemma ReflowIdempotent(frag: seq<string>)
    ensures Reflowed(Reflowed(frag)) == Reflowed(frag)
  {
    ReflowBlocks(frag);
    ReflowFixed(Reflowed(frag));
  }

  /** A fragment line as it appears in the working text: stripped unless it opens a block. */
  function Tidy(line: string): string
  {
    if StartsBlock(line) then line else LStrip(line)
  }

  /** The first line as it is, then every later line tidied. */
  function Tidied(frag: seq<string>): (r: seq<string>)
    requires |frag| >= 1
    ensures |r| == |frag|
    decreases |frag|
  {
    if |frag| == 1 then frag else Tidied(frag[..|frag| - 1]) + [Tidy(frag[|frag| - 1])]
  }

  /** Tidied keeps the first line and tidies each later one in place. */
  lemma {:induction false} TidiedAt(frag: seq<string>, i: nat)
    requires i < |frag|
    ensures Tidied(frag)[i] == if i == 0 then frag[0] else Tidy(frag[i])
    decreases |frag|
  {
    if |frag| > 1 {
      var n := |frag| - 1;
      assert Tidied(frag) == Tidied(frag[..n]) + [Tidy(frag[n])];
      if i < n {
        TidiedAt(frag[..n], i);
      }
    }
  }

  /**
   * Reflow loses no text: read with single spaces between lines, the
   * working lines are the fragment's lines with the leading whitespace of
   * every non-block line after the first removed.
   */
  lemma {:induction false} ReflowKeepsText(frag: seq<string>)
    requires |frag| >= 1
    ensures Join(Reflowed(frag), " ") == Join(Tidied(frag), " ")
    decreases |frag|
  {
    if |frag| > 1 {
      var n := |frag| - 1;
      var pre := frag[..n];
      var w := Reflowed(pre);
      var t := Tidied(pre);
      var line := frag[n];
      assert Join(Tidied(frag), " ") == Join(t, " ") + " " + Tidy(line) by {
        assert Tidied(frag) == t + [Tidy(line)];
        JoinSnoc(t, Tidy(line), " ");
      }
      assert Join(Reflowed(frag), " ") == Join(w, " ") + " " + Tidy(line) by {
        if StartsBlock(line) {
          assert Reflowed(frag) == w + [line];
          JoinSnoc(w, line, " ");
        } else {
          var tail := " " + LStrip(line);
          assert Reflowed(frag) == w[..|w| - 1] + [w[|w| - 1] + tail] by {
            assert w[|w| - 1] + " " + LStrip(line) == w[|w| - 1] + tail;
          }
          JoinExtendLast(w, tail, " ");
          assert Join(w, " ") + tail == Join(w, " ") + " " + LStrip(line);
        }
      }
      ReflowKeepsText(pre);
    }
  }
}
