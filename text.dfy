/**
 * String operations that bg2md.rb takes from Ruby's String class:
 * substring search, `lstrip`, `chomp`, `delete_prefix`, the leading
 * whitespace run, and `gsub` with a String (hence literal) pattern.
 */
module Text {
  import opened Wrappers

  /** `p` occurs in `s` starting at index `i`. */
  predicate OccursAt(s: string, p: string, i: nat)
  {
    i + |p| <= |s| && s[i..i + |p|] == p
  }

  /** `p` occurs somewhere in `s` (the unanchored `s =~ /p/` for a literal `p`). */
  predicate Contains(s: string, p: string)
  {
    exists i: nat | i <= |s| - |p| :: OccursAt(s, p, i)
  }

  predicate EndsWith(s: string, p: string)
  {
    |p| <= |s| && s[|s| - |p|..] == p
  }

  /** The first occurrence of `p` in `s` at or after `from`. */
  function FindFrom(s: string, p: string, from: nat): (r: Option<nat>)
    decreases |s| - from
    ensures r.Some? ==> from <= r.value && OccursAt(s, p, r.value)
    ensures r.Some? ==> forall j: nat :: from <= j < r.value ==> !OccursAt(s, p, j)
    ensures r.None? ==> forall j: nat :: from <= j ==> !OccursAt(s, p, j)
  {
    if from + |p| > |s| then None
    else if OccursAt(s, p, from) then Some(from)
    else FindFrom(s, p, from + 1)
  }

  lemma FindFromContains(s: string, p: string)
    ensures FindFrom(s, p, 0).Some? <==> Contains(s, p)
  {
    if FindFrom(s, p, 0).Some? {
      var i := FindFrom(s, p, 0).value;
      assert OccursAt(s, p, i);
    }
  }

  /**
   * The end of the text line that contains index `i`: the first newline
   * at or after `i`, or the end of `s`. A regex `.` never crosses it.
   */
  function LineEnd(s: string, i: nat): (r: nat)
    requires i <= |s|
    decreases |s| - i
    ensures i <= r <= |s|
    ensures r < |s| ==> s[r] == '\n'
    ensures forall j :: i <= j < r ==> s[j] != '\n'
  {
    if i == |s| || s[i] == '\n' then i else LineEnd(s, i + 1)
  }

  /** Every index between `i` and the end of its line has the same line end. */
  lemma {:induction false} LineEndWithin(s: string, i: nat, j: nat)
    requires i <= |s| && i <= j <= LineEnd(s, i)
    ensures LineEnd(s, j) == LineEnd(s, i)
    decreases |s| - i
  {
    if i < j {
      assert s[i] != '\n';
      LineEndWithin(s, i + 1, j);
    }
  }

  /** Ruby's `\s`: space, tab, line feed, vertical tab, form feed, carriage return. */
  predicate IsSpace(c: char)
  {
    c == ' ' || c == '\t' || c == '\n' || c == '\U{B}' || c == '\U{C}' || c == '\r'
  }

  /** Every character of `w` is `\s`. */
  predicate AllSpace(w: string)
  {
    forall k :: 0 <= k < |w| ==> IsSpace(w[k])
  }

  /** The characters Ruby's `lstrip` removes: `\s` and NUL. */
  predicate IsStripSpace(c: char)
  {
    c == '\0' || IsSpace(c)
  }

  /** The end of the run of `\s` characters that starts at `i`. */
  function SpaceRunEnd(s: string, i: nat): (r: nat)
    requires i <= |s|
    decreases |s| - i
    ensures i <= r <= |s|
    ensures forall j :: i <= j < r ==> IsSpace(s[j])
    ensures r < |s| ==> !IsSpace(s[r])
  {
    if i == |s| || !IsSpace(s[i]) then i else SpaceRunEnd(s, i + 1)
  }

  /**
   * The leading whitespace of a line: what `line.scan(/^(\s*)/)` captures
   * on a line whose only newline, if any, is its last character.
   */
  function LeadingSpace(s: string): (r: string)
    ensures |r| <= |s| && r == s[..|r|]
    ensures forall j :: 0 <= j < |r| ==> IsSpace(r[j])
    ensures |r| < |s| ==> !IsSpace(s[|r|])
  {
    s[..SpaceRunEnd(s, 0)]
  }

  /** Ruby's `lstrip`. */
  function LStrip(s: string): string
  {
    if |s| > 0 && IsStripSpace(s[0]) then LStrip(s[1..]) else s
  }

  /** `lstrip` removes exactly the leading run of whitespace and NUL characters. */
  lemma {:induction false} LStripShape(s: string)
    ensures |LStrip(s)| <= |s| && LStrip(s) == s[|s| - |LStrip(s)|..]
    ensures forall j :: 0 <= j < |s| - |LStrip(s)| ==> IsStripSpace(s[j])
    ensures LStrip(s) != [] ==> !IsStripSpace(LStrip(s)[0])
    decreases |s|
  {
    if |s| > 0 && IsStripSpace(s[0]) {
      LStripShape(s[1..]);
      var r := LStrip(s[1..]);
      assert s[1..][|s| - 1 - |r|..] == s[|s| - |r|..];
      forall j | 0 <= j < |s| - |r|
        ensures IsStripSpace(s[j])
      {
        if j > 0 {
          assert s[j] == s[1..][j - 1];
        }
      }
    }
  }

  /** Stripping a string with something left of it is unaffected by what follows it. */
  lemma {:induction false} LStripAppend(s: string, x: string)
    requires LStrip(s) != ""
    ensures LStrip(s + x) == LStrip(s) + x
    decreases |s|
  {
    if IsStripSpace(s[0]) {
      assert (s + x)[1..] == s[1..] + x;
      LStripAppend(s[1..], x);
    }
  }

  /** Appending text keeps every occurrence. */
  lemma ContainsAppend(s: string, x: string, p: string)
    requires Contains(s, p)
    ensures Contains(s + x, p)
  {
    var i: nat :| i <= |s| - |p| && OccursAt(s, p, i);
    assert (s + x)[i..i + |p|] == s[i..i + |p|];
    assert OccursAt(s + x, p, i);
  }

  /** Ruby's `delete_prefix`: drops `p` from the front of `s` only when it is there. */
  function DeletePrefix(s: string, p: string): (r: string)
    ensures OccursAt(s, p, 0) ==> p + r == s
    ensures !OccursAt(s, p, 0) ==> r == s
  {
    if OccursAt(s, p, 0) then s[|p|..] else s
  }

  /** Ruby's argument-less `chomp`: drops one trailing "\r\n", "\n" or "\r". */
  function Chomp(s: string): (r: string)
    ensures EndsWith(s, "\r\n") ==> r + "\r\n" == s
    ensures !EndsWith(s, "\r\n") && EndsWith(s, "\n") ==> r + "\n" == s
    ensures !EndsWith(s, "\r\n") && EndsWith(s, "\r") ==> r + "\r" == s
    ensures !EndsWith(s, "\n") && !EndsWith(s, "\r") ==> r == s
  {
    if EndsWith(s, "\r\n") then s[..|s| - 2]
    else if EndsWith(s, "\n") || EndsWith(s, "\r") then s[..|s| - 1]
    else s
  }

  /** `parts` glued together with `sep` between neighbours. */
  function Join(parts: seq<string>, sep: string): string
    requires |parts| >= 1
  {
    if |parts| == 1 then parts[0] else parts[0] + sep + Join(parts[1..], sep)
  }

  lemma {:induction false} JoinSnoc(parts: seq<string>, x: string, sep: string)
    requires |parts| >= 1
    ensures Join(parts + [x], sep) == Join(parts, sep) + sep + x
    decreases |parts|
  {
    if |parts| > 1 {
      assert (parts + [x])[1..] == parts[1..] + [x];
      JoinSnoc(parts[1..], x, sep);
    }
  }

  /** Joining is unchanged when the last part is extended instead of a new part added. */
  lemma JoinExtendLast(parts: seq<string>, y: string, sep: string)
    requires |parts| >= 1
    ensures Join(parts[..|parts| - 1] + [parts[|parts| - 1] + y], sep) == Join(parts, sep) + y
  {
    var n := |parts|;
    if n == 1 {
      assert parts[..0] + [parts[0] + y] == [parts[0] + y];
    } else {
      JoinSnoc(parts[..n - 1], parts[n - 1] + y, sep);
      JoinSnoc(parts[..n - 1], parts[n - 1], sep);
      assert parts[..n - 1] + [parts[n - 1]] == parts;
    }
  }

  /** `c` joined in front of the first part comes out in front of the join. */
  lemma JoinPrepend(c: string, t: seq<string>, sep: string)
    requires |t| >= 1
    ensures Join([c + t[0]] + t[1..], sep) == c + Join(t, sep)
  {
    if |t| > 1 {
      assert ([c + t[0]] + t[1..])[1..] == t[1..];
    }
  }

  /**
   * The pieces of `s` between the leftmost non-overlapping occurrences of
   * `pat`, scanning left to right.
   */
  function Split(s: string, pat: string): (r: seq<string>)
    requires |pat| > 0
    decreases |s|
    ensures |r| >= 1
  {
    if |s| == 0 then [""]
    else if OccursAt(s, pat, 0) then [""] + Split(s[|pat|..], pat)
    else
      var t := Split(s[1..], pat);
      [[s[0]] + t[0]] + t[1..]
  }

  /**
   * `String#gsub(pat, rep)` with a non-empty String pattern: every leftmost
   * non-overlapping literal occurrence of `pat` is replaced by `rep`.
   */
  function ReplaceAll(s: string, pat: string, rep: string): string
    requires |pat| > 0
    decreases |s|
  {
    if |s| == 0 then ""
    else if OccursAt(s, pat, 0) then rep + ReplaceAll(s[|pat|..], pat, rep)
    else [s[0]] + ReplaceAll(s[1..], pat, rep)
  }

  /** Splitting at `pat` and joining with `pat` gives back the text: nothing but the occurrences is cut. */
  lemma {:induction false} SplitJoin(s: string, pat: string)
    requires |pat| > 0
    ensures Join(Split(s, pat), pat) == s
    decreases |s|
  {
    if |s| == 0 {
    } else if OccursAt(s, pat, 0) {
      var t := Split(s[|pat|..], pat);
      var pieces := [""] + t;
      assert Split(s, pat) == pieces;
      calc {
        Join(pieces, pat);
        { assert pieces[0] == "" && pieces[1..] == t; assert "" + pat == pat; }
        pat + Join(t, pat);
        { SplitJoin(s[|pat|..], pat); }
        pat + s[|pat|..];
        s;
      }
    } else {
      var t := Split(s[1..], pat);
      var pieces := [[s[0]] + t[0]] + t[1..];
      assert Split(s, pat) == pieces;
      calc {
        Join(pieces, pat);
        { JoinPrepend([s[0]], t, pat); }
        [s[0]] + Join(t, pat);
        { SplitJoin(s[1..], pat); }
        [s[0]] + s[1..];
        s;
      }
    }
  }

  /** Replacing is joining the same pieces with `rep`: every character outside an occurrence is kept. */
  lemma {:induction false} ReplaceAllJoinsPieces(s: string, pat: string, rep: string)
    requires |pat| > 0
    ensures ReplaceAll(s, pat, rep) == Join(Split(s, pat), rep)
    decreases |s|
  {
    if |s| == 0 {
    } else if OccursAt(s, pat, 0) {
      var t := Split(s[|pat|..], pat);
      var pieces := [""] + t;
      assert Split(s, pat) == pieces;
      calc {
        ReplaceAll(s, pat, rep);
        rep + ReplaceAll(s[|pat|..], pat, rep);
        { ReplaceAllJoinsPieces(s[|pat|..], pat, rep); }
        rep + Join(t, rep);
        { assert pieces[0] == "" && pieces[1..] == t; assert "" + rep == rep; }
        Join(pieces, rep);
      }
    } else {
      var t := Split(s[1..], pat);
      var pieces := [[s[0]] + t[0]] + t[1..];
      assert Split(s, pat) == pieces;
      calc {
        ReplaceAll(s, pat, rep);
        [s[0]] + ReplaceAll(s[1..], pat, rep);
        { ReplaceAllJoinsPieces(s[1..], pat, rep); }
        [s[0]] + Join(t, rep);
        { JoinPrepend([s[0]], t, rep); }
        Join(pieces, rep);
      }
    }
  }

  /** No piece of the split contains `pat`: every occurrence was cut out. */
  lemma {:induction false} SplitPiecesFree(s: string, pat: string)
    requires |pat| > 0
    ensures forall k: nat, j: nat :: k < |Split(s, pat)| ==> !OccursAt(Split(s, pat)[k], pat, j)
    ensures |Split(s, pat)[0]| <= |s| && Split(s, pat)[0] == s[..|Split(s, pat)[0]|]
    decreases |s|
  {
    if |s| == 0 {
    } else if OccursAt(s, pat, 0) {
      SplitPiecesFree(s[|pat|..], pat);
      var t := Split(s[|pat|..], pat);
      assert Split(s, pat) == [""] + t;
      forall k: nat, j: nat | k < |Split(s, pat)|
        ensures !OccursAt(Split(s, pat)[k], pat, j)
      {
        if k > 0 {
          assert Split(s, pat)[k] == t[k - 1];
        }
      }
    } else {
      SplitPiecesFree(s[1..], pat);
      var t := Split(s[1..], pat);
      var q := [s[0]] + t[0];
      assert Split(s, pat) == [q] + t[1..];
      assert q == s[..|q|];
      forall k: nat, j: nat | k < |Split(s, pat)|
        ensures !OccursAt(Split(s, pat)[k], pat, j)
      {
        if k > 0 {
          assert Split(s, pat)[k] == t[k];
        } else if j == 0 {
          assert |pat| <= |q| ==> q[..|pat|] == s[..|pat|];
        } else {
          assert j + |pat| <= |q| ==> q[j..j + |pat|] == t[0][j - 1..j - 1 + |pat|];
          assert !OccursAt(t[0], pat, j - 1);
        }
      }
    }
  }

  lemma OccursShift(s: string, p: string, j: nat)
    requires |s| > 0
    ensures OccursAt(s, p, j + 1) <==> OccursAt(s[1..], p, j)
  {
    if j + 1 + |p| <= |s| {
      assert s[j + 1..j + 1 + |p|] == s[1..][j..j + |p|];
    }
  }

  /** Searching `s` from `j + 1` is searching its tail from `j`, one index further on. */
  lemma {:induction false} FindFromShift(s: string, p: string, j: nat)
    requires |s| > 0
    ensures FindFrom(s, p, j + 1).Some? == FindFrom(s[1..], p, j).Some?
    ensures FindFrom(s, p, j + 1).Some? ==> FindFrom(s, p, j + 1).value == FindFrom(s[1..], p, j).value + 1
    decreases |s| - j
  {
    OccursShift(s, p, j);
    if j + 1 + |p| > |s| || OccursAt(s, p, j + 1) {
    } else {
      FindFromShift(s, p, j + 1);
    }
  }

  /** With no occurrence of the pattern, `gsub` returns the text unchanged. */
  lemma {:induction false} ReplaceAllAbsent(s: string, pat: string, rep: string)
    requires |pat| > 0
    requires FindFrom(s, pat, 0).None?
    ensures ReplaceAll(s, pat, rep) == s
    decreases |s|
  {
    if |s| > 0 {
      assert !OccursAt(s, pat, 0);
      FindFromShift(s, pat, 0);
      ReplaceAllAbsent(s[1..], pat, rep);
      assert [s[0]] + s[1..] == s;
    }
  }

  /**
   * The reference reading of `gsub` with a literal pattern: find the first
   * occurrence, replace it, and carry on after it.
   */
  lemma ReplaceAllFirstOccurrence(s: string, pat: string, rep: string)
    requires |pat| > 0
    requires FindFrom(s, pat, 0).Some?
    ensures ReplaceAll(s, pat, rep)
         == s[..FindFrom(s, pat, 0).value] + rep + ReplaceAll(s[FindFrom(s, pat, 0).value + |pat|..], pat, rep)
  {
    ReplaceAllAt(s, pat, rep, FindFrom(s, pat, 0).value);
  }

  /** The same, for an occurrence at `i` with none before it. */
  lemma {:induction false} ReplaceAllAt(s: string, pat: string, rep: string, i: nat)
    requires |pat| > 0
    requires OccursAt(s, pat, i)
    requires forall j: nat :: j < i ==> !OccursAt(s, pat, j)
    ensures ReplaceAll(s, pat, rep) == s[..i] + rep + ReplaceAll(s[i + |pat|..], pat, rep)
    decreases i
  {
    if i == 0 {
      assert s[..0] + rep == rep;
    } else {
      var t := s[1..];
      assert OccursAt(t, pat, i - 1) by { OccursShift(s, pat, i - 1); }
      forall j: nat | j < i - 1 ensures !OccursAt(t, pat, j) {
        OccursShift(s, pat, j);
      }
      ReplaceAllAt(t, pat, rep, i - 1);
      assert !OccursAt(s, pat, 0);
      ReplaceAllAtStep(s, pat, rep, i);
    }
  }

  /** The step of ReplaceAllAt: a first character that starts no occurrence is copied in front. */
  lemma ReplaceAllAtStep(s: string, pat: string, rep: string, i: nat)
    requires |pat| > 0 && 0 < i && i + |pat| <= |s| && !OccursAt(s, pat, 0)
    requires ReplaceAll(s[1..], pat, rep) == s[1..][..i - 1] + rep + ReplaceAll(s[1..][i - 1 + |pat|..], pat, rep)
    ensures ReplaceAll(s, pat, rep) == s[..i] + rep + ReplaceAll(s[i + |pat|..], pat, rep)
  {
    var t := s[1..];
    assert t[i - 1 + |pat|..] == s[i + |pat|..];
    var rest := ReplaceAll(s[i + |pat|..], pat, rep);
    calc {
      ReplaceAll(s, pat, rep);
      { ReplaceAllSkip(s, pat, rep); }
      [s[0]] + ReplaceAll(t, pat, rep);
      [s[0]] + (t[..i - 1] + rep + rest);
      { Regroup(s, i, rep, rest); }
      s[..i] + rep + rest;
    }
  }

  /** The first character put back in front of the next `i - 1` gives the first `i`. */
  lemma Regroup(s: string, i: nat, x: string, y: string)
    requires 0 < i <= |s|
    ensures [s[0]] + (s[1..][..i - 1] + x + y) == s[..i] + x + y
  {
    var p := s[1..][..i - 1];
    assert [s[0]] + p == s[..i];
    assert [s[0]] + (p + x + y) == ([s[0]] + p) + x + y;
  }

  /** Where `pat` does not start the text, its first character is copied. */
  lemma ReplaceAllSkip(s: string, pat: string, rep: string)
    requires |pat| > 0 && |s| > 0 && !OccursAt(s, pat, 0)
    ensures ReplaceAll(s, pat, rep) == [s[0]] + ReplaceAll(s[1..], pat, rep)
  {
  }

  /** A character in neither the text nor the replacement is not in the result. */
  lemma {:induction false} ReplaceAllKeepsAbsent(s: string, pat: string, rep: string, c: char)
    requires |pat| > 0
    requires c !in s && c !in rep
    ensures c !in ReplaceAll(s, pat, rep)
    decreases |s|
  {
    if |s| == 0 {
    } else if OccursAt(s, pat, 0) {
      ReplaceAllKeepsAbsent(s[|pat|..], pat, rep, c);
    } else {
      ReplaceAllKeepsAbsent(s[1..], pat, rep, c);
    }
  }

  /**
   * A pattern that holds a character the text lacks never matches, so the
   * replacement changes nothing. This is why the regex-looking String
   * patterns of bg2md.rb (`'<a .*?>'`, `'\d+'`) are inert on ordinary markup.
   */
  lemma {:induction false} ReplaceAllInert(s: string, pat: string, rep: string, c: char)
    requires |pat| > 0
    requires c in pat && c !in s
    ensures ReplaceAll(s, pat, rep) == s
    decreases |s|
  {
    if |s| == 0 {
    } else {
      ReplaceAllInert(s[1..], pat, rep, c);
      assert [s[0]] + s[1..] == s;
    }
  }

  /**
   * `String#gsub('', rep)`: the empty pattern matches at every position,
   * so `rep` is inserted before every character and once more at the end.
   */
  function InsertEverywhere(s: string, rep: string): string
    decreases |s|
  {
    if |s| == 0 then rep else rep + [s[0]] + InsertEverywhere(s[1..], rep)
  }

  /** The characters at odd positions: undoes a one-character `InsertEverywhere`. */
  function OddPositions(t: string): string
    decreases |t|
  {
    if |t| < 2 then "" else [t[1]] + OddPositions(t[2..])
  }

  /** Inserting one character everywhere doubles the text plus one, puts it at every even index, and the odd indices give the text back. */
  lemma {:induction false} InsertEverywhereShape(s: string, c: char)
    ensures |InsertEverywhere(s, [c])| == 2 * |s| + 1
    ensures forall i :: 0 <= i < |InsertEverywhere(s, [c])| && i % 2 == 0 ==> InsertEverywhere(s, [c])[i] == c
    ensures OddPositions(InsertEverywhere(s, [c])) == s
    decreases |s|
  {
    if |s| > 0 {
      InsertEverywhereShape(s[1..], c);
      var r := InsertEverywhere(s, [c]);
      var t := InsertEverywhere(s[1..], [c]);
      assert r == [c, s[0]] + t;
      assert r[2..] == t;
      forall i | 0 <= i < |r| && i % 2 == 0 ensures r[i] == c {
        if i >= 2 {
          assert r[i] == t[i - 2];
        }
      }
      assert s == [s[0]] + s[1..];
    }
  }

  /** A character in neither the text nor the inserted string is not in the result. */
  lemma {:induction false} InsertEverywhereKeepsAbsent(s: string, rep: string, c: char)
    requires c !in s && c !in rep
    ensures c !in InsertEverywhere(s, rep)
    decreases |s|
  {
    if |s| > 0 {
      assert c !in s[1..] by {
        assert forall k :: 0 <= k < |s[1..]| ==> s[1..][k] == s[k + 1];
      }
      InsertEverywhereKeepsAbsent(s[1..], rep, c);
    }
  }
}
