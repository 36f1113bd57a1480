/** `_extract_terzine`: the scanner that cuts a generated canto into tercet windows.

    Every pattern the scanner searches for starts with `[^\n]+`, so its leftmost match starts
    at the start of a line: a match inside a line would also match from that line's start.
    The scanner is therefore modelled on `tmp.split("\n")`, the lines of the text still to be
    scanned, and a search is the first line index where the pattern's line shape holds. */
module Terzine {
  import opened Builtins

  /** `([^\n]+\n[^\n]+\n[^\n]+\n\n[^\n]+\n)` matches from line `j`: three verses, a blank line,
      a verse, and the newline after it. */
  predicate AlignedAt(ls: seq<string>, j: int)
  {
    0 <= j && j + 5 < |ls| &&
    ls[j] != "" && ls[j + 1] != "" && ls[j + 2] != "" && ls[j + 3] == "" && ls[j + 4] != ""
  }

  /** `[^\n]+\n([^\n]+\n\n[^\n]+\n[^\n]+\n[^\n]+)` matches from line `j`: two verses, a blank
      line and three verses, the last one up to the end of its line. */
  predicate OffsetAt(ls: seq<string>, j: int)
  {
    0 <= j && j + 5 < |ls| &&
    ls[j] != "" && ls[j + 1] != "" && ls[j + 2] == "" && ls[j + 3] != "" && ls[j + 4] != "" && ls[j + 5] != ""
  }

  /** `[^\n]+\n[^\n]+\n[^\n]+` matches from line `j`. */
  predicate ThreeAt(ls: seq<string>, j: int)
  {
    0 <= j && j + 3 <= |ls| && ls[j] != "" && ls[j + 1] != "" && ls[j + 2] != ""
  }

  /** `[^\n]+\n[^\n]+` matches from line `j`. */
  predicate TwoAt(ls: seq<string>, j: int)
  {
    0 <= j && j + 2 <= |ls| && ls[j] != "" && ls[j + 1] != ""
  }

  /** `pattern.search(tmp)`: the first line, from `j` on, where the pattern matches; -1 (no
      match) when there is none. */
  function Search(ls: seq<string>, at: (seq<string>, int) -> bool, j: nat): int
    decreases |ls| - j
  {
    if j >= |ls| then -1 else if at(ls, j) then j else Search(ls, at, j + 1)
  }

  /** The lines after a skip match of `len` verses from line `j`: the optional `(\n\n)` takes
      the blank line after them when another line follows it; otherwise the text left starts
      with the newline that ended the last skipped verse. */
  function Skip(ls: seq<string>, j: int, len: nat): (rest: seq<string>)
    requires 0 <= j && j + len <= |ls| && len >= 2
    ensures |rest| < |ls|
  {
    if j + len + 1 < |ls| && ls[j + len] == "" then ls[j + len + 1..] else [""] + ls[j + len..]
  }

  /** The text of an aligned match: five lines and the newline after the last. */
  function AlignedWindow(ls: seq<string>, j: int): string
    requires AlignedAt(ls, j)
  {
    Join(ls[j..j + 5], '\n') + "\n"
  }

  /** The text of an offset match, `group(0)`: six lines, no newline after the last. */
  function OffsetWindow(ls: seq<string>, j: int): string
    requires OffsetAt(ls, j)
  {
    Join(ls[j..j + 6], '\n')
  }

  /** The loop `while m:` over aligned matches: take the match, skip past the first three
      consecutive verses, search again. */
  function AlignedScan(ls: seq<string>): seq<string>
    decreases |ls|
  {
    var m := Search(ls, AlignedAt, 0);
    if m < 0 then []
    else
      SkipFound(ls, m);
      [AlignedWindow(ls, m)] + AlignedScan(Skip(ls, Search(ls, ThreeAt, 0), 3))
  }

  /** `_extract_terzine(text)`: aligned windows if there is one anywhere; otherwise at most one
      offset window followed by the aligned windows after it. */
  function Terzine(text: string): seq<string>
  {
    var ls := Split(text, '\n');
    if Search(ls, AlignedAt, 0) >= 0 then AlignedScan(ls)
    else
      var m := Search(ls, OffsetAt, 0);
      if m < 0 then []
      else
        SearchFinds(ls, OffsetAt, 0);
        SearchBefore(ls, TwoAt, 0, m);
        [OffsetWindow(ls, m)] + AlignedScan(Skip(ls, Search(ls, TwoAt, 0), 2))
  }

  /** `_extract_terzine`, step by step as the source does it. */
  method ExtractTerzine(text: string) returns (out: seq<string>)
    ensures out == Terzine(text)
  {
    var tmp := Split(text, '\n');
    out := [];
    var m := Search(tmp, AlignedAt, 0);
    if m >= 0 {
      out := AlignedLoop(tmp, out);
    } else {
      m := Search(tmp, OffsetAt, 0);
      if m >= 0 {
        SearchFinds(tmp, OffsetAt, 0);
        SearchBefore(tmp, TwoAt, 0, m);
        out := out + [OffsetWindow(tmp, m)];
        tmp := Skip(tmp, Search(tmp, TwoAt, 0), 2);
        out := AlignedLoop(tmp, out);
      }
    }
  }

  /** The `while m:` loop the source writes out in both branches: append each aligned match to
      `out` and skip past the first three consecutive verses. */
  method AlignedLoop(lines: seq<string>, start: seq<string>) returns (out: seq<string>)
    ensures out == start + AlignedScan(lines)
  {
    var tmp := lines;
    out := start;
    var m := Search(tmp, AlignedAt, 0);
    while m >= 0
      invariant m == Search(tmp, AlignedAt, 0)
      invariant out + AlignedScan(tmp) == start + AlignedScan(lines)
      decreases |tmp|
    {
      SkipFound(tmp, m);
      var window := AlignedWindow(tmp, m);
      var rest := Skip(tmp, Search(tmp, ThreeAt, 0), 3);
      assert AlignedScan(tmp) == [window] + AlignedScan(rest);
      assert out + AlignedScan(tmp) == (out + [window]) + AlignedScan(rest);
      out := out + [window];
      tmp := rest;
      m := Search(tmp, AlignedAt, 0);
    }
  }

  // ---------------------------------------------------------------------
  // Searching.

  /** A search returns the leftmost line where the pattern matches, or -1 when it matches on
      no line. */
  lemma {:induction false} SearchFinds(ls: seq<string>, at: (seq<string>, int) -> bool, j: nat)
    ensures Search(ls, at, j) == -1 || j <= Search(ls, at, j) < |ls|
    ensures Search(ls, at, j) >= 0 ==> at(ls, Search(ls, at, j))
    ensures forall k :: j <= k < |ls| && (Search(ls, at, j) < 0 || k < Search(ls, at, j)) ==> !at(ls, k)
    decreases |ls| - j
  {
    if j < |ls| && !at(ls, j) {
      SearchFinds(ls, at, j + 1);
    }
  }

  /** A pattern that matches at line `k` is found at `k` or before. */
  lemma {:induction false} SearchBefore(ls: seq<string>, at: (seq<string>, int) -> bool, j: nat, k: int)
    requires j <= k < |ls| && at(ls, k)
    ensures j <= Search(ls, at, j) <= k && at(ls, Search(ls, at, j))
  {
    SearchFinds(ls, at, j);
  }

  /** After an aligned match the skip pattern always matches, at or before the match: the
      source's `skip_first.search(tmp).end()` never fails. */
  lemma {:induction false} SkipFound(ls: seq<string>, m: int)
    requires m == Search(ls, AlignedAt, 0) && m >= 0
    ensures AlignedAt(ls, m)
    ensures 0 <= Search(ls, ThreeAt, 0) <= m && ThreeAt(ls, Search(ls, ThreeAt, 0))
  {
    SearchFinds(ls, AlignedAt, 0);
    assert ThreeAt(ls, m);
    SearchBefore(ls, ThreeAt, 0, m);
  }

  // ---------------------------------------------------------------------
  // What the windows are.

  /** The line shape of an aligned window: three verses, a blank line, a verse, and the empty
      piece after its closing newline. */
  predicate IsTercet(w: string)
  {
    var ps := Split(w, '\n');
    |ps| == 6 && ps[0] != "" && ps[1] != "" && ps[2] != "" && ps[3] == "" && ps[4] != "" && ps[5] == ""
  }

  /** The line shape of an offset window: two verses, a blank line, three verses. */
  predicate IsOffsetTercet(w: string)
  {
    var ps := Split(w, '\n');
    |ps| == 6 && ps[0] != "" && ps[1] != "" && ps[2] == "" && ps[3] != "" && ps[4] != "" && ps[5] != ""
  }

  /** Every window is a verbatim piece of `text` with the aligned shape. */
  predicate TercetsOf(text: string, ws: seq<string>)
  {
    forall k :: 0 <= k < |ws| ==> Contains(text, ws[k]) && IsTercet(ws[k])
  }

  lemma {:induction false} AlignedWindowShape(ls: seq<string>, j: int)
    requires SepFree(ls, '\n') && AlignedAt(ls, j)
    ensures IsTercet(AlignedWindow(ls, j))
    ensures Contains(Join(ls, '\n'), AlignedWindow(ls, j))
  {
    var five := ls[j..j + 5];
    JoinAppend(five, [""], '\n');
    assert AlignedWindow(ls, j) == Join(five + [""], '\n');
    assert SepFree(five + [""], '\n') by {
      forall k | 0 <= k < 6 ensures '\n' !in (five + [""])[k] {
        if k < 5 { assert (five + [""])[k] == ls[j + k]; }
      }
    }
    SplitJoin(five + [""], '\n');
    var six := ls[j..j + 6];
    JoinCut(six, 5, '\n');
    assert six[..5] == five && six[5..] == [ls[j + 5]];
    ContainsMiddle("", AlignedWindow(ls, j), ls[j + 5]);
    assert "" + AlignedWindow(ls, j) + ls[j + 5] == Join(six, '\n');
    JoinWindow(ls, j, j + 6, '\n');
    ContainsTrans(AlignedWindow(ls, j), Join(six, '\n'), Join(ls, '\n'));
  }

  lemma {:induction false} OffsetWindowShape(ls: seq<string>, j: int)
    requires SepFree(ls, '\n') && OffsetAt(ls, j)
    ensures IsOffsetTercet(OffsetWindow(ls, j))
    ensures Contains(Join(ls, '\n'), OffsetWindow(ls, j))
  {
    var six := ls[j..j + 6];
    assert SepFree(six, '\n') by {
      forall k | 0 <= k < 6 ensures '\n' !in six[k] {
        assert six[k] == ls[j + k];
      }
    }
    SplitJoin(six, '\n');
    JoinWindow(ls, j, j + 6, '\n');
  }

  /** The text left after a skip is a piece of the text before it, and still split at every
      newline. */
  lemma {:induction false} SkipShape(ls: seq<string>, j: int, len: nat)
    requires 0 <= j && j + len <= |ls| && len >= 2 && SepFree(ls, '\n')
    ensures SepFree(Skip(ls, j, len), '\n')
    ensures Contains(Join(ls, '\n'), Join(Skip(ls, j, len), '\n'))
  {
    var t := j + len;
    if t + 1 < |ls| && ls[t] == "" {
      JoinSuffix(ls, t + 1, '\n');
      SepFreeDrop(ls, t + 1, '\n');
    } else {
      SepFreeDrop(ls, t, '\n');
      SepFreePad(ls[t..], '\n');
      PadContained(ls, t, '\n');
    }
  }

  /** The aligned loop yields only aligned windows, each a verbatim piece of the text. */
  lemma {:induction false} AlignedScanTercets(text: string, ls: seq<string>)
    requires SepFree(ls, '\n') && Contains(text, Join(ls, '\n'))
    ensures TercetsOf(text, AlignedScan(ls))
    decreases |ls|
  {
    var m := Search(ls, AlignedAt, 0);
    if m >= 0 {
      SkipFound(ls, m);
      var rest := Skip(ls, Search(ls, ThreeAt, 0), 3);
      SkipShape(ls, Search(ls, ThreeAt, 0), 3);
      ContainsTrans(Join(rest, '\n'), Join(ls, '\n'), text);
      AlignedScanTercets(text, rest);
      AlignedWindowShape(ls, m);
      ContainsTrans(AlignedWindow(ls, m), Join(ls, '\n'), text);
      var ws := AlignedScan(ls);
      assert ws == [AlignedWindow(ls, m)] + AlignedScan(rest);
      forall k | 0 <= k < |ws| ensures Contains(text, ws[k]) && IsTercet(ws[k]) {
        if k > 0 { assert ws[k] == AlignedScan(rest)[k - 1]; }
      }
    }
  }

  /** The windows `_extract_terzine` returns are verbatim pieces of the text. When the text
      holds an aligned tercet anywhere they all have the aligned shape; otherwise the first may
      be an offset window and the rest are aligned. No window at all means the text holds
      neither shape on any line. */
  lemma {:induction false} TerzineWindows(text: string)
    ensures var ls := Split(text, '\n');
      Search(ls, AlignedAt, 0) >= 0 ==> TercetsOf(text, Terzine(text))
    ensures var ws := Terzine(text);
      |ws| > 0 && !TercetsOf(text, ws) ==>
        Contains(text, ws[0]) && IsOffsetTercet(ws[0]) && TercetsOf(text, ws[1..])
    ensures var ls := Split(text, '\n');
      Terzine(text) == [] <==> forall j :: !AlignedAt(ls, j) && !OffsetAt(ls, j)
  {
    var ls := Split(text, '\n');
    SplitSepFree(text, '\n');
    JoinSplit(text, '\n');
    assert Contains(text, Join(ls, '\n')) by {
      assert OccursAt(text, Join(ls, '\n'), 0);
    }
    SearchFinds(ls, AlignedAt, 0);
    SearchFinds(ls, OffsetAt, 0);
    if Search(ls, AlignedAt, 0) >= 0 {
      AlignedScanTercets(text, ls);
    } else {
      var m := Search(ls, OffsetAt, 0);
      if m >= 0 {
        SearchBefore(ls, TwoAt, 0, m);
        var rest := Skip(ls, Search(ls, TwoAt, 0), 2);
        SkipShape(ls, Search(ls, TwoAt, 0), 2);
        ContainsTrans(Join(rest, '\n'), Join(ls, '\n'), text);
        AlignedScanTercets(text, rest);
        OffsetWindowShape(ls, m);
        ContainsTrans(OffsetWindow(ls, m), Join(ls, '\n'), text);
        var ws := Terzine(text);
        assert ws[0] == OffsetWindow(ls, m);
        assert ws[1..] == AlignedScan(rest);
      }
    }
  }

  /** An aligned tercet in a suffix of the lines is one in the lines themselves. */
  lemma {:induction false} AlignedInSuffix(ls: seq<string>, t: int)
    requires 0 <= t <= |ls|
    ensures forall j :: AlignedAt(ls[t..], j) ==> AlignedAt(ls, t + j)
  {
  }

  /** So is one in a suffix with a blank line put back in front. */
  lemma {:induction false} AlignedInPadded(ls: seq<string>, t: int)
    requires 0 <= t <= |ls|
    ensures forall j :: AlignedAt([""] + ls[t..], j) ==> j >= 1 && AlignedAt(ls, t + j - 1)
  {
    var rest := [""] + ls[t..];
    forall j | AlignedAt(rest, j) ensures j >= 1 && AlignedAt(ls, t + j - 1) {
      assert rest[j] != "";
      assert forall k :: 1 <= k < |rest| ==> rest[k] == ls[t + k - 1];
    }
  }

  /** A text with no aligned tercet yields at most one window, the offset one: after the skip
      no aligned tercet can appear. */
  lemma {:induction false} OffsetAtMostOne(text: string)
    requires forall j :: !AlignedAt(Split(text, '\n'), j)
    ensures |Terzine(text)| <= 1
  {
    var ls := Split(text, '\n');
    SearchFinds(ls, AlignedAt, 0);
    var m := Search(ls, OffsetAt, 0);
    if m >= 0 {
      SearchFinds(ls, OffsetAt, 0);
      SearchBefore(ls, TwoAt, 0, m);
      var t := Search(ls, TwoAt, 0) + 2;
      var rest := Skip(ls, Search(ls, TwoAt, 0), 2);
      if t + 1 < |ls| && ls[t] == "" {
        AlignedInSuffix(ls, t + 1);
      } else {
        AlignedInPadded(ls, t);
      }
      SearchFinds(rest, AlignedAt, 0);
      assert AlignedScan(rest) == [];
    }
  }

  /** The searches are unanchored, so windows need not chain: in seven verses whose only blank
      line follows the sixth, the skip after the first match stops short of the match, and the
      same window is taken twice. */
  lemma {:induction false} RepeatedWindow()
    ensures AlignedScan(["A", "B", "C", "D", "E", "F", "", "G", ""]) == ["D\nE\nF\n\nG\n", "D\nE\nF\n\nG\n"]
  {
    var ls := ["A", "B", "C", "D", "E", "F", "", "G", ""];
    var r1 := [""] + ls[3..];
    var r2 := ["G", ""];
    FirstStep(ls);
    SecondStep(r1);
    LastStep(r2);
    WindowText(ls, 3);
    WindowText(r1, 1);
  }

  /** The same canto as text, through `_extract_terzine` itself: the text whose lines are
      these nine (the text "A\nB\nC\nD\nE\nF\n\nG\n") has an aligned match, so the aligned
      loop runs over its lines and takes the window at D twice. */
  lemma {:induction false} RepeatedWindowText(text: string)
    requires Split(text, '\n') == ["A", "B", "C", "D", "E", "F", "", "G", ""]
    ensures Terzine(text) == ["D\nE\nF\n\nG\n", "D\nE\nF\n\nG\n"]
  {
    var ls := Split(text, '\n');
    SearchBefore(ls, AlignedAt, 0, 3);
    RepeatedWindow();
  }

  /** When each tercet is followed by a blank line the windows chain: in the text whose lines
      are these ten (the text "A\nB\nC\n\nD\nE\nF\n\nG\n") the skip takes the blank line, and
      the next window starts at the verse the previous one ended with. */
  lemma {:induction false} ChainedWindows(text: string)
    requires Split(text, '\n') == ["A", "B", "C", "", "D", "E", "F", "", "G", ""]
    ensures Terzine(text) == ["A\nB\nC\n\nD\n", "D\nE\nF\n\nG\n"]
  {
    var ls := Split(text, '\n');
    var r1 := ls[4..];
    ChainedFirstStep(ls);
    ChainedSecondStep(r1);
    LastStep(["G", ""]);
    ChainedWindowText(ls);
    WindowText(r1, 0);
  }

  /** The first match is at A; the skip takes the blank line after C and resumes at D. */
  lemma {:induction false} ChainedFirstStep(ls: seq<string>)
    requires ls == ["A", "B", "C", "", "D", "E", "F", "", "G", ""]
    ensures Search(ls, AlignedAt, 0) == 0
    ensures AlignedScan(ls) == [AlignedWindow(ls, 0)] + AlignedScan(ls[4..])
  {
    assert AlignedAt(ls, 0);
    assert ThreeAt(ls, 0);
  }

  /** The second match is at D; the skip takes the blank line after F and resumes at G. */
  lemma {:induction false} ChainedSecondStep(r1: seq<string>)
    requires r1 == ["D", "E", "F", "", "G", ""]
    ensures AlignedScan(r1) == [AlignedWindow(r1, 0)] + AlignedScan(["G", ""])
  {
    assert AlignedAt(r1, 0);
    assert ThreeAt(r1, 0);
    assert r1[4..] == ["G", ""];
  }

  /** The window at A, written out. */
  lemma {:induction false} ChainedWindowText(ls: seq<string>)
    requires ls == ["A", "B", "C", "", "D", "E", "F", "", "G", ""]
    ensures AlignedWindow(ls, 0) == "A\nB\nC\n\nD\n"
  {
    var w := ls[0..5];
    assert w == ["A", "B", "C", "", "D"];
    assert Join(w[4..], '\n') == "D";
    assert Join(w[3..], '\n') == "\nD";
    assert Join(w[2..], '\n') == "C\n\nD";
    assert Join(w[1..], '\n') == "B\nC\n\nD";
  }

  /** The first match is at D; the scan resumes from a blank line put before D. */
  lemma {:induction false} FirstStep(ls: seq<string>)
    requires ls == ["A", "B", "C", "D", "E", "F", "", "G", ""]
    ensures AlignedScan(ls) == [AlignedWindow(ls, 3)] + AlignedScan([""] + ls[3..])
  {
    assert Search(ls, AlignedAt, 3) == 3;
    assert Search(ls, AlignedAt, 1) == 3;
    assert Search(ls, ThreeAt, 0) == 0;
  }

  /** The second match is at D again; the scan resumes at G. */
  lemma {:induction false} SecondStep(r1: seq<string>)
    requires r1 == ["", "D", "E", "F", "", "G", ""]
    ensures AlignedScan(r1) == [AlignedWindow(r1, 1)] + AlignedScan(["G", ""])
  {
    assert Search(r1, AlignedAt, 0) == 1;
    assert Search(r1, ThreeAt, 0) == 1;
    assert r1[5..] == ["G", ""];
  }

  /** Nothing is left to match after G. */
  lemma {:induction false} LastStep(r2: seq<string>)
    requires r2 == ["G", ""]
    ensures AlignedScan(r2) == []
  {
    assert Search(r2, AlignedAt, 2) == -1;
    assert Search(r2, AlignedAt, 0) == -1;
  }

  /** The window at D, written out. */
  lemma {:induction false} WindowText(ls: seq<string>, j: int)
    requires AlignedAt(ls, j) && ls[j..j + 5] == ["D", "E", "F", "", "G"]
    ensures AlignedWindow(ls, j) == "D\nE\nF\n\nG\n"
  {
    var w := ["D", "E", "F", "", "G"];
    assert Join(w[4..], '\n') == "G";
    assert Join(w[3..], '\n') == "\nG";
    assert Join(w[2..], '\n') == "F\n\nG";
    assert Join(w[1..], '\n') == "E\nF\n\nG";
  }

  /** Every window after the first has the aligned shape; the first has the aligned or the
      offset shape. */
  lemma {:induction false} TerzineShapes(text: string)
    ensures var ws := Terzine(text); forall k :: 1 <= k < |ws| ==> IsTercet(ws[k])
    ensures var ws := Terzine(text); |ws| > 0 ==> IsTercet(ws[0]) || IsOffsetTercet(ws[0])
  {
    TerzineWindows(text);
    var ws := Terzine(text);
    if !TercetsOf(text, ws) {
      forall k | 1 <= k < |ws| ensures IsTercet(ws[k]) {
        assert ws[1..][k - 1] == ws[k];
      }
    }
  }
}
