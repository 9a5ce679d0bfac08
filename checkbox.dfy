/** The text side of `handleCheckboxClick` in src/table.ts: in a multi-line
    cell, the task line of the clicked checkbox gets its marker flipped. */
module Checkbox {
  import opened Wrappers
  import opened JsText
  import opened Host

  const Unchecked: string := "- [ ] "
  const Checked: string := "- [x] "

  /** Whether `t` starts with `- [ ]` or `- [x]`, character by character. */
  predicate BoxAt(t: string) {
    |t| >= 5 && t[0] == '-' && t[1] == ' ' && t[2] == '[' && (t[3] == ' ' || t[3] == 'x') && t[4] == ']'
  }

  /** `line.trim().startsWith('- [ ]') || line.trim().startsWith('- [x]')`. */
  predicate IsTaskLine(line: string) {
    BoxAt(Trim(line))
  }

  /** The character-wise test is the two prefix tests. */
  lemma BoxAtExact(t: string)
    ensures BoxAt(t) <==> StartsWith(t, "- [ ]") || StartsWith(t, "- [x]")
  {
    if |t| >= 5 && t[..5] == "- [ ]" {
      assert t[0] == t[..5][0] && t[1] == t[..5][1] && t[2] == t[..5][2] && t[3] == t[..5][3] && t[4] == t[..5][4];
    }
    if |t| >= 5 && t[..5] == "- [x]" {
      assert t[0] == t[..5][0] && t[1] == t[..5][1] && t[2] == t[..5][2] && t[3] == t[..5][3] && t[4] == t[..5][4];
    }
  }

  /** The indices of the lines that satisfy `p`, in order. */
  function Indices(lines: seq<string>, p: string -> bool): (ix: seq<nat>)
    ensures forall k :: 0 <= k < |ix| ==> ix[k] < |lines| && p(lines[ix[k]])
    decreases |lines|
  {
    if lines == [] then []
    else
      var prev := Indices(lines[..|lines| - 1], p);
      if p(lines[|lines| - 1]) then prev + [|lines| - 1] else prev
  }

  /** One more line scanned: its index is added when it satisfies `p`. */
  lemma IndicesSnoc(lines: seq<string>, i: nat, p: string -> bool)
    requires i < |lines|
    ensures Indices(lines[..i + 1], p) ==
      if p(lines[i]) then Indices(lines[..i], p) + [i] else Indices(lines[..i], p)
  {
    assert lines[..i + 1][..i] == lines[..i];
  }

  /** The indices of the task lines, in order: `tasksIndex`. */
  function TaskIndices(lines: seq<string>): seq<nat> {
    Indices(lines, IsTaskLine)
  }

  /** The loop that builds `tasksIndex`. */
  method CollectTaskIndices(lines: seq<string>) returns (ix: seq<nat>)
    ensures ix == TaskIndices(lines)
  {
    ix := [];
    var i := 0;
    while i < |lines|
      invariant 0 <= i <= |lines|
      invariant ix == Indices(lines[..i], IsTaskLine)
    {
      IndicesSnoc(lines, i, IsTaskLine);
      if IsTaskLine(lines[i]) {
        ix := ix + [i];
      }
      i := i + 1;
    }
    assert lines[..i] == lines;
  }

  /** Every line satisfying `p` is listed, and only those. */
  lemma {:induction false} IndicesExact(lines: seq<string>, p: string -> bool, i: int)
    ensures i in Indices(lines, p) <==> 0 <= i < |lines| && p(lines[i])
    decreases |lines|
  {
    if lines != [] {
      var init := lines[..|lines| - 1];
      IndicesExact(init, p, i);
      if 0 <= i < |init| {
        assert init[i] == lines[i];
      }
    }
  }

  predicate Increasing(ix: seq<nat>) {
    forall a, b :: 0 <= a < b < |ix| ==> ix[a] < ix[b]
  }

  /** The indices are strictly increasing. */
  lemma {:induction false} IndicesIncreasing(lines: seq<string>, p: string -> bool)
    ensures Increasing(Indices(lines, p))
    decreases |lines|
  {
    if lines != [] {
      var init := lines[..|lines| - 1];
      IndicesIncreasing(init, p);
      var prev := Indices(init, p);
      assert forall a :: 0 <= a < |prev| ==> prev[a] < |lines| - 1;
    }
  }

  /** Every task line is listed, only task lines, in increasing order. */
  lemma TaskIndicesExact(lines: seq<string>, i: int)
    ensures i in TaskIndices(lines) <==> 0 <= i < |lines| && IsTaskLine(lines[i])
    ensures Increasing(TaskIndices(lines))
  {
    IndicesExact(lines, IsTaskLine, i);
    IndicesIncreasing(lines, IsTaskLine);
  }

  /** Whether a marker `- [ ] ` or `- [x] ` starts `s`, character by
      character as the pattern `- \[[ x]] ` reads. */
  predicate AtMarker(s: string) {
    |s| >= 6 && s[0] == '-' && s[1] == ' ' && s[2] == '[' && (s[3] == ' ' || s[3] == 'x') &&
    s[4] == ']' && s[5] == ' '
  }

  /** The pattern matches the two markers and nothing else. */
  lemma AtMarkerExact(s: string)
    ensures AtMarker(s) <==> StartsWith(s, Unchecked) || StartsWith(s, Checked)
  {
    if |s| >= 6 && s[..6] == Unchecked {
      assert s[0] == Unchecked[0] && s[1] == Unchecked[1] && s[2] == Unchecked[2];
      assert s[3] == Unchecked[3] && s[4] == Unchecked[4] && s[5] == Unchecked[5];
    }
    if |s| >= 6 && s[..6] == Checked {
      assert s[0] == Checked[0] && s[1] == Checked[1] && s[2] == Checked[2];
      assert s[3] == Checked[3] && s[4] == Checked[4] && s[5] == Checked[5];
    }
  }

  /** `s.replace(/- \[ ] |- \[x] /g, rep)`: a left-to-right scan replacing
      every marker. Both alternatives are six characters long, so the
      alternation's order does not matter. */
  function ReplaceMarkers(s: string, rep: string): string
    decreases |s|
  {
    if s == [] then []
    else if AtMarker(s) then rep + ReplaceMarkers(s[6..], rep)
    else [s[0]] + ReplaceMarkers(s[1..], rep)
  }

  /** The new marker: `- [x] ` for a task that was to do, `- [ ] ` for one
      that was done. */
  function NewMarker(done: bool): (m: string)
    ensures m == Unchecked || m == Checked
  {
    if done then Unchecked else Checked
  }

  /** The lines of the cell: `<br>` becomes a line break, then the text is
      split at line breaks. */
  function Lines(content: string): seq<string> {
    Split(ReplaceAll(content, "<br>", "\n"), '\n')
  }

  /** The lines after the click on the `index`-th checkbox, or `None` when
      there are not that many task lines. */
  function Toggle(lines: seq<string>, index: nat, done: bool): Option<seq<string>> {
    var tasks := TaskIndices(lines);
    if index < |tasks| then
      var k := tasks[index];
      Some(lines[k := ReplaceMarkers(lines[k], NewMarker(done))])
    else None
  }

  /** The new cell text, or the error reading `tasksIndex[index]` past the
      end gives (`tempList[undefined].replace`). */
  function Toggled(content: string, index: nat, done: bool): Result<string> {
    match Toggle(Lines(content), index, done)
    case None => Err(ReadingUndefined("replace"))
    case Some(lines) => Ok(Trim(Join(lines, '\n')))
  }

  /** `handleCheckboxClick(content, ...)` for the `index`-th checkbox of the
      cell, whose task is `done` or not. */
  method ToggleTask(content: string, index: nat, done: bool) returns (r: Result<string>)
    ensures r == Toggled(content, index, done)
  {
    var lines := Split(ReplaceAll(content, "<br>", "\n"), '\n');
    var tasks := CollectTaskIndices(lines);
    if index >= |tasks| {
      return Err(ReadingUndefined("replace"));
    }
    var k := tasks[index];
    lines := lines[k := ReplaceMarkers(lines[k], if done then "- [ ] " else "- [x] ")];
    return Ok(Trim(Join(lines, '\n')));
  }

  /** The lines after a click in a cell with enough task lines. */
  lemma ToggleAt(lines: seq<string>, index: nat, done: bool)
    requires index < |TaskIndices(lines)|
    ensures var k := TaskIndices(lines)[index];
      Toggle(lines, index, done) == Some(lines[k := ReplaceMarkers(lines[k], NewMarker(done))])
  {
  }

  /** The click changes exactly one line, the `index`-th task line (an error
      when there is none), and leaves every other line as it was. */
  lemma ToggleExact(lines: seq<string>, index: nat, done: bool)
    ensures Toggle(lines, index, done).Some? <==> index < |TaskIndices(lines)|
    ensures Toggle(lines, index, done).Some? ==>
      var k := TaskIndices(lines)[index];
      var after := Toggle(lines, index, done).value;
      |after| == |lines| &&
      after[k] == ReplaceMarkers(lines[k], NewMarker(done)) &&
      forall i :: 0 <= i < |lines| && i != k ==> after[i] == lines[i]
  {
    if index < |TaskIndices(lines)| {
      ToggleAt(lines, index, done);
    }
  }

  /** No marker starts anywhere in `t`. */
  predicate NoMarker(t: string) {
    forall i :: 0 <= i <= |t| ==> !AtMarker(t[i..])
  }

  /** Text without a marker is left as it is. */
  lemma {:induction false} ReplaceAbsent(t: string, rep: string)
    requires NoMarker(t)
    ensures ReplaceMarkers(t, rep) == t
    decreases |t|
  {
    if t != [] {
      assert t[0..] == t;
      assert NoMarker(t[1..]) by {
        forall i | 0 <= i <= |t| - 1
          ensures !AtMarker(t[1..][i..])
        {
          assert t[1..][i..] == t[i + 1..];
        }
      }
      ReplaceAbsent(t[1..], rep);
    }
  }

  /** A line that starts with a marker and has no other one gets exactly
      that marker replaced. */
  lemma FlipMarker(m: string, t: string, rep: string)
    requires m == Unchecked || m == Checked
    requires NoMarker(t)
    ensures ReplaceMarkers(m + t, rep) == rep + t
  {
    assert (m + t)[..6] == m;
    assert (m + t)[6..] == t;
    ReplaceAbsent(t, rep);
  }

  /** Checking a clean task line and unchecking it again gives it back. */
  lemma CheckThenUncheck(t: string)
    requires NoMarker(t)
    ensures ReplaceMarkers(Unchecked + t, NewMarker(false)) == Checked + t
    ensures ReplaceMarkers(Checked + t, NewMarker(true)) == Unchecked + t
  {
    FlipMarker(Unchecked, t, Checked);
    FlipMarker(Checked, t, Unchecked);
  }

  /** The first output character: `-` where a marker starts, else the
      first input character. */
  lemma ReplaceHead(t: string, rep: string)
    requires rep == Unchecked || rep == Checked
    ensures AtMarker(t) ==> ReplaceMarkers(t, rep)[0] == '-'
    ensures t != [] && !AtMarker(t) ==> ReplaceMarkers(t, rep) == [t[0]] + ReplaceMarkers(t[1..], rep)
  {
    assert rep[0] == '-';
  }

  /** As long as the output shows no `-`, it agrees with the input. */
  lemma {:induction false} Agree(t: string, rep: string, k: nat)
    requires rep == Unchecked || rep == Checked
    requires k <= |ReplaceMarkers(t, rep)|
    requires forall i :: 0 <= i < k ==> ReplaceMarkers(t, rep)[i] != '-'
    ensures k <= |t| && t[..k] == ReplaceMarkers(t, rep)[..k]
    decreases k
  {
    if k > 0 {
      var y := ReplaceMarkers(t, rep);
      var z := ReplaceMarkers(t[1..], rep);
      ReplaceHead(t, rep);
      assert y[0] != '-';
      assert y == [t[0]] + z;
      assert forall i :: 0 <= i < k - 1 ==> z[i] == y[i + 1];
      Agree(t[1..], rep, k - 1);
      assert t[..k] == [t[0]] + t[1..][..k - 1];
      assert y[..k] == [t[0]] + z[..k - 1];
    }
  }

  /** Replacing cannot make a marker straddle the boundary between a kept
      character and the replaced rest. */
  lemma NoNewMarker(s: string, rep: string)
    requires s != []
    requires rep == Unchecked || rep == Checked
    ensures AtMarker([s[0]] + ReplaceMarkers(s[1..], rep)) ==> AtMarker(s)
  {
    var y := ReplaceMarkers(s[1..], rep);
    var z := [s[0]] + y;
    if AtMarker(z) {
      assert forall i :: 0 <= i < 5 ==> y[i] == z[i + 1];
      Agree(s[1..], rep, 5);
      assert s[..6] == z[..6];
    }
  }

  /** A second click rewrites every marker to the newest one: toggling twice
      is toggling once with the last status. */
  lemma {:induction false} ReplaceTwice(s: string, a: string, b: string)
    requires a == Unchecked || a == Checked
    requires b == Unchecked || b == Checked
    ensures ReplaceMarkers(ReplaceMarkers(s, a), b) == ReplaceMarkers(s, b)
    decreases |s|
  {
    if s != [] {
      if AtMarker(s) {
        var y := ReplaceMarkers(s[6..], a);
        ReplaceTwice(s[6..], a, b);
        assert (a + y)[..6] == a;
        assert (a + y)[6..] == y;
      } else {
        var y := ReplaceMarkers(s[1..], a);
        ReplaceTwice(s[1..], a, b);
        NoNewMarker(s, a);
        assert ([s[0]] + y)[1..] == y;
      }
    }
  }

  /** Replacing markers brings in no character that neither the text nor the
      replacement has. */
  lemma {:induction false} ReplaceKeepsOut(s: string, rep: string, c: char)
    requires c !in s && c !in rep
    ensures c !in ReplaceMarkers(s, rep)
    decreases |s|
  {
    if s != [] {
      if AtMarker(s) {
        assert forall i :: 6 <= i < |s| ==> s[i] == s[6..][i - 6];
        ReplaceKeepsOut(s[6..], rep, c);
      } else {
        ReplaceKeepsOut(s[1..], rep, c);
      }
    }
  }

  /** Replacing one line of a list of lines by another line without a line
      break: joining and splitting again gives the new list back. */
  lemma UpdateSplitsBack(lines: seq<string>, k: nat, v: string)
    requires k < |lines| && '\n' !in v
    requires forall i :: 0 <= i < |lines| ==> '\n' !in lines[i]
    ensures Split(Join(lines[k := v], '\n'), '\n') == lines[k := v]
  {
    var after := lines[k := v];
    assert forall i :: 0 <= i < |after| ==> '\n' !in after[i];
    SplitJoin(after, '\n');
  }

  /** A line without a line break keeps none after its markers change. */
  lemma ReplaceNoBreak(s: string, done: bool)
    requires '\n' !in s
    ensures '\n' !in ReplaceMarkers(s, NewMarker(done))
  {
    ReplaceKeepsOut(s, NewMarker(done), '\n');
  }

  /** Lines without line breaks stay so after a click, and joining them
      and splitting again gives them back. */
  lemma ToggleSplitsBack(lines: seq<string>, index: nat, done: bool)
    requires forall i :: 0 <= i < |lines| ==> '\n' !in lines[i]
    ensures Toggle(lines, index, done).Some? ==>
      var after := Toggle(lines, index, done).value;
      Split(Join(after, '\n'), '\n') == after
  {
    if index < |TaskIndices(lines)| {
      var k := TaskIndices(lines)[index];
      ToggleAt(lines, index, done);
      ReplaceNoBreak(lines[k], done);
      UpdateSplitsBack(lines, k, ReplaceMarkers(lines[k], NewMarker(done)));
    }
  }

  /** The new cell text is the toggled lines joined by line breaks and
      trimmed, and before trimming it splits back into exactly those lines;
      with fewer task lines than `index + 1` the click fails. */
  lemma ToggledText(content: string, index: nat, done: bool)
    ensures Toggled(content, index, done).Err? <==> index >= |TaskIndices(Lines(content))|
    ensures Toggled(content, index, done).Err? ==> Toggled(content, index, done) == Err(ReadingUndefined("replace"))
    ensures Toggle(Lines(content), index, done).Some? ==>
      var after := Toggle(Lines(content), index, done).value;
      Toggled(content, index, done) == Ok(Trim(Join(after, '\n'))) &&
      Split(Join(after, '\n'), '\n') == after
  {
    var lines := Lines(content);
    ToggleExact(lines, index, done);
    ToggleSplitsBack(lines, index, done);
  }

  /** A line shorter than a marker is left as it is; so is the task line
      `- [ ]` with nothing after its box, since the replacement needs the
      space after `]`. */
  lemma ShortLineUnchanged(t: string, rep: string)
    requires |t| < 6
    ensures ReplaceMarkers(t, rep) == t
  {
    assert NoMarker(t);
    ReplaceAbsent(t, rep);
  }
}
