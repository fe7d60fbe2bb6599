/**
  The diff view (`DiffViewer.SetDiffText`): the text of `git diff` or `git show` is split
  into lines, each line is appended to the text control with a newline, styled over its
  own characters, and marked when it names a file. The style of a line depends on the
  line and on three flags carried from line to line: inside the commit header, inside
  the commit message, inside a hunk.
*/
module DiffViewer {
  import opened Text

  datatype LineStyle = NormalStyle | CommitStyle | FileStyle | HunkStyle | AddStyle | RemoveStyle

  /** The flags carried from one line to the next. */
  datatype Mode = Mode(inCommitHeader: bool, inCommitMsg: bool, inHunk: bool)

  /** One `StartStyling`/`SetStyling` pair: a run of characters and its style. */
  datatype Styling = Styling(start: nat, length: nat, style: LineStyle)

  /** Commit mode (the output of `git show`) starts in the commit header. */
  function Initial(commitMode: bool): (m: Mode)
    ensures m.inCommitHeader == commitMode && !m.inCommitMsg && !m.inHunk
  {
    Mode(commitMode, false, false)
  }

  /** `line.startswith(c)` for a one-character prefix. */
  predicate Opens(line: string, c: char)
  {
    |line| > 0 && line[0] == c
  }

  /** A line that continues a hunk: an added, removed, hunk-header or context line. */
  predicate HunkLine(line: string)
  {
    Opens(line, '+') || Opens(line, '-') || Opens(line, '@') || Opens(line, ' ')
  }

  /** The style of `line` and the flags for the next line. */
  function Classify(m: Mode, line: string): (Mode, LineStyle)
  {
    if m.inCommitHeader then
      (if line == "" then Mode(false, true, m.inHunk) else m, CommitStyle)
    else if m.inCommitMsg then
      (if line == "" then Mode(false, false, m.inHunk) else m, CommitStyle)
    else if m.inHunk then
      if Opens(line, '+') then (m, AddStyle)
      else if Opens(line, '-') then (m, RemoveStyle)
      else if Opens(line, '@') then (m, HunkStyle)
      else if Opens(line, ' ') then (m, NormalStyle)
      else (m.(inHunk := false), FileStyle)
    else if Opens(line, '@') then (m.(inHunk := true), HunkStyle)
    else (m, FileStyle)
  }

  /** The flags after the lines `p`. */
  function ModeAfter(m: Mode, p: seq<string>): Mode
  {
    if p == [] then m else Classify(ModeAfter(m, p[..|p| - 1]), p[|p| - 1]).0
  }

  /** The style of line `i`. */
  function StyleAt(m: Mode, lines: seq<string>, i: nat): LineStyle
    requires i < |lines|
  {
    Classify(ModeAfter(m, lines[..i]), lines[i]).1
  }

  /** The text control's contents after the lines `p` are added, each with its newline. */
  function Rendered(p: seq<string>): string
  {
    if p == [] then "" else p[0] + "\n" + Rendered(p[1..])
  }

  /** Whether line `i` gets the file marker: a non-empty line styled as a file line. */
  predicate Marked(m: Mode, lines: seq<string>, i: nat)
    requires i < |lines|
  {
    StyleAt(m, lines, i) == FileStyle && lines[i] != ""
  }

  predicate Increasing(s: seq<nat>)
  {
    forall i, j :: 0 <= i < j < |s| ==> s[i] < s[j]
  }

  // ---- The viewer ----

  /** The styled text control of the view: its text, the styling runs applied to it in
      order, the lines carrying the file marker in order, and whether it is read-only. */
  class DiffView {
    var content: string
    var stylings: seq<Styling>
    var markers: seq<nat>
    var readOnly: bool

    constructor()
      ensures content == "" && stylings == [] && markers == [] && !readOnly
    {
      content, stylings, markers, readOnly := "", [], [], false;
    }

    /** Empties the control and leaves it read-only. */
    method Clear()
      modifies this`content, this`stylings, this`markers, this`readOnly
      ensures content == "" && stylings == [] && markers == [] && readOnly
    {
      readOnly := false;
      content, stylings, markers := "", [], [];
      readOnly := true;
    }

    /** Shows `text`: one styling run per line, over exactly that line's characters, with
        the style the flags give it, and the file marker on the non-empty file lines. */
    method SetDiffText(text: string, commitMode: bool)
      modifies this`content, this`stylings, this`markers, this`readOnly
      ensures var lines := Split(text, '\n');
        Shows(lines, |lines|, Initial(commitMode), content, stylings, markers) && readOnly
    {
      Clear();
      readOnly := false;
      var c, s, m := StyleLines(Split(text, '\n'), commitMode);
      content, stylings, markers := c, s, m;
      readOnly := true;
    }
  }

  /** The control after the first `n` lines are added from the flags `start`: the text
      with a newline after each line, one styling run per line over exactly its characters
      with its style, and the marked lines in order. */
  ghost predicate Shows(lines: seq<string>, n: nat, start: Mode, content: string,
                        stylings: seq<Styling>, markers: seq<nat>)
    requires n <= |lines|
  {
    content == Rendered(lines[..n]) && StylesShown(lines, n, start, stylings) &&
    MarkersShown(lines, n, start, markers)
  }

  ghost predicate StylesShown(lines: seq<string>, n: nat, start: Mode, stylings: seq<Styling>)
    requires n <= |lines|
  {
    |stylings| == n &&
    forall i :: 0 <= i < n ==>
      stylings[i] == Styling(|Rendered(lines[..i])|, |lines[i]|, StyleAt(start, lines, i))
  }

  ghost predicate MarkersShown(lines: seq<string>, n: nat, start: Mode, markers: seq<nat>)
    requires n <= |lines|
  {
    (forall i: nat :: i in markers <==> i < n && Marked(start, lines, i)) &&
    Increasing(markers) && (forall k :: 0 <= k < |markers| ==> markers[k] < n)
  }

  /** The loop of `SetDiffText`, from an empty control. */
  method StyleLines(lines: seq<string>, commitMode: bool)
    returns (content: string, stylings: seq<Styling>, markers: seq<nat>)
    ensures Shows(lines, |lines|, Initial(commitMode), content, stylings, markers)
  {
    content, stylings, markers := "", [], [];
    var inCommitHeader, inCommitMsg := commitMode, false;
    var inHunk := false;
    var style: LineStyle;
    var pos := 0;
    var lineno := 0;
    ghost var start := Initial(commitMode);
    while lineno < |lines|
      invariant lineno <= |lines| && pos == |content|
      invariant Mode(inCommitHeader, inCommitMsg, inHunk) == ModeAfter(start, lines[..lineno])
      invariant Shows(lines, lineno, start, content, stylings, markers)
    {
      var line := lines[lineno];
      ShowsStep(lines, lineno, start, content, stylings, markers);
      inCommitHeader, inCommitMsg, inHunk, style := StyleLine(inCommitHeader, inCommitMsg, inHunk, line);
      content := content + line + "\n";
      stylings := stylings + [Styling(pos, |line|, style)];
      pos := pos + |line| + 1;
      if style == FileStyle && |line| > 0 {
        markers := markers + [lineno];
      }
      lineno := lineno + 1;
    }
  }

  /** The style of one line and the flags for the next, as the loop body of `SetDiffText`
      decides them. */
  method StyleLine(inCommitHeader: bool, inCommitMsg: bool, inHunk: bool, line: string)
    returns (inCommitHeader': bool, inCommitMsg': bool, inHunk': bool, style: LineStyle)
    ensures (Mode(inCommitHeader', inCommitMsg', inHunk'), style) ==
      Classify(Mode(inCommitHeader, inCommitMsg, inHunk), line)
  {
    inCommitHeader', inCommitMsg', inHunk' := inCommitHeader, inCommitMsg, inHunk;
    if inCommitHeader {
      if line == "" {
        inCommitHeader' := false;
        inCommitMsg' := true;
      }
      style := CommitStyle;
    } else if inCommitMsg {
      if line == "" {
        inCommitMsg' := false;
      }
      style := CommitStyle;
    } else if inHunk {
      if |line| > 0 && line[0] == '+' {
        style := AddStyle;
      } else if |line| > 0 && line[0] == '-' {
        style := RemoveStyle;
      } else if |line| > 0 && line[0] == '@' {
        style := HunkStyle;
      } else if |line| > 0 && line[0] == ' ' {
        style := NormalStyle;
      } else {
        inHunk' := false;
        style := FileStyle;
      }
    } else {
      if |line| > 0 && line[0] == '@' {
        style := HunkStyle;
        inHunk' := true;
      } else {
        style := FileStyle;
      }
    }
  }

  /** One more line shown: the next flags, and the control with the line added. */
  lemma ShowsStep(lines: seq<string>, n: nat, start: Mode, content: string,
                  stylings: seq<Styling>, markers: seq<nat>)
    requires n < |lines| && Shows(lines, n, start, content, stylings, markers)
    ensures var line, next := lines[n], Classify(ModeAfter(start, lines[..n]), lines[n]);
      ModeAfter(start, lines[..n + 1]) == next.0 &&
      Shows(lines, n + 1, start, content + line + "\n",
        stylings + [Styling(|content|, |line|, next.1)],
        if next.1 == FileStyle && |line| > 0 then markers + [n] else markers)
  {
    assert lines[..n + 1] == lines[..n] + [lines[n]];
    RenderedAppend(lines[..n], lines[n]);
    StylesStep(lines, n, start, stylings);
    MarkersStep(lines, n, start, markers);
  }

  lemma StylesStep(lines: seq<string>, n: nat, start: Mode, stylings: seq<Styling>)
    requires n < |lines| && StylesShown(lines, n, start, stylings)
    ensures StylesShown(lines, n + 1, start,
      stylings + [Styling(|Rendered(lines[..n])|, |lines[n]|, StyleAt(start, lines, n))])
  {
  }

  lemma MarkersStep(lines: seq<string>, n: nat, start: Mode, markers: seq<nat>)
    requires n < |lines| && MarkersShown(lines, n, start, markers)
    ensures MarkersShown(lines, n + 1, start, if Marked(start, lines, n) then markers + [n] else markers)
  {
  }

  // ---- What the styles mean ----

  lemma {:induction false} RenderedAppend(p: seq<string>, line: string)
    ensures Rendered(p + [line]) == Rendered(p) + line + "\n"
    decreases |p|
  {
    if p != [] {
      assert (p + [line])[1..] == p[1..] + [line];
      RenderedAppend(p[1..], line);
    }
  }

  lemma {:induction false} RenderedConcat(p: seq<string>, q: seq<string>)
    ensures Rendered(p + q) == Rendered(p) + Rendered(q)
    decreases |p|
  {
    if p != [] {
      assert (p + q)[0] == p[0];
      assert (p + q)[1..] == p[1..] + q;
      RenderedConcat(p[1..], q);
      calc {
        Rendered(p + q);
        p[0] + "\n" + Rendered(p[1..] + q);
        p[0] + "\n" + (Rendered(p[1..]) + Rendered(q));
        (p[0] + "\n" + Rendered(p[1..])) + Rendered(q);
      }
    } else {
      assert p + q == q;
    }
  }

  /** The styling run of line `i` covers exactly that line's characters, and the next run
      starts one newline later. */
  lemma StyledRange(lines: seq<string>, i: nat)
    requires i < |lines|
    ensures var start := |Rendered(lines[..i])|;
      start + |lines[i]| < |Rendered(lines)| &&
      Rendered(lines)[start..start + |lines[i]|] == lines[i] &&
      |Rendered(lines[..i + 1])| == start + |lines[i]| + 1
  {
    assert lines == lines[..i] + lines[i..];
    RenderedConcat(lines[..i], lines[i..]);
    assert lines[i..] == [lines[i]] + lines[i + 1..];
    RenderedAppend(lines[..i], lines[i]);
    assert lines[..i + 1] == lines[..i] + [lines[i]];
  }

  /** The control shows the text with one newline added at the end. */
  lemma {:induction false} RenderedJoin(lines: seq<string>)
    requires lines != []
    ensures Rendered(lines) == Join(lines, '\n') + "\n"
    decreases |lines|
  {
    if |lines| > 1 {
      RenderedJoin(lines[1..]);
    }
  }

  lemma ShownText(text: string)
    ensures Rendered(Split(text, '\n')) == text + "\n"
  {
    RenderedJoin(Split(text, '\n'));
    JoinSplit(text, '\n');
  }

  /** The flags after the lines `a + b` are those after `b` from the flags after `a`. */
  lemma {:induction false} ModeAfterConcat(m: Mode, a: seq<string>, b: seq<string>)
    ensures ModeAfter(m, a + b) == ModeAfter(ModeAfter(m, a), b)
    decreases |b|
  {
    if b != [] {
      var front := b[..|b| - 1];
      assert (a + b)[..|a + b| - 1] == a + front;
      assert (a + b)[|a + b| - 1] == b[|b| - 1];
      ModeAfterConcat(m, a, front);
    } else {
      assert a + b == a;
    }
  }

  /** The number of empty lines among `p`. */
  function Blanks(p: seq<string>): nat
  {
    if p == [] then 0 else Blanks(p[..|p| - 1]) + (if p[|p| - 1] == "" then 1 else 0)
  }

  /** In commit mode the flags follow the empty lines: before the first, the header; after
      the first and up to the second, the message; after the second, neither. */
  lemma {:induction false} CommitModeAfter(p: seq<string>)
    ensures var m := ModeAfter(Initial(true), p);
      (Blanks(p) == 0 ==> m == Mode(true, false, false)) &&
      (Blanks(p) == 1 ==> m == Mode(false, true, false)) &&
      (Blanks(p) >= 2 ==> !m.inCommitHeader && !m.inCommitMsg)
    decreases |p|
  {
    if p != [] {
      CommitModeAfter(p[..|p| - 1]);
    }
  }

  /** In commit mode, every line up to and including the second empty line is a commit
      line: the header up to its closing empty line, then the message up to its own. */
  lemma CommitLines(lines: seq<string>, i: nat)
    requires i < |lines| && Blanks(lines[..i]) <= 1
    ensures StyleAt(Initial(true), lines, i) == CommitStyle
  {
    CommitModeAfter(lines[..i]);
  }

  /** After the empty line that ends the message, the rest is styled as a diff on its own. */
  lemma AfterCommitMessage(lines: seq<string>, k: nat, j: nat)
    requires k + 1 + j < |lines| && lines[k] == "" && Blanks(lines[..k]) == 1
    ensures StyleAt(Initial(true), lines, k + 1 + j) == StyleAt(Initial(false), lines[k + 1..], j)
  {
    var head, tail := lines[..k + 1], lines[k + 1..];
    assert head[..k] == lines[..k];
    CommitModeAfter(lines[..k]);
    assert Blanks(head) == 2;
    CommitModeAfter(head);
    assert ModeAfter(Initial(true), head) == Initial(false);
    assert lines[..k + 1 + j] == head + tail[..j];
    ModeAfterConcat(Initial(true), head, tail[..j]);
    assert lines[k + 1 + j] == tail[j];
  }

  /** Line `i` is inside a hunk: some earlier line opens one with '@' and every line after
      it up to line `i` continues it. */
  ghost predicate InHunk(lines: seq<string>, i: nat)
    requires i <= |lines|
  {
    exists j :: 0 <= j < i && Opens(lines[j], '@') &&
      forall k :: j < k < i ==> HunkLine(lines[k])
  }

  /** Outside commit mode the only flag is the hunk flag, and it says `InHunk`. */
  lemma {:induction false} DiffModeAfter(lines: seq<string>, i: nat)
    requires i <= |lines|
    ensures ModeAfter(Initial(false), lines[..i]) == Mode(false, false, InHunk(lines, i))
  {
    if i > 0 {
      DiffModeAfter(lines, i - 1);
      assert lines[..i][..i - 1] == lines[..i - 1];
      var line := lines[i - 1];
      if InHunk(lines, i) && !Opens(line, '@') {
        var j :| 0 <= j < i && Opens(lines[j], '@') && forall k :: j < k < i ==> HunkLine(lines[k]);
        assert j < i - 1;
        assert InHunk(lines, i - 1);
        assert HunkLine(line);
      }
      if Opens(line, '@') {
        assert InHunk(lines, i);
      } else if InHunk(lines, i - 1) && HunkLine(line) {
        var j :| 0 <= j < i - 1 && Opens(lines[j], '@') && forall k :: j < k < i - 1 ==> HunkLine(lines[k]);
        assert forall k :: j < k < i ==> HunkLine(lines[k]);
      }
    }
  }

  /** The diff styles: a line opening with '@' is a hunk header; inside a hunk '+', '-'
      and ' ' lines are added, removed and context lines and any other line, the empty
      one too, is a file line; outside a hunk every other line is a file line. */
  lemma DiffStyles(lines: seq<string>, i: nat)
    requires i < |lines|
    ensures var s, line := StyleAt(Initial(false), lines, i), lines[i];
      (Opens(line, '@') ==> s == HunkStyle) &&
      (InHunk(lines, i) && Opens(line, '+') ==> s == AddStyle) &&
      (InHunk(lines, i) && Opens(line, '-') ==> s == RemoveStyle) &&
      (InHunk(lines, i) && Opens(line, ' ') ==> s == NormalStyle) &&
      (!HunkLine(line) ==> s == FileStyle) &&
      (!InHunk(lines, i) && !Opens(line, '@') ==> s == FileStyle)
  {
    DiffModeAfter(lines, i);
  }
}
