/**
  How the plugin's text files turn into lines and back.

  Every store is read with Python's `str.splitlines()` and written either by
  appending newline-terminated lines (fzf's output through `>>`, and the two
  journal lines `save_state` writes in append mode) or with
  `"\n".join(lines) + "\n"`. This module models those three operations on
  `seq<char>` and proves that what the plugin writes reads back as the lines
  it meant to write, which is why the stores can be modelled as line lists.
*/
module LineText {

  /** The characters at which `str.splitlines()` ends a line ("\r\n" counts once). */
  predicate IsLineBreak(c: char) {
    c == '\n' || c == '\r' || c == '\U{0B}' || c == '\U{0C}' ||
    c == '\U{1C}' || c == '\U{1D}' || c == '\U{1E}' || c == '\U{85}' ||
    c == '\U{2028}' || c == '\U{2029}'
  }

  /** A line that `splitlines()` would leave whole. */
  predicate BreakFree(s: string) {
    forall k :: 0 <= k < |s| ==> !IsLineBreak(s[k])
  }

  /** Index of the first line break in `s`, or `|s|` when there is none. */
  function FirstBreak(s: string): (r: nat)
    ensures r <= |s|
    ensures BreakFree(s[..r])
    ensures r < |s| ==> IsLineBreak(s[r])
  {
    if s == [] then 0
    else if IsLineBreak(s[0]) then 0
    else
      var r := 1 + FirstBreak(s[1..]);
      assert s[..r] == [s[0]] + s[1..][..r - 1];
      r
  }

  /** Width of the break at `i`: two for "\r\n", one otherwise. */
  function BreakWidth(s: string, i: nat): nat
    requires i < |s|
  {
    if s[i] == '\r' && i + 1 < |s| && s[i + 1] == '\n' then 2 else 1
  }

  /**
    Python's `s.splitlines()`: the lines of `s` without their terminators;
    a final terminator does not start an empty last line, and "" has no lines.
  */
  function SplitLines(s: string): (r: seq<string>)
    ensures forall l | l in r :: BreakFree(l)
    ensures s == [] <==> r == []
    decreases |s|
  {
    if s == [] then []
    else
      var i := FirstBreak(s);
      if i == |s| then
        assert s[..i] == s;
        [s]
      else
        [s[..i]] + SplitLines(s[i + BreakWidth(s, i)..])
  }

  /**
    The text fzf appends for the lines it prints: every line followed by
    "\n". It is empty only for no lines and otherwise ends in a newline, so
    the next append starts a fresh line.
  */
  function Terminated(lines: seq<string>): (r: string)
    ensures r == [] <==> lines == []
    ensures lines != [] ==> r[|r| - 1] == '\n'
  {
    if lines == [] then "" else lines[0] + "\n" + Terminated(lines[1..])
  }

  /**
    Python's `"\n".join(lines)`: for a non-empty list, exactly the
    terminated text without its final newline.
  */
  function Join(lines: seq<string>): (r: string)
    ensures lines != [] ==> r + "\n" == Terminated(lines)
  {
    if lines == [] then ""
    else if |lines| == 1 then lines[0]
    else lines[0] + "\n" + Join(lines[1..])
  }

  /**
    What `path.write_text("\n".join(lines) + "\n")` leaves in the file: it
    always ends in a newline and, for a non-empty list, is the terminated text.
  */
  function WriteText(lines: seq<string>): (r: string)
    ensures r != [] && r[|r| - 1] == '\n'
    ensures lines != [] ==> r == Terminated(lines)
  {
    Join(lines) + "\n"
  }

  /** The number of boilerplate lines at the head of a batch listing. */
  const HeaderLines: nat := 6

  /** `lines[6:]`: the listing's candidate lines, after the header. */
  function SkipHeader(lines: seq<string>): (r: seq<string>)
    ensures |r| == if |lines| <= HeaderLines then 0 else |lines| - HeaderLines
    ensures forall i :: 0 <= i < |r| ==> r[i] == lines[HeaderLines + i]
  {
    if |lines| <= HeaderLines then [] else lines[HeaderLines..]
  }

  /** The first break of a break-free line followed by "\n" is that "\n". */
  lemma FirstBreakAfterLine(x: string, tail: string)
    requires BreakFree(x)
    ensures FirstBreak(x + "\n" + tail) == |x|
  {
    var s := x + "\n" + tail;
    var i := FirstBreak(s);
    assert s[|x|] == '\n';
    assert s[..|x|] == x;
  }

  /** One step of `SplitLines` over a break-free line and its "\n". */
  lemma SplitFirstLine(x: string, tail: string)
    requires BreakFree(x)
    ensures SplitLines(x + "\n" + tail) == [x] + SplitLines(tail)
  {
    var s := x + "\n" + tail;
    FirstBreakAfterLine(x, tail);
    assert BreakWidth(s, |x|) == 1;
    assert s[..|x|] == x;
    assert s[|x| + 1..] == tail;
  }

  /** Terminated lines read back one for one, whatever text follows them. */
  lemma {:induction false} SplitAfterTerminated(head: seq<string>, rest: string)
    requires forall l | l in head :: BreakFree(l)
    ensures SplitLines(Terminated(head) + rest) == head + SplitLines(rest)
    decreases |head|
  {
    if head != [] {
      var x := head[0];
      assert x in head;
      var tail := Terminated(head[1..]) + rest;
      calc {
        SplitLines(Terminated(head) + rest);
        { assert Terminated(head) + rest == x + "\n" + tail; }
        SplitLines(x + "\n" + tail);
        { SplitFirstLine(x, tail); }
        [x] + SplitLines(tail);
        { SplitAfterTerminated(head[1..], rest); }
        [x] + (head[1..] + SplitLines(rest));
        { assert head == [x] + head[1..]; }
        head + SplitLines(rest);
      }
    } else {
      assert Terminated(head) + rest == rest;
    }
  }

  /** Appending terminated lines to terminated text concatenates the line lists. */
  lemma {:induction false} TerminatedAppend(a: seq<string>, b: seq<string>)
    ensures Terminated(a + b) == Terminated(a) + Terminated(b)
    decreases |a|
  {
    if a != [] {
      assert a + b != [];
      assert (a + b)[0] == a[0];
      assert (a + b)[1..] == a[1..] + b;
      TerminatedAppend(a[1..], b);
      calc {
        Terminated(a + b);
        (a + b)[0] + "\n" + Terminated((a + b)[1..]);
        a[0] + "\n" + Terminated(a[1..] + b);
        a[0] + "\n" + (Terminated(a[1..]) + Terminated(b));
        (a[0] + "\n" + Terminated(a[1..])) + Terminated(b);
        Terminated(a) + Terminated(b);
      }
    } else {
      assert a + b == b;
    }
  }

  /**
    Appending fzf's output to a selections file the plugin wrote reads back
    as the old lines followed by the chosen ones: nothing earlier is lost.
  */
  lemma AppendReadsBack(staged: seq<string>, picked: seq<string>)
    requires forall l | l in staged :: BreakFree(l)
    requires forall l | l in picked :: BreakFree(l)
    ensures SplitLines(Terminated(staged) + Terminated(picked)) == staged + picked
  {
    SplitAfterTerminated(staged, Terminated(picked));
    SplitAfterTerminated(picked, "");
    assert Terminated(picked) + "" == Terminated(picked);
    assert picked + [] == picked;
  }

  /** A non-empty list written with `"\n".join(..) + "\n"` reads back unchanged. */
  lemma WriteReadsBack(lines: seq<string>)
    requires lines != []
    requires forall l | l in lines :: BreakFree(l)
    ensures SplitLines(WriteText(lines)) == lines
  {
    SplitAfterTerminated(lines, "");
    assert Terminated(lines) + "" == Terminated(lines);
    assert lines + [] == lines;
  }

  /**
    Writing an EMPTY list this way leaves a single newline, which reads back
    as one blank line: the reason the plugin only writes non-empty lists.
  */
  lemma EmptyWriteReadsBlank()
    ensures SplitLines(WriteText([])) == [""]
  {
  }

  /** A listing whose six header lines are terminated offers exactly its body's lines. */
  lemma HeaderSkipped(header: seq<string>, body: string)
    requires |header| == HeaderLines
    requires forall l | l in header :: BreakFree(l)
    ensures SkipHeader(SplitLines(Terminated(header) + body)) == SplitLines(body)
  {
    SplitAfterTerminated(header, body);
    var all := header + SplitLines(body);
    assert all[HeaderLines..] == SplitLines(body);
  }
}
