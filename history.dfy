/**
  The flat history log `history.txt` that a commit rewrites: the committed
  lines, newest first and each prefixed with the commit's timestamp, in front
  of the previous log, the whole cut to its first fifty lines.
*/
module History {

  /** The number of lines the log keeps. */
  const HistoryCap: nat := 50

  function Min(a: int, b: int): int {
    if a <= b then a else b
  }

  /** `list(reversed(s))`. */
  function Reversed(s: seq<string>): (r: seq<string>)
    ensures |r| == |s|
    ensures forall i :: 0 <= i < |s| ==> r[i] == s[|s| - 1 - i]
  {
    if s == [] then [] else [s[|s| - 1]] + Reversed(s[..|s| - 1])
  }

  /** The history line for one committed line: `f"{timestamp} {line}"`. */
  function StampLine(timestamp: string, line: string): string {
    timestamp + " " + line
  }

  /** `[f"{timestamp} {line}" for line in lines]`. */
  function Stamped(timestamp: string, lines: seq<string>): (r: seq<string>)
    ensures |r| == |lines|
    ensures forall i :: 0 <= i < |lines| ==> r[i] == StampLine(timestamp, lines[i])
  {
    if lines == [] then [] else [StampLine(timestamp, lines[0])] + Stamped(timestamp, lines[1..])
  }

  /** Python's `s[:n]` for `n >= 0`: at most `n` lines, the rest of `s` is what it cut off. */
  function Take(s: seq<string>, n: nat): (r: seq<string>)
    ensures |r| <= n
    ensures |s| <= n ==> r == s
    ensures |s| > n ==> |r| == n && r + s[n..] == s
  {
    if |s| <= n then s else s[..n]
  }

  /** `(new_history + history_lines)[:50]` with `new_history` the stamped, reversed selections. */
  function CombineHistory(timestamp: string, selections: seq<string>, log: seq<string>): (r: seq<string>)
    ensures |r| == Min(HistoryCap, |selections| + |log|)
    ensures forall i :: 0 <= i < |r| && i < |selections| ==>
      r[i] == StampLine(timestamp, selections[|selections| - 1 - i])
    ensures forall i :: |selections| <= i < |r| ==> r[i] == log[i - |selections|]
  {
    Take(Stamped(timestamp, Reversed(selections)) + log, HistoryCap)
  }

  /**
    Two commits in a row give the log one commit of both batches would
    give, the later batch first: the cap only ever drops the oldest lines.
  */
  lemma CombineTwice(t1: string, s1: seq<string>, t2: string, s2: seq<string>, log: seq<string>)
    ensures CombineHistory(t2, s2, CombineHistory(t1, s1, log)) ==
      Take(Stamped(t2, Reversed(s2)) + Stamped(t1, Reversed(s1)) + log, HistoryCap)
  {
  }

  /** A batch of fifty or more lines leaves none of the earlier log. */
  lemma LargeBatchReplacesLog(timestamp: string, selections: seq<string>, log: seq<string>)
    requires |selections| >= HistoryCap
    ensures forall line :: line in CombineHistory(timestamp, selections, log) ==>
      exists s :: s in selections && line == StampLine(timestamp, s)
  {
  }
}
