/**
  The cleanup journal `state.txt`: one `KIND|PATH` line per artifact the
  staging step created. The plugin writes the kinds `ZIP` and `DIR`; when it
  reads a line back it splits at the first `|`, so the path may itself hold
  `|` characters, and a line without any `|` cannot be split at all.
*/
module Journal {
  import opened Wrappers

  /** Kind written for the downloaded archive. */
  const ZipKind: string := "ZIP"
  /** Kind written for the extraction directory; the only kind removed recursively. */
  const DirKind: string := "DIR"

  /** One parsed journal line: the text before the first `|`, and the text after it. */
  datatype Entry = Entry(kind: string, path: string)

  /** Index of the first `c` in `s`, or `|s|` when `s` has none. */
  function IndexOf(s: string, c: char): (r: nat)
    ensures r <= |s|
    ensures c !in s[..r]
    ensures r < |s| ==> s[r] == c
  {
    if s == [] then 0
    else if s[0] == c then 0
    else
      var r := 1 + IndexOf(s[1..], c);
      assert s[..r] == [s[0]] + s[1..][..r - 1];
      r
  }

  /**
    The line `save_state` writes for an entry: `f"{kind}|{path}"`. When the
    kind holds no `|`, the first `|` of the line is the separator.
  */
  function SerializeJournalLine(e: Entry): (r: string)
    ensures '|' !in e.kind ==> IndexOf(r, '|') == |e.kind|
  {
    var r := e.kind + "|" + e.path;
    assert r[..|e.kind|] == e.kind && r[|e.kind|] == '|';
    r
  }

  /**
    `kind, path = line.split("|", 1)`: fails (and the line is skipped) exactly
    when the line holds no `|`; otherwise the kind holds no `|` and the two
    parts, joined again by `|`, give back the line.
  */
  function ParseJournalLine(line: string): (r: Option<Entry>)
    ensures r.None? <==> '|' !in line
    ensures r.Some? ==> '|' !in r.value.kind && SerializeJournalLine(r.value) == line
  {
    var i := IndexOf(line, '|');
    if i == |line| then
      assert line[..i] == line;
      None
    else
      assert line == line[..i] + "|" + line[i + 1..];
      Some(Entry(line[..i], line[i + 1..]))
  }

  /** Parsing a written line recovers its kind and path, even a path holding `|`. */
  lemma ParseSerialize(e: Entry)
    requires '|' !in e.kind
    ensures ParseJournalLine(SerializeJournalLine(e)) == Some(e)
  {
    var line := SerializeJournalLine(e);
    var i := IndexOf(line, '|');
    assert line[|e.kind|] == '|';
    assert line[..|e.kind|] == e.kind;
    assert i == |e.kind|;
    assert line[i + 1..] == e.path;
  }

  /** The two lines `save_state(zip, dir)` appends, in order. */
  function SavedLines(zip: string, dir: string): (r: seq<string>)
    ensures |r| == 2
    ensures ParseJournalLine(r[0]) == Some(Entry(ZipKind, zip))
    ensures ParseJournalLine(r[1]) == Some(Entry(DirKind, dir))
  {
    ParseSerialize(Entry(ZipKind, zip));
    ParseSerialize(Entry(DirKind, dir));
    [SerializeJournalLine(Entry(ZipKind, zip)), SerializeJournalLine(Entry(DirKind, dir))]
  }
}
