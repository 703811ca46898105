# Staged search selections for a HexChat plugin, in Dafny

This project models the state machine at the heart of the HexChat plugin
`hexchat_plugins/ssclient.py` ("Search DCC Staged FZF"). A `/ss` search
brings back a zipped batch listing; after extraction, the listing's lines
(minus a six-line header) go through a picker and the chosen lines are
appended to `selections.txt`, while the archive and the extraction
directory are recorded in the cleanup journal `state.txt`. `/se` lets the
user edit the staged lines, `/sd` commits them (timestamped into the capped
`history.txt`, then each line is sent to the channel) and `/sc` discards
them. Both end in `cleanup_all`, which replays the journal to delete the
recorded paths and then deletes the selections file and the journal.

Modules:

- `LineText` (`line_text.dfy`): Python's `str.splitlines()`, fzf's
  newline-terminated output, `"\n".join(lines) + "\n"`, the `[6:]` header
  skip, and the proofs that every write the plugin makes reads back as the
  lines it intended. That is why the stores below hold lines, not text.
- `Journal` (`journal.dfy`): the `KIND|PATH` line format, with
  `split("|", 1)` as a parser and the round trip between the two.
- `Cleanup` (`cleanup.dfy`): the disk as a map from path to file or
  directory, one journal line's deletion (`rmtree` for `DIR`, `unlink` for
  any other kind; failures and missing paths skip the line), the whole
  journal, and what a cleanup removes, leaves and may safely repeat.
- `History` (`history.txt` logic, `history.dfy`): the reversed, timestamped,
  fifty-line-capped log update.
- `Staging` (`staging.dfy`): the class `StateDir` holding the three stores,
  the disk and the (ghost) sequence of lines sent, with one method per
  transition, and two client methods that run a stage-then-commit.

Each store is `Absent` (no file) or `Present(lines)`; a missing file reads as
no lines, as in the source. The clock (`strftime`), the picker's choice, the
listing text and the picker's review output are parameters.

A listing with six lines or fewer makes `launch_fzf` return before
`save_state`, so that batch's archive and extraction directory are never
journalled and no later cleanup removes them; `Stage` states this as
"journal unchanged when nothing was staged".

## Model

| member | source | states |
|---|---|---|
| `LineText.SplitLines` | hexchat_plugins/ssclient.py:133 | the lines `splitlines()` yields hold no line break, and only empty text has no lines |
| `LineText.SkipHeader` | hexchat_plugins/ssclient.py:92-95 | `[6:]` drops exactly the first six lines: its length is `max(0, n-6)` and its i-th line is the listing's (6+i)-th |
| `LineText.HeaderSkipped` | hexchat_plugins/ssclient.py:92-95 | a listing made of six header lines and a body offers exactly the body's lines |
| `LineText.SplitAfterTerminated` | hexchat_plugins/ssclient.py:105-108 | newline-terminated lines re-read one for one in front of whatever text follows them |
| `LineText.TerminatedAppend` | hexchat_plugins/ssclient.py:108 | appending terminated output to terminated text is the terminated concatenation |
| `LineText.AppendReadsBack` | hexchat_plugins/ssclient.py:105-108 | after `>>` appends the picker's lines, the selections file reads as the old lines followed by the picked ones |
| `LineText.Terminated` | hexchat_plugins/ssclient.py:108 | fzf's output for some lines is empty only when no line was printed, and otherwise ends in a newline, so the next append starts a fresh line |
| `LineText.Join` | hexchat_plugins/ssclient.py:159 | for a non-empty list, `"\n".join(x)` is the newline-terminated text of x without its last newline |
| `LineText.WriteText` | hexchat_plugins/ssclient.py:185 | `"\n".join(x) + "\n"` always ends in a newline and, for a non-empty list, is the newline-terminated text of x |
| `LineText.WriteReadsBack` | hexchat_plugins/ssclient.py:159 | a non-empty list written with `"\n".join(x) + "\n"` reads back as exactly x |
| `LineText.EmptyWriteReadsBlank` | hexchat_plugins/ssclient.py:158-159 | writing an empty list that way would read back as one blank line, which the non-empty guard avoids |
| `Journal.ParseJournalLine` | hexchat_plugins/ssclient.py:223 | splitting fails exactly when the line has no `\|`; otherwise the kind has no `\|` and kind, `\|`, path rebuild the line |
| `Journal.SerializeJournalLine` | hexchat_plugins/ssclient.py:213-214 | in `f"{kind}\|{path}"` with a kind free of `\|`, the first `\|` of the line is the separator, whatever the path holds |
| `Journal.ParseSerialize` | hexchat_plugins/ssclient.py:211-214 | a written `KIND\|PATH` line parses back to its kind and path, even when the path holds `\|` |
| `Journal.SavedLines` | hexchat_plugins/ssclient.py:211-214 | `save_state` writes two lines, parsing to (`ZIP`, zip) and then (`DIR`, dir) |
| `Cleanup.ApplyLine` | hexchat_plugins/ssclient.py:222-231 | one iteration only removes paths; a line that cannot be split, names a missing path, or whose deletion would raise (`rmtree` on a file, `unlink` on a directory) leaves the disk unchanged; otherwise it removes only what the line's deletion covers; afterwards the line is done with: its path gone, or a node its deletion fails on |
| `Cleanup.ApplyJournal` | hexchat_plugins/ssclient.py:220-231 | the journal loop only ever removes paths: the disk after it is a part of the disk before, every node unchanged |
| `Cleanup.OnlyJournalPathsRemoved` | hexchat_plugins/ssclient.py:220-231 | every removed path is named by a journal line whose deletion goes through on the original disk (its path exists there with the kind the deletion needs): it is that line's path, or lies beneath it for a `DIR` line |
| `Cleanup.JournalSettled` | hexchat_plugins/ssclient.py:220-231 | after the loop, every parsable line's path is gone unless its deletion fails there (`DIR` on a file, other kinds on a directory) |
| `Cleanup.GoneDirectoryEmptied` | hexchat_plugins/ssclient.py:226-227 | whenever a directory of the original disk is gone after the loop, everything beneath it is gone too |
| `Cleanup.DirContentsGone` | hexchat_plugins/ssclient.py:220-231 | for any `DIR` line anywhere in the journal that names a directory, that directory and everything beneath it are gone after the loop |
| `Cleanup.JournalReplay` | hexchat_plugins/ssclient.py:220-231 | replaying a journal on a disk it was already applied to (or any part of one) changes nothing |
| `Cleanup.ResumeCleanup` | hexchat_plugins/ssclient.py:219-234 | a cleanup interrupted after any number of lines, rerun from the start, gives the same disk as an uninterrupted one |
| `Cleanup.SavedArtifactsRemoved` | hexchat_plugins/ssclient.py:220-231 | the two saved lines remove the archive and the extraction directory with everything beneath it, and nothing else |
| `History.Reversed` | hexchat_plugins/ssclient.py:183 | `reversed(s)` has s's length and holds s's last element first |
| `History.Stamped` | hexchat_plugins/ssclient.py:183 | the comprehension yields one line per input line, in order, each the timestamp, a space and that line |
| `History.Take` | hexchat_plugins/ssclient.py:184 | `[:50]` keeps at most fifty lines: the whole list when it is short enough, else the first fifty, which followed by the cut-off rest give back the list |
| `History.CombineHistory` | hexchat_plugins/ssclient.py:182-185 | the new log has `min(50, staged + old)` lines: the staged lines newest first, each prefixed with the timestamp, then the old log in order |
| `History.CombineTwice` | hexchat_plugins/ssclient.py:182-185 | two commits give the log one commit of the later batch, then the earlier one, then the old log, would give, capped once |
| `History.LargeBatchReplacesLog` | hexchat_plugins/ssclient.py:183-184 | a batch of fifty or more lines leaves only stamped lines of that batch in the log |
| `Staging.StateDir.SaveState` | hexchat_plugins/ssclient.py:211-214 | the journal gains exactly the two saved lines after its earlier lines, and the appended file reads back as them when no line holds a line break; nothing else changes |
| `Staging.StateDir.Stage` | hexchat_plugins/ssclient.py:91-121 | stages iff the listing has lines after its header; then the selections become the old ones followed by the picked ones (file created even if none were picked), and the journal gains the two lines only when both archive and directory are given; otherwise nothing changes; the appended selections file, and the appended journal when written, read back as the new lines when no line holds a line break |
| `Staging.StateDir.Review` | hexchat_plugins/ssclient.py:128-162 | replaces the selections iff they were non-empty and the picker's output exists and has lines; the replacement is exactly those lines and reads back as them; otherwise nothing changes |
| `Staging.StateDir.WriteHistory` | hexchat_plugins/ssclient.py:180-185 | the history becomes the combined log of the old log and the committed lines, and the rewritten file reads back as it when its lines hold no line break |
| `Staging.StateDir.SendAll` | hexchat_plugins/ssclient.py:188-190 | the lines are sent one after another in file order |
| `Staging.StateDir.CleanupAll` | hexchat_plugins/ssclient.py:219-234 | the disk becomes the journal's effect on it, and the selections file and the journal are both absent afterwards, whatever they were |
| `Staging.StateDir.Commit` | hexchat_plugins/ssclient.py:167-198 | with no staged lines nothing changes; otherwise the history is the combined log, exactly the staged lines are sent in order, and the cleanup runs; the rewritten history file reads back as the new log when no line holds a line break |
| `Staging.StateDir.Discard` | hexchat_plugins/ssclient.py:203-206 | exactly the cleanup: no history write and no sends |
| `Staging.CleanupTwice` | hexchat_plugins/ssclient.py:219-234 | two cleanups in a row end in the state one cleanup reaches |

## Left out

- HexChat itself (`hexchat.command`, `hexchat.prnt`, `hook_command`, the `/ss` command that sends the search): foreign calls; a `say` is recorded in the ghost sequence `sent`, notices are not modelled.
- Threads (the zip waiter, the send worker, background cleanup) and the 0.5 s pause between sends: commit and cleanup are modelled as running to completion without interleaving, so the race between `/se` and a running commit is not captured.
- `wait_for_zip` and `handle_zip` (polling, timeout, extraction, finding the `.txt` file): the listing text and the archive and directory paths are inputs to `Stage`.
- The kitty/fzf processes and their temporary files: the picker's chosen lines and the review output file's text (or its absence) are inputs.
- `datetime.now().strftime(...)`: the timestamp is an input.
- Text decoding (`errors="ignore"`) and platform newline translation: files are sequences of characters on Linux; universal-newline reading gives the same lines as `splitlines()` on the raw text.
- Path semantics: paths are compared as strings (no `Path` normalisation, no `""` meaning `.`, no symlinks); a directory's contents are the paths with the directory and `/` as prefix.
- The state directory itself: `selections.txt`, `state.txt` and `history.txt` are kept outside the disk map, so journalled paths are assumed disjoint from the state directory (`DOWNLOAD_DIR/state`) and its files. A `DIR` line naming that directory or one of its ancestors would delete the stores in the source, while `CleanupAll`, `Commit`, `Discard` and `CleanupTwice` keep the history unchanged. The plugin's own lines never name such a path (extraction directories are `*_extracted` siblings of their archives), but `Stage` accepts any archive and directory strings.
- Partial failures inside one deletion (a permission error half-way through `rmtree`): a failing line is modelled as removing nothing.
- Lines and paths containing line breaks, in any of the three stores: the stores are modelled at line level, so such a picked line, journal path or history line is one entry here but several in the file. `SaveState`, `Stage`, `Review` and `Commit` prove that the file reads back as the stored lines when no line holds a break.
- The history store's absence is not observable after a commit (the file is always written); before one, a missing history reads as an empty log.
