# mx2md: Memorix backup to Markdown, with incremental sync

`mx2md.py` turns the notes of a Memorix backup into a folder of Markdown
files. A ledger (`sync_db.json`) records every written note's id, path and
modification time. On later runs the converter rewrites only notes that
changed or whose file is missing, and it deletes Markdown files the ledger does not name.

This project models that core in Dafny and proves properties of the model.
The modules follow the converter's parts:

- `Results` holds the `Option` and `Result` types.
- `Text` models the string helpers the converter uses:
  - `str.strip`, with Python's whitespace set;
  - `str.lower`, over ASCII;
  - `str(int)`;
  - `os.path.join`, in its POSIX form;
  - the `.md` suffix test.
- `Flags` covers `test_bit`, the five state predicates and the font-size table.
- `Notes` covers the `Note` class: title, category, rendered content, folder and file name. `FromEntry` builds a whole note, or returns the error the converter would raise.
- `Paths` is the collision-free name search of the per-note loop.
- `Ledger` covers the ledger lookup, the add/update/skip step and the deletion sweep.
- `Stamps` covers the file timestamps that `set_original_timestamp` sets.
- `Reconcile` models one whole run. The per-note loop is split into three passes:
  - convert the entries up to the first one that fails;
  - allocate their paths;
  - perform the sync steps.

  The sweep follows these passes. Converting an entry depends only on the entry, the category table and the switches, and a path allocation depends only on the earlier allocations. So the three passes give the same result as the interleaved loop.

Inputs and outputs are modelled as follows:

- Backup entries and the category table arrive already decoded.
- The disk is a map from path to stored file, holding the text and the access and modification times.
- Times are integer milliseconds.
- The command-line switches form a `Config` value.

The model follows the code as written on points where an idealised sync
would behave differently:

- The note id is `sections[0].id`.
- The `ignore_trash` and `ignore_archive` switches only change the folder a note goes to. They never skip a note.
- The ledger is never pruned.
- Two entries may share `sections[0].id`. The converter is then not idempotent: the second entry's step can lower the ledger `mtime` the first one set, so the next run rewrites the first note, even in safe mode. The whole-run lemmas therefore assume distinct ids.
- The sweep compares listed files against the paths in the ledger, not against the paths allocated in this run.
- An update changes only the ledger entry's `mtime`, and a written file gets the note's creation time as its modification time. This is `Policy.AsWritten`. `Policy.Corrected` fixes both defects: the update also records the new path, and the file is stamped with the note's last edit (see Findings). Every run of the model takes the policy as a parameter.

## Model

| member | source | states |
|---|---|---|
| Flags.TestBitFromBits | mx2md.py:185-194 | `test_bit(x, k)` is true exactly when binary digit `k` of `x` is one; bits past the last digit read as zero |
| Flags.TestBitComplement | mx2md.py:190-191 | on negative flag words `test_bit` reads Python's two's complement: bit `k` of `~x` is the opposite of bit `k` of `x` |
| Flags.FlagPredicatesFromBits | mx2md.py:41-54 | trashed, list, checked-to-bottom, pinned and archived each read exactly bit 1, 2, 4, 10 and 12 respectively |
| Flags.FontSizeOf | mx2md.py:56-70 | each font size holds exactly when its combination of bits 5, 6 and 7 holds: bit 7 means Tiny whatever the others, then (5,¬6) Large, (¬5,6) Huge, (5,6) Small, neither Normal |
| Flags.FontSizeFromBits | mx2md.py:56-70 | the font size of a flags word depends on bits 5, 6 and 7 only, and follows the table on the binary digits |
| Text.Trim | mx2md.py:30-31 | `strip()` yields the middle of the string between two all-whitespace runs, starting and ending in non-whitespace, and is empty exactly for all-whitespace strings |
| Text.Lower | mx2md.py:349-354 | `lower()` keeps the length and lowers each character in place, over ASCII letters only |
| Text.NatToStringRoundTrip | mx2md.py:85 | the decimal text of a count reads back as the same count |
| Text.IntToStringRoundTrip | mx2md.py:33 | `str(order)` carries a minus sign exactly for negative orders and its digits read back as the order's magnitude |
| Text.Join | mx2md.py:109-115 | `os.path.join(a, b)` ends with `b`; an absolute `b` replaces `a`, otherwise the result starts with `a` |
| Text.MarkdownEndsWith | mx2md.py:211-219 | a path is a Markdown file exactly when it ends in `.md`, the extension the file listing filters on |
| Notes.TitleOf | mx2md.py:29-33 | the title is the stripped title when present and not blank, otherwise `Note <order>`; it is never empty |
| Notes.CategoryOf | mx2md.py:78-81 | the category is the title of the first table row with the note's colour, and there is none exactly when no row has that colour |
| Notes.AttachmentBlock | mx2md.py:84-89 | the attachment block is empty exactly when there are no attachments, otherwise a counted header followed by one embed line per attachment |
| Notes.EmbedsAppend | mx2md.py:86-87 | the embed lines are written attachment by attachment, so the embeds of two runs of attachments are the concatenation of their embeds |
| Notes.ChecklistAppend | mx2md.py:96-101 | a checklist renders section by section, so the rendering of two runs of sections is the concatenation of their renderings |
| Notes.GroceryChecklist | mx2md.py:96-101 | a three-item checklist renders with `- [x] ` for checked and `- [ ] ` for unchecked items, one line each, in order |
| Notes.ContentShape | mx2md.py:83-102 | a note whose first section is not checkable renders as that section's text plus the attachment block; a checkable one as the checklist of all its sections plus the attachment block; a one-item checklist without attachments is its single line |
| Notes.SaveDir | mx2md.py:107-115 | the folder is `dest/Trash/<category>` when trashed, separated and not ignored; otherwise `dest/Archive/<category>` when archived, separated and not ignored; otherwise `dest/<category>` |
| Notes.TrashRouting | mx2md.py:108-111 | trash takes precedence over archive, and ignoring the trash sends a trashed and archived note to the archive folder |
| Notes.SharedFolderUnlessSeparated | mx2md.py:107-115 | without the two separate switches every note of a category shares one folder, whatever its flags |
| Notes.KeepAllowed | mx2md.py:120 | the character filter keeps exactly the allowed characters of the title and nothing else |
| Notes.KeepAllowedOne | mx2md.py:120 | a single character is kept exactly when it is allowed |
| Notes.KeepAllowedAppend | mx2md.py:120 | the filter works character by character: filtering a concatenation is concatenating the filtered parts, so kept characters stay in order and keep their count |
| Notes.KeepAllowedIdentity | mx2md.py:120 | a title of allowed characters passes the filter unchanged |
| Notes.NameMiddle | mx2md.py:120-122 | the middle of the name is the stripped filtered title, or `Note <order>` when that is empty; it is non-empty, starts with a non-space and holds only allowed characters |
| Notes.FileNameOf | mx2md.py:117-124 | the file name is the creation day, a space, and the first at most fifty characters of the middle; every character after the day is allowed and the first is not a space |
| Notes.FromEntry | mx2md.py:12-36 | an entry without sections fails, and so does an entry whose colour has no category; otherwise the note carries the first section's id, the entry's times and the title, content, category, folder and file name above |
| Paths.KeyInjective | mx2md.py:349-350 | two different attempts of the name search never give the same lower-cased path |
| Paths.FirstFree | mx2md.py:346-355 | the search terminates, because the used names not yet ruled out shrink at each taken attempt, and it stops at a free attempt with all earlier ones taken |
| Paths.ChosenIsFirst | mx2md.py:346-355 | the chosen attempt is the first free one: no later than any free attempt, and equal to a free attempt preceded only by taken ones |
| Paths.Allocate | mx2md.py:346-355 | the chosen path is the chosen candidate, its lower-cased form was not used yet, and the used list grows by exactly that lower-cased path |
| Paths.AllocatePath | mx2md.py:344-355 | the `while True` loop computes the same path and used list as `Allocate` |
| Paths.CandidateText | mx2md.py:344-350 | the candidates are `stem.md`, then `stem 1.md`, `stem 2.md`, and so on, joined to the folder |
| Paths.CandidateExtension | mx2md.py:344-350 | every candidate path ends in `.md` |
| Paths.SameNameTwice | mx2md.py:344-355 | two notes with the same day and title in the same folder get `D Tea.md` and then `D Tea 1.md` |
| Ledger.Lookup | mx2md.py:363-373 | the lookup finds the first entry with the note's id, and finds nothing exactly when no entry has it |
| Ledger.LookupAppend | mx2md.py:169-170 | appending an entry hides no earlier entry, and a new id is found at the appended position |
| Ledger.Step | mx2md.py:357-378 | an unknown id is written and appended; a known id whose entry is older or whose file is gone is written and has only that entry's `mtime` bumped (under `AsWritten`); anything else changes nothing |
| Ledger.StepKeeps | mx2md.py:357-378 | a step keeps every entry's id, grows the ledger by at most one, removes no file, leaves the note's file present, and makes its id known; under `AsWritten` no entry's path changes |
| Ledger.StepIdempotent | mx2md.py:363-373 | repeating a step with the same note skips it and changes nothing |
| Ledger.StepUniqueIds | mx2md.py:357-378 | a ledger with one entry per id keeps one entry per id |
| Ledger.Sweep | mx2md.py:401-413 | a file is removed exactly when it is a `.md` file, no ledger entry names its exact path and safe mode is off; kept files are unchanged, and safe mode removes nothing |
| Ledger.SweepIdempotent | mx2md.py:401-413 | sweeping twice against the same ledger removes nothing more |
| Stamps.StampAsWrittenLosesEdits | mx2md.py:228-229 | as written, the file's modification time becomes the note's creation time, which can order two files against their notes' edits |
| Stamps.Stamp | mx2md.py:228-229 | the corrected stamp gives the file the note's modification time |
| Stamps.StampKeepsEditOrder | mx2md.py:228-229 | with the corrected stamp, files order by modification time exactly as their notes order by last edit |
| Stamps.WrittenAsWritten | mx2md.py:126-129 | as written, writing a note stores its rendered content, accessed at the note's modification time and modified at its creation time |
| Stamps.Written | mx2md.py:126-129 | the corrected write stores the rendered content with the note's last edit as its modification time |
| Ledger.WriteNote | mx2md.py:126-129 | the file a write leaves holds the note's text; as written it is modified at the note's creation time, corrected at its last edit |
| Reconcile.Prefix | mx2md.py:328-331 | the loop gets through the conversions before the first failure, each of which succeeded, and stops at that failure, or gets through all of them |
| Reconcile.PlaceCarries | mx2md.py:328-378 | each placed item carries its note's id, rendered text and times, in order, and its path is the one the name search hands its note's folder and file name after the names used before it |
| Reconcile.PlaceMarkdown | mx2md.py:344-355 | every allocated path is a Markdown file |
| Reconcile.PlaceKeys | mx2md.py:346-355 | the used list ends up as the lower-cased paths of the run, none of them used before and no two equal |
| Reconcile.PlanOfEntries | mx2md.py:328-355 | the planned items are the first entries' notes in order, each carrying the entry's id, rendered text and times, each at the path the name search hands the entry's folder and dated file name after the earlier entries' paths, all of them Markdown paths |
| Reconcile.PlanCrash | mx2md.py:328-331 | a run stops exactly when some entry cannot be converted, at the first such entry, with its error |
| Reconcile.RunPathsDistinct | mx2md.py:346-355 | no two notes of a run receive paths that are equal up to case |
| Reconcile.Apply | mx2md.py:357-378 | the steps give one action per note, keep every ledger entry's id, remove no file and leave every note's path on disk |
| Reconcile.Writes | mx2md.py:367-377 | a run writes nothing exactly when it skips every note |
| Reconcile.Execute | mx2md.py:393-413 | a run crashes exactly when the plan does; otherwise, after the sweep without safe mode, every remaining `.md` file is named in the ledger |
| Reconcile.SyncRun | mx2md.py:324-413 | a run over a backup crashes exactly when some entry cannot be converted; otherwise it has one action per entry and keeps every ledger id |
| Reconcile.StepOther | mx2md.py:363-378 | a step for a note with another id leaves this note's lookup and ledger entry alone, keeps it up to date if it was, and keeps it recorded at its path if it was |
| Reconcile.StepSelf | mx2md.py:363-378 | after its own step a note is up to date, and it is recorded at its path when it was added, or updated under `Corrected` |
| Reconcile.ApplyOthers | mx2md.py:363-378 | the steps for other notes keep a note up to date and recorded |
| Reconcile.ApplyLeavesCurrent | mx2md.py:357-378 | with distinct ids every note is up to date after the steps, and every note whose step recorded its path stays recorded |
| Reconcile.ApplyOtherPaths | mx2md.py:367-378 | steps for notes at other paths leave a note's file alone |
| Reconcile.ApplyWritesFiles | mx2md.py:367-378 | with distinct paths every note a step wrote still holds its file after all the steps |
| Reconcile.ApplyCurrentIsNoop | mx2md.py:363-373 | when every note is up to date the steps skip all of them and change nothing |
| Reconcile.ApplyIdempotent | mx2md.py:357-378 | with distinct ids, repeating the steps with the same notes writes nothing and changes nothing |
| Reconcile.ApplyFresh | mx2md.py:375-378 | with distinct ids, notes whose ids the ledger has never seen are all added |
| Reconcile.PlanDistinctIds | mx2md.py:36 | entries with distinct first-section ids give notes with distinct ids |
| Reconcile.PlanDistinctPaths | mx2md.py:346-355 | the notes of a run get distinct paths |
| Reconcile.ExecuteStable | mx2md.py:357-413 | with distinct ids, after a run whose notes all ended up named in the ledger, or in safe mode, executing the same plan again writes nothing and changes nothing |
| Reconcile.ExecuteKeepsWritten | mx2md.py:367-413 | under `Corrected`, with distinct ids and distinct paths, every file a run writes survives the sweep with what was written |
| Reconcile.ExecuteFirstRun | mx2md.py:375-378 | from an empty ledger, with distinct ids, every note is added and its path is named in the ledger |
| Reconcile.ExecuteFirstRunHolds | mx2md.py:375-413 | from an empty ledger, with distinct ids and distinct paths, every planned note's file survives the sweep, holding what writing it produced under the policy |
| Reconcile.FirstRunFiles | mx2md.py:344-413 | from an empty ledger, when every entry converts and the entries' ids are distinct, every note's file is on disk after the run, at the path the name search hands its entry, with its rendered text and the policy's timestamps, so as written it is modified at the note's creation time |
| Reconcile.SyncStable | mx2md.py:324-413 | for entries with distinct ids, a second run over the same backup, after a run whose notes all ended up named in the ledger, writes nothing and changes nothing |
| Reconcile.SafeModeStable | mx2md.py:407 | in safe mode, when every entry converts and the entries' ids are distinct, the run completes and a second run over the same backup writes nothing |
| Reconcile.FirstRunStable | mx2md.py:375-378 | when every entry converts and the entries' ids are distinct, a run from an empty ledger completes and adds every note, and the run after it writes nothing, under either policy |
| Reconcile.WrittenNotesSurvive | mx2md.py:363-413 | when every entry converts and the entries' ids are distinct the run completes, and under `Corrected` every note it writes is on disk after the sweep, at its path, with its rendered text and the note's last edit as its modification time |
| Reconcile.RenamedItemIsSwept | mx2md.py:367-370 | as written, a changed note at a new path that differs from the old one in more than letter case is written there, the ledger keeps the old path, and the sweep deletes the new file |
| Reconcile.OnlyItem | mx2md.py:344-355 | a one-entry backup plans its note at the plain `<file name>.md` in its folder, with the note's id and last edit |
| Reconcile.RenamedNoteIsSwept | mx2md.py:363-413 | as written, a run over a changed note whose ledger entry names a path that differs from its new `<file name>.md` in more than letter case updates it, keeps the old path, and then deletes the file just written |

## Left out

- Zip and JSON decoding of the backup and of `sync_db.json`, and writing the ledger back: entries, categories and the ledger are given as decoded values.
- Directory creation (`try_mkdir`, mx2md.py:271-277): the model assumes every folder can be created. The converter exits when `os.mkdir` fails, for instance for a category titled `Work/Home` whose `Work` folder does not exist. It then stops before saving the ledger and before the sweep, while the model writes the note and goes on.
- The removal of emptied folders after a deletion, and the deletion counters: these do not change which files exist.
- Attachment extraction (`write_attachment` and the loop at mx2md.py:380-390): attachments appear only in the rendered content. The `--ignore-attachments` and `--separate-attachments` switches act only there, so `Config` does not carry them.
- `epoch_to_readable`: it depends on the host's local time zone and C library, so the `YYYY-MM-DD` creation day is an input field of the entry.
- Float timestamps: `ms / 1000` in seconds is replaced by integer milliseconds, which order the same way.
- Unicode: `\w` is approximated by ASCII letters, digits and underscore, and `lower()` lowers only ASCII letters.
- `find_latest_backup`, the command-line parsing, `print_help` and `dbgln` logging: they are outside the conversion and the sync.
- The listing of the output folder (`list_files_recursively`, mx2md.py:211-219): the sweep ranges over every path of the model's disk and removes the untracked `.md` ones. The converter lists only files below the output folder. A note sent outside that folder, by an absolute category title or one containing `..`, leaves files the converter never lists, but the model's sweep may delete them. Paths are plain strings, with no `..` resolution.
- Case-insensitive file systems: the model's disk treats paths that differ only in letter case as different files, as a case-sensitive file system does. The converter lower-cases its keys (mx2md.py:349, 354) because it may write to a file system that ignores case, where `os.path.exists`, `open` and `os.walk` treat names differing only in case as one file. The rename lemmas and the first finding are therefore stated for renames that change more than letter case.
- Path spellings: the disk matches exact path strings, with no normalisation. A `.` or empty component (a category titled `.`, a `//`), or an output folder given as `out` on one run and `./out` on the next, makes two model files where the file system has one. The converter then deletes that file: the ledger names `M/./D T.md` while `os.walk` lists `M/D T.md` (mx2md.py:212-216, 403-409). The model keeps it, so the whole-run lemmas hold only for paths written in their normal form.
- Uncaught exceptions (an entry without sections, a colour without a category) are modelled as a `Crash` result. The files written before the crash remain, and neither the ledger nor the sweep runs.
- Notes.ContentOf: states no contract of its own; Notes.ContentShape states its rendering for every kind of note.

## Findings

| source | as written | input that shows it | evidently intended | confidence | as-written member | corrected member |
|---|---|---|---|---|---|---|
| mx2md.py:367-370 | an update bumps only the ledger entry's `mtime` and keeps its old `path`, while the note is written to the newly allocated path; the sweep (401-413) then deletes that new file because no ledger entry names it | a note whose title (so file name) changed in more than letter case and whose modification time grew since the last run, with the ledger entry still naming the old path and safe mode off | the update records the path it just wrote, so the rewritten file survives the sweep | medium, not executed | Reconcile.RenamedNoteIsSwept | Reconcile.WrittenNotesSurvive |
| mx2md.py:228-229 | `os.utime(path, (mtime, ctime))` passes the pair as (access time, modification time), so the file's modification time becomes the note's creation time | a note created at 1000 ms and last edited at 2000 ms gets a file modified at 1000 ms | the file's modification time is the note's last edit | high, not executed | Stamps.StampAsWrittenLosesEdits | Stamps.StampKeepsEditOrder |
