/** The sync database (`sync_db.json`'s `notes` list), the per-note
    add/update/skip decision, and the deletion sweep that follows the run.
    The disk is a map from path to stored file; writing a note stores its
    file at its path. */
module Ledger {
  import opened Results
  import opened Text
  import opened Stamps

  /** One `{id, path, mtime}` record; `mtime` is in milliseconds. */
  datatype LedgerEntry = LedgerEntry(id: string, path: string, mtime: int)

  type Disk = map<string, StoredFile>

  /** The converter as written, or with its two defects corrected. As
      written, the update branch bumps only `mtime` and a written file is
      stamped with `os.utime(path, (mtime, ctime))`; corrected, the update
      also records the path just written and the file is stamped with the
      note's last edit as its modification time. */
  datatype Policy = AsWritten | Corrected

  /** The file `write_to_disk` leaves for a note under the policy. */
  function WriteNote(policy: Policy, text: string, mtime: int, ctime: int): (f: StoredFile)
    ensures f.text == text
    ensures policy == AsWritten ==> f.times.modified == ctime && f.times.accessed == mtime
    ensures policy == Corrected ==> f.times.modified == mtime
  {
    if policy == Corrected then Written(text, mtime, ctime) else WrittenAsWritten(text, mtime, ctime)
  }

  /** The first entry with this id, as the `for ... break` loop finds it. */
  function Lookup(ledger: seq<LedgerEntry>, id: string): (r: Option<nat>)
    ensures r.None? <==> forall k :: 0 <= k < |ledger| ==> ledger[k].id != id
    ensures r.Some? ==> r.value < |ledger| && ledger[r.value].id == id
    ensures r.Some? ==> forall k :: 0 <= k < r.value ==> ledger[k].id != id
  {
    if |ledger| == 0 then None
    else if ledger[0].id == id then Some(0)
    else
      match Lookup(ledger[1..], id)
      case None => None
      case Some(k) => Some(k + 1)
  }

  /** Two ledgers with the same ids in the same places answer every lookup
      the same way. */
  lemma LookupSameIds(a: seq<LedgerEntry>, b: seq<LedgerEntry>, id: string)
    requires |a| == |b| && forall k :: 0 <= k < |a| ==> a[k].id == b[k].id
    ensures Lookup(a, id) == Lookup(b, id)
  {
  }

  /** An entry appended at the end hides no earlier entry. */
  lemma LookupAppend(ledger: seq<LedgerEntry>, e: LedgerEntry, id: string)
    ensures Lookup(ledger, id).Some? ==> Lookup(ledger + [e], id) == Lookup(ledger, id)
    ensures Lookup(ledger, id).None? && e.id == id ==> Lookup(ledger + [e], id) == Some(|ledger|)
    ensures Lookup(ledger, id).None? && e.id != id ==> Lookup(ledger + [e], id).None?
  {
    var l := ledger + [e];
    assert forall k :: 0 <= k < |ledger| ==> l[k] == ledger[k];
    assert l[|ledger|] == e;
  }

  datatype Action = Added | Updated | Skipped

  datatype StepResult = StepResult(ledger: seq<LedgerEntry>, disk: Disk, action: Action)

  /** One note of the per-note loop, once its path is allocated: add the
      note when its id is new, rewrite it when the ledger's time is older or
      its file is gone, and otherwise leave everything alone. */
  function Step(policy: Policy, ledger: seq<LedgerEntry>, disk: Disk,
                id: string, path: string, file: StoredFile, mtime: int): (r: StepResult)
    ensures Lookup(ledger, id).None? ==>
      && r.action == Added
      && r.ledger == ledger + [LedgerEntry(id, path, mtime)]
      && r.disk == disk[path := file]
    ensures Lookup(ledger, id).Some? ==>
      var i := Lookup(ledger, id).value;
      if ledger[i].mtime < mtime || path !in disk then
        && r.action == Updated
        && r.disk == disk[path := file]
        && |r.ledger| == |ledger|
        && r.ledger[i] == LedgerEntry(id, if policy == Corrected then path else ledger[i].path, mtime)
        && forall k :: 0 <= k < |ledger| && k != i ==> r.ledger[k] == ledger[k]
      else
        r == StepResult(ledger, disk, Skipped)
  {
    match Lookup(ledger, id)
    case None =>
      StepResult(ledger + [LedgerEntry(id, path, mtime)], disk[path := file], Added)
    case Some(i) =>
      var entry := ledger[i];
      if entry.mtime < mtime || path !in disk then
        var updated := if policy == Corrected then entry.(mtime := mtime, path := path)
                       else entry.(mtime := mtime);
        StepResult(ledger[i := updated], disk[path := file], Updated)
      else
        StepResult(ledger, disk, Skipped)
  }

  /** A step never forgets: entries keep their ids, the ledger only grows,
      and no file disappears. */
  lemma StepKeeps(policy: Policy, ledger: seq<LedgerEntry>, disk: Disk,
                  id: string, path: string, file: StoredFile, mtime: int)
    ensures var r := Step(policy, ledger, disk, id, path, file, mtime);
      && |ledger| <= |r.ledger| <= |ledger| + 1
      && (forall k :: 0 <= k < |ledger| ==> r.ledger[k].id == ledger[k].id)
      && (policy == AsWritten ==> forall k :: 0 <= k < |ledger| ==> r.ledger[k].path == ledger[k].path)
      && disk.Keys <= r.disk.Keys
      && path in r.disk
      && Lookup(r.ledger, id).Some?
  {
    var r := Step(policy, ledger, disk, id, path, file, mtime);
    if Lookup(ledger, id).None? {
      LookupAppend(ledger, LedgerEntry(id, path, mtime), id);
    } else {
      LookupSameIds(ledger, r.ledger, id);
    }
  }

  /** Repeating a step with the same note changes nothing and writes
      nothing. */
  lemma {:induction false} StepIdempotent(policy: Policy, ledger: seq<LedgerEntry>, disk: Disk,
                                          id: string, path: string, file: StoredFile, mtime: int)
    ensures var r := Step(policy, ledger, disk, id, path, file, mtime);
      Step(policy, r.ledger, r.disk, id, path, file, mtime) == StepResult(r.ledger, r.disk, Skipped)
  {
    var r := Step(policy, ledger, disk, id, path, file, mtime);
    match Lookup(ledger, id)
    case None =>
      LookupAppend(ledger, LedgerEntry(id, path, mtime), id);
    case Some(i) =>
      if r.action == Updated {
        LookupSameIds(ledger, r.ledger, id);
      }
  }

  /** A ledger keeps at most one entry per id. */
  predicate UniqueIds(ledger: seq<LedgerEntry>) {
    forall j, k :: 0 <= j < k < |ledger| ==> ledger[j].id != ledger[k].id
  }

  lemma StepUniqueIds(policy: Policy, ledger: seq<LedgerEntry>, disk: Disk,
                      id: string, path: string, file: StoredFile, mtime: int)
    requires UniqueIds(ledger)
    ensures UniqueIds(Step(policy, ledger, disk, id, path, file, mtime).ledger)
  {
    var r := Step(policy, ledger, disk, id, path, file, mtime);
    StepKeeps(policy, ledger, disk, id, path, file, mtime);
  }

  /** Some ledger entry names this path exactly. */
  predicate Tracked(ledger: seq<LedgerEntry>, path: string) {
    exists k | 0 <= k < |ledger| :: ledger[k].path == path
  }

  /** Whether the sweep deletes this listed file. */
  predicate Doomed(ledger: seq<LedgerEntry>, safeMode: bool, path: string) {
    IsMarkdown(path) && !Tracked(ledger, path) && !safeMode
  }

  /** The deletion sweep: every `.md` file that no ledger entry names is
      removed, unless safe mode is on; everything else is kept unchanged. */
  function Sweep(disk: Disk, ledger: seq<LedgerEntry>, safeMode: bool): (r: Disk)
    ensures forall p :: p in r <==> p in disk && !(IsMarkdown(p) && !Tracked(ledger, p) && !safeMode)
    ensures forall p :: p in r ==> r[p] == disk[p]
    ensures safeMode ==> r == disk
  {
    map p | p in disk && !Doomed(ledger, safeMode, p) :: disk[p]
  }

  /** Sweeping twice against the same ledger removes nothing more. */
  lemma SweepIdempotent(disk: Disk, ledger: seq<LedgerEntry>, safeMode: bool)
    ensures Sweep(Sweep(disk, ledger, safeMode), ledger, safeMode) == Sweep(disk, ledger, safeMode)
  {
  }
}
