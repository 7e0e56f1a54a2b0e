/** One run of the converter over a backup: every entry becomes a note, gets
    a collision-free path and goes through the add/update/skip step; then
    the ledger is saved and the sweep deletes untracked `.md` files.

    The per-note loop converts an entry, allocates its path, and performs
    its sync step before moving to the next entry. Converting an entry
    depends only on the entry, the category table and the switches, and
    allocating a path depends only on the paths allocated before, so the
    model runs the loop as three passes with the same result: `Prefix`
    converts the entries up to the first one that fails, `Place` allocates
    their paths, and `Apply` performs the sync steps against the ledger and
    the disk. */
module Reconcile {
  import opened Results
  import opened Text
  import opened Notes
  import opened Paths
  import opened Ledger
  import opened Stamps

  /** A converted note at its allocated path: what the sync step needs. */
  datatype Item = Item(id: string, path: string, text: string, mtime: int, ctime: int)

  /** The entry at `position` (0-based) could not be converted. */
  datatype Crash = Crash(position: nat, error: NoteError)

  /** The notes converted before any crash, and the names handed out. */
  datatype Plan = Plan(items: seq<Item>, used: seq<string>, crash: Option<Crash>)

  // ---------------------------------------------------------------------
  // Conversion

  /** Every entry of the backup, converted. */
  function Conversions(cfg: Config, cats: seq<Category>, entries: seq<Entry>): (r: seq<Result<Note, NoteError>>)
    ensures |r| == |entries|
    ensures forall k :: 0 <= k < |entries| ==> r[k] == FromEntry(entries[k], cats, cfg)
  {
    seq(|entries|, k requires 0 <= k < |entries| => FromEntry(entries[k], cats, cfg))
  }

  /** The notes before the first failed conversion, and that failure. */
  datatype Conversion = Conversion(notes: seq<Note>, failure: Option<NoteError>)

  /** The conversions the loop gets through before the first one that
      raises. */
  function Prefix(rs: seq<Result<Note, NoteError>>): (c: Conversion)
    ensures |c.notes| <= |rs|
    ensures c.failure.None? <==> |c.notes| == |rs|
    ensures forall k :: 0 <= k < |c.notes| ==> rs[k] == Success(c.notes[k])
    ensures c.failure.Some? ==> rs[|c.notes|] == Failure(c.failure.value)
    decreases |rs|
  {
    if |rs| == 0 then Conversion([], None)
    else
      match rs[0]
      case Failure(err) => Conversion([], Some(err))
      case Success(n) =>
        var rest := Prefix(rs[1..]);
        var c := Conversion([n] + rest.notes, rest.failure);
        assert forall k :: 1 <= k < |c.notes| ==> c.notes[k] == rest.notes[k - 1] && rs[k] == rs[1..][k - 1];
        c
  }

  // ---------------------------------------------------------------------
  // Allocation

  /** The names a run remembers for these items. */
  function Keys(items: seq<Item>): (r: seq<string>)
    ensures |r| == |items|
    ensures forall k :: 0 <= k < |items| ==> r[k] == Lower(items[k].path)
  {
    seq(|items|, k requires 0 <= k < |items| => Lower(items[k].path))
  }

  /** No two items share a path, even up to case. */
  predicate DistinctKeys(items: seq<Item>) {
    forall j, k :: 0 <= j < k < |items| ==> Lower(items[j].path) != Lower(items[k].path)
  }

  /** The item for a converted note at its allocated path. */
  function ItemOf(n: Note, a: Allocation): (it: Item)
    ensures it.id == n.id && it.path == a.path && it.text == n.content
    ensures it.mtime == n.mtime && it.ctime == n.ctime
  {
    Item(n.id, a.path, n.content, n.mtime, n.ctime)
  }

  /** The items and the names handed out for them. */
  datatype Placed = Placed(items: seq<Item>, used: seq<string>)

  /** Allocate paths for the notes in order, continuing from the names in
      `used`. */
  function Place(notes: seq<Note>, used: seq<string>): (p: Placed)
    ensures |p.items| == |notes|
    decreases |notes|
  {
    if |notes| == 0 then Placed([], used)
    else
      var n := notes[0];
      var a := Allocate(used, n.saveDir, n.fileName);
      var rest := Place(notes[1..], a.used);
      Placed([ItemOf(n, a)] + rest.items, rest.used)
  }

  /** The item stands for this converted note. */
  predicate Carries(it: Item, n: Note) {
    it.id == n.id && it.text == n.content && it.mtime == n.mtime && it.ctime == n.ctime
  }

  /** Each item stands for the note at its position. */
  predicate AllCarry(items: seq<Item>, notes: seq<Note>) {
    |items| == |notes| && forall k :: 0 <= k < |items| ==> Carries(items[k], notes[k])
  }

  lemma CarriesCons(it: Item, rest: seq<Item>, notes: seq<Note>)
    requires |notes| > 0 && Carries(it, notes[0]) && AllCarry(rest, notes[1..])
    ensures AllCarry([it] + rest, notes)
  {
    var items := [it] + rest;
    forall k | 1 <= k < |items| ensures Carries(items[k], notes[k]) {
      assert items[k] == rest[k - 1];
      assert notes[k] == notes[1..][k - 1];
    }
  }

  /** Each item's path is the one the name search hands its note, given
      the names in `used` and those of the items before it. */
  predicate AllAllocated(items: seq<Item>, notes: seq<Note>, used: seq<string>) {
    && |items| == |notes|
    && forall k :: 0 <= k < |items| ==>
      items[k].path == Allocate(used + Keys(items[..k]), notes[k].saveDir, notes[k].fileName).path
  }

  lemma AllocatedCons(it: Item, rest: seq<Item>, notes: seq<Note>, used: seq<string>)
    requires |notes| > 0
    requires it.path == Allocate(used, notes[0].saveDir, notes[0].fileName).path
    requires AllAllocated(rest, notes[1..], used + [Lower(it.path)])
    ensures AllAllocated([it] + rest, notes, used)
  {
    var items := [it] + rest;
    forall k | 1 <= k < |items|
      ensures items[k].path == Allocate(used + Keys(items[..k]), notes[k].saveDir, notes[k].fileName).path
    {
      KeysPrefix(it, rest, used, k);
      assert items[k] == rest[k - 1] && notes[k] == notes[1..][k - 1];
    }
    assert used + Keys(items[..0]) == used;
  }

  lemma KeysPrefix(it: Item, rest: seq<Item>, used: seq<string>, k: nat)
    requires 1 <= k <= |rest| + 1
    ensures used + Keys(([it] + rest)[..k]) == (used + [Lower(it.path)]) + Keys(rest[..k - 1])
  {
    assert ([it] + rest)[..k] == [it] + rest[..k - 1];
    assert Keys([it] + rest[..k - 1]) == [Lower(it.path)] + Keys(rest[..k - 1]);
  }

  /** Each placed item stands for the note at its position, at the path
      the name search hands that note after the notes before it. */
  lemma {:induction false} PlaceCarries(notes: seq<Note>, used: seq<string>)
    ensures AllCarry(Place(notes, used).items, notes)
    ensures AllAllocated(Place(notes, used).items, notes, used)
    decreases |notes|
  {
    if |notes| == 0 { return; }
    var n := notes[0];
    var a := Allocate(used, n.saveDir, n.fileName);
    var rest := Place(notes[1..], a.used);
    PlaceCarries(notes[1..], a.used);
    assert Place(notes, used).items == [ItemOf(n, a)] + rest.items;
    CarriesCons(ItemOf(n, a), rest.items, notes);
    AllocatedCons(ItemOf(n, a), rest.items, notes, used);
  }

  predicate AllMarkdown(items: seq<Item>) {
    forall k :: 0 <= k < |items| ==> IsMarkdown(items[k].path)
  }

  lemma MarkdownCons(it: Item, rest: seq<Item>)
    requires IsMarkdown(it.path)
    requires AllMarkdown(rest)
    ensures AllMarkdown([it] + rest)
  {
    var items := [it] + rest;
    assert forall k :: 1 <= k < |items| ==> items[k] == rest[k - 1];
  }

  /** Every path handed out is a Markdown file. */
  lemma {:induction false} PlaceMarkdown(notes: seq<Note>, used: seq<string>)
    ensures AllMarkdown(Place(notes, used).items)
    decreases |notes|
  {
    if |notes| == 0 { return; }
    var n := notes[0];
    var a := Allocate(used, n.saveDir, n.fileName);
    var rest := Place(notes[1..], a.used);
    PlaceMarkdown(notes[1..], a.used);
    assert Place(notes, used).items == [ItemOf(n, a)] + rest.items;
    CandidateExtension(n.saveDir, n.fileName, Chosen(used, n.saveDir, n.fileName));
    MarkdownCons(ItemOf(n, a), rest.items);
  }

  /** The names handed out are those of the items, none of them was handed
      out before, and no two of them coincide: the lower-cased paths of one
      run are pairwise distinct. */
  lemma {:induction false} PlaceKeys(notes: seq<Note>, used: seq<string>)
    ensures var p := Place(notes, used);
      && p.used == used + Keys(p.items)
      && (forall k :: 0 <= k < |p.items| ==> Lower(p.items[k].path) !in used)
      && DistinctKeys(p.items)
    decreases |notes|
  {
    if |notes| == 0 { return; }
    var n := notes[0];
    var a := Allocate(used, n.saveDir, n.fileName);
    var rest := Place(notes[1..], a.used);
    PlaceKeys(notes[1..], a.used);
    assert Place(notes, used).items == [ItemOf(n, a)] + rest.items;
    KeysCons(ItemOf(n, a), rest.items, used, rest.used);
  }

  /** Handing out one more name in front of a run that avoided it keeps
      the run's names fresh and distinct. */
  lemma KeysCons(it: Item, rest: seq<Item>, used: seq<string>, final: seq<string>)
    requires Lower(it.path) !in used
    requires final == used + [Lower(it.path)] + Keys(rest)
    requires forall k :: 0 <= k < |rest| ==> Lower(rest[k].path) !in used + [Lower(it.path)]
    requires DistinctKeys(rest)
    ensures final == used + Keys([it] + rest)
    ensures forall k :: 0 <= k < |[it] + rest| ==> Lower(([it] + rest)[k].path) !in used
    ensures DistinctKeys([it] + rest)
  {
    var items := [it] + rest;
    assert Keys(items) == [Lower(it.path)] + Keys(rest);
    assert forall k :: 1 <= k < |items| ==> items[k] == rest[k - 1];
  }

  // ---------------------------------------------------------------------
  // The plan of a run

  /** Convert the backup's entries in archive order, allocating paths from
      an empty list, up to the first entry that cannot be converted. */
  function PlanOf(cfg: Config, cats: seq<Category>, entries: seq<Entry>): (p: Plan)
    ensures |p.items| <= |entries|
    ensures p.crash.None? <==> |p.items| == |entries|
  {
    var c := Prefix(Conversions(cfg, cats, entries));
    var placed := Place(c.notes, []);
    var crash := if c.failure.Some? then Some(Crash(|c.notes|, c.failure.value)) else None;
    Plan(placed.items, placed.used, crash)
  }

  /** The item is the entry's note: its id, its time, and the file
      writing it produces. */
  predicate StandsFor(it: Item, e: Entry) {
    && |e.sections| > 0
    && it.id == e.sections[0].id
    && it.mtime == e.lastModifiedMillis
    && it.text == ContentOf(e)
    && it.ctime == e.createdMillis
  }

  /** The item's path is the one the name search hands the entry's note,
      in the folder of its category and flags and under its dated file
      name, after the names in `prior` were handed out. */
  predicate AllocatedFor(it: Item, prior: seq<string>, e: Entry, cats: seq<Category>, cfg: Config) {
    && CategoryOf(cats, e.colorNum).Some?
    && it.path == Allocate(prior, SaveDir(cfg, e.flags, CategoryOf(cats, e.colorNum).value), FileNameOf(e, TitleOf(e))).path
  }

  /** The items are the notes of the first entries, in order, each of
      those entries converts, and each item is at the path handed out to
      its entry after the entries before it. */
  predicate AllStandFor(items: seq<Item>, entries: seq<Entry>, cats: seq<Category>, cfg: Config) {
    && |items| <= |entries|
    && (forall k :: 0 <= k < |items| ==> FromEntry(entries[k], cats, cfg).Success? && StandsFor(items[k], entries[k]))
    && (forall k :: 0 <= k < |items| ==> AllocatedFor(items[k], Keys(items[..k]), entries[k], cats, cfg))
  }

  /** The plan's items are the backup's notes, in order, each at the path
      the name search hands its entry after the entries before it, and
      every path the plan hands out is a Markdown file. */
  lemma PlanOfEntries(cfg: Config, cats: seq<Category>, entries: seq<Entry>)
    ensures AllStandFor(PlanOf(cfg, cats, entries).items, entries, cats, cfg)
    ensures AllMarkdown(PlanOf(cfg, cats, entries).items)
  {
    var rs := Conversions(cfg, cats, entries);
    var c := Prefix(rs);
    var items := Place(c.notes, []).items;
    assert PlanOf(cfg, cats, entries).items == items;
    PlaceCarries(c.notes, []);
    PlaceMarkdown(c.notes, []);
    assert AllCarry(items, c.notes);
    forall k | 0 <= k < |items|
      ensures FromEntry(entries[k], cats, cfg).Success? && StandsFor(items[k], entries[k])
      ensures AllocatedFor(items[k], Keys(items[..k]), entries[k], cats, cfg)
    {
      assert rs[k] == FromEntry(entries[k], cats, cfg) == Success(c.notes[k]);
      CarriesEntry(items[k], c.notes[k], entries[k], cats, cfg);
      assert [] + Keys(items[..k]) == Keys(items[..k]);
    }
  }

  /** A converted entry's item carries the entry's id, time and text. */
  lemma CarriesEntry(it: Item, n: Note, e: Entry, cats: seq<Category>, cfg: Config)
    requires FromEntry(e, cats, cfg) == Success(n) && Carries(it, n)
    ensures StandsFor(it, e)
  {
  }

  /** Every entry of the backup can be converted. */
  predicate AllConvert(cfg: Config, cats: seq<Category>, entries: seq<Entry>) {
    forall k :: 0 <= k < |entries| ==> FromEntry(entries[k], cats, cfg).Success?
  }

  /** A plan stops exactly at the first entry that cannot be converted, and
      its crash names that entry's position and error. */
  lemma PlanCrash(cfg: Config, cats: seq<Category>, entries: seq<Entry>)
    ensures var p := PlanOf(cfg, cats, entries);
      && (p.crash.None? <==> forall k :: 0 <= k < |entries| ==> FromEntry(entries[k], cats, cfg).Success?)
      && (p.crash.Some? ==>
            && p.crash.value.position == |p.items| < |entries|
            && FromEntry(entries[|p.items|], cats, cfg) == Failure(p.crash.value.error))
  {
    var rs := Conversions(cfg, cats, entries);
    var c := Prefix(rs);
    var p := PlanOf(cfg, cats, entries);
    assert |p.items| == |c.notes|;
    if c.failure.Some? {
      assert rs[|c.notes|] == FromEntry(entries[|c.notes|], cats, cfg);
    } else {
      forall k | 0 <= k < |entries| ensures FromEntry(entries[k], cats, cfg).Success? {
        assert rs[k] == FromEntry(entries[k], cats, cfg);
      }
    }
  }

  /** What the sync steps leave behind, and what each step did. */
  datatype Outcome = Outcome(ledger: seq<LedgerEntry>, disk: Disk, actions: seq<Action>)

  /** The file writing the item leaves behind. */
  function FileOf(policy: Policy, it: Item): StoredFile {
    WriteNote(policy, it.text, it.mtime, it.ctime)
  }

  function StepItem(policy: Policy, ledger: seq<LedgerEntry>, disk: Disk, it: Item): StepResult {
    Step(policy, ledger, disk, it.id, it.path, FileOf(policy, it), it.mtime)
  }

  /** The sync steps of the per-note loop, in order. */
  function Apply(policy: Policy, items: seq<Item>, ledger: seq<LedgerEntry>, disk: Disk): (o: Outcome)
    ensures |o.actions| == |items|
    ensures |ledger| <= |o.ledger|
    ensures disk.Keys <= o.disk.Keys
    ensures forall k :: 0 <= k < |items| ==> items[k].path in o.disk
    ensures forall k :: 0 <= k < |ledger| ==> o.ledger[k].id == ledger[k].id
    decreases |items|
  {
    if |items| == 0 then Outcome(ledger, disk, [])
    else
      var s := StepItem(policy, ledger, disk, items[0]);
      StepKeeps(policy, ledger, disk, items[0].id, items[0].path, FileOf(policy, items[0]), items[0].mtime);
      var rest := Apply(policy, items[1..], s.ledger, s.disk);
      assert forall k :: 1 <= k < |items| ==> items[k] == items[1..][k - 1];
      Outcome(rest.ledger, rest.disk, [s.action] + rest.actions)
  }

  /** The number of files a run writes. */
  function Writes(actions: seq<Action>): (n: nat)
    ensures n <= |actions|
    ensures n == 0 <==> forall k :: 0 <= k < |actions| ==> actions[k] == Skipped
  {
    if |actions| == 0 then 0
    else (if actions[0] == Skipped then 0 else 1) + Writes(actions[1..])
  }

  /** The result of a run: the ledger saved at its end and the disk after
      the sweep, or, when an entry crashed the converter, the disk as the
      steps before the crash left it (the ledger file is then not
      rewritten and no sweep happens). */
  datatype RunResult =
    | Synced(ledger: seq<LedgerEntry>, disk: Disk, actions: seq<Action>)
    | Crashed(crash: Crash, disk: Disk)

  /** The run once the backup is converted: the steps for the planned
      notes, then, unless an entry crashed, the sweep against the ledger the
      steps leave. */
  function Execute(policy: Policy, plan: Plan, safeMode: bool,
                   ledger: seq<LedgerEntry>, disk: Disk): (r: RunResult)
    ensures r.Crashed? <==> plan.crash.Some?
    ensures r.Synced? ==> |r.actions| == |plan.items| && |ledger| <= |r.ledger|
    ensures r.Synced? ==> forall k :: 0 <= k < |ledger| ==> r.ledger[k].id == ledger[k].id
    ensures r.Synced? && !safeMode ==> forall p :: p in r.disk && IsMarkdown(p) ==> Tracked(r.ledger, p)
  {
    var o := Apply(policy, plan.items, ledger, disk);
    if plan.crash.Some? then
      Crashed(plan.crash.value, o.disk)
    else
      Synced(o.ledger, Sweep(o.disk, o.ledger, safeMode), o.actions)
  }

  /** A whole run over a backup. */
  function SyncRun(policy: Policy, cfg: Config, cats: seq<Category>, entries: seq<Entry>,
                   ledger: seq<LedgerEntry>, disk: Disk): (r: RunResult)
    ensures r.Crashed? <==> exists k :: 0 <= k < |entries| && FromEntry(entries[k], cats, cfg).Failure?
    ensures r.Synced? ==> |r.actions| == |entries| && |ledger| <= |r.ledger|
    ensures r.Synced? ==> forall k :: 0 <= k < |ledger| ==> r.ledger[k].id == ledger[k].id
  {
    PlanCrash(cfg, cats, entries);
    Execute(policy, PlanOf(cfg, cats, entries), cfg.safeMode, ledger, disk)
  }

  // ---------------------------------------------------------------------
  // Which notes are up to date, and which are recorded at their path

  /** The ledger has an entry for the item no older than it, and its file
      exists: the step for this item would skip it. */
  predicate Current(ledger: seq<LedgerEntry>, disk: Disk, it: Item) {
    var r := Lookup(ledger, it.id);
    r.Some? && ledger[r.value].mtime >= it.mtime && it.path in disk
  }

  /** The item's ledger entry names the item's own path. */
  predicate Recorded(ledger: seq<LedgerEntry>, it: Item) {
    var r := Lookup(ledger, it.id);
    r.Some? && ledger[r.value].path == it.path
  }

  predicate DistinctIds(items: seq<Item>) {
    forall j, k :: 0 <= j < k < |items| ==> items[j].id != items[k].id
  }

  /** A step for another note neither moves this note's entry nor removes
      its file. */
  lemma StepOther(policy: Policy, ledger: seq<LedgerEntry>, disk: Disk, a: Item, b: Item)
    requires a.id != b.id
    ensures var s := StepItem(policy, ledger, disk, a);
      && Lookup(s.ledger, b.id) == Lookup(ledger, b.id)
      && (Lookup(ledger, b.id).Some? ==> s.ledger[Lookup(ledger, b.id).value] == ledger[Lookup(ledger, b.id).value])
      && (Current(ledger, disk, b) ==> Current(s.ledger, s.disk, b))
      && (Recorded(ledger, b) ==> Recorded(s.ledger, b))
  {
    var s := StepItem(policy, ledger, disk, a);
    if Lookup(ledger, a.id).None? {
      LookupAppend(ledger, LedgerEntry(a.id, a.path, a.mtime), b.id);
      if Lookup(ledger, b.id).Some? {
        assert s.ledger[Lookup(ledger, b.id).value] == ledger[Lookup(ledger, b.id).value];
      }
    } else {
      StepKeeps(policy, ledger, disk, a.id, a.path, FileOf(policy, a), a.mtime);
      LookupSameIds(ledger, s.ledger, b.id);
    }
  }

  /** After its own step a note is current; it is recorded at its path when
      it was added, and also when it was updated under `Corrected`. */
  lemma StepSelf(policy: Policy, ledger: seq<LedgerEntry>, disk: Disk, a: Item)
    ensures var s := StepItem(policy, ledger, disk, a);
      && Current(s.ledger, s.disk, a)
      && (s.action == Added || (policy == Corrected && s.action == Updated) ==> Recorded(s.ledger, a))
  {
    var s := StepItem(policy, ledger, disk, a);
    if Lookup(ledger, a.id).None? {
      LookupAppend(ledger, LedgerEntry(a.id, a.path, a.mtime), a.id);
    } else if s.action == Updated {
      StepKeeps(policy, ledger, disk, a.id, a.path, FileOf(policy, a), a.mtime);
      LookupSameIds(ledger, s.ledger, a.id);
    }
  }

  /** Steps for other notes keep a note current and recorded. */
  lemma {:induction false} ApplyOthers(policy: Policy, items: seq<Item>, ledger: seq<LedgerEntry>, disk: Disk, b: Item)
    requires forall k :: 0 <= k < |items| ==> items[k].id != b.id
    ensures var o := Apply(policy, items, ledger, disk);
      && (Current(ledger, disk, b) ==> Current(o.ledger, o.disk, b))
      && (Recorded(ledger, b) ==> Recorded(o.ledger, b))
    decreases |items|
  {
    if |items| > 0 {
      var s := StepItem(policy, ledger, disk, items[0]);
      StepOther(policy, ledger, disk, items[0], b);
      ApplyOthers(policy, items[1..], s.ledger, s.disk, b);
    }
  }

  /** With distinct ids, every note is current once the steps are done, and
      every note whose step recorded its path stays recorded. */
  lemma {:induction false} ApplyLeavesCurrent(policy: Policy, items: seq<Item>, ledger: seq<LedgerEntry>, disk: Disk)
    requires DistinctIds(items)
    ensures var o := Apply(policy, items, ledger, disk);
      && (forall k :: 0 <= k < |items| ==> Current(o.ledger, o.disk, items[k]))
      && (forall k :: 0 <= k < |items| && (o.actions[k] == Added || (policy == Corrected && o.actions[k] == Updated))
            ==> Recorded(o.ledger, items[k]))
    decreases |items|
  {
    if |items| > 0 {
      var o := Apply(policy, items, ledger, disk);
      var s := StepItem(policy, ledger, disk, items[0]);
      var rest := items[1..];
      StepSelf(policy, ledger, disk, items[0]);
      assert forall k :: 0 <= k < |rest| ==> rest[k] == items[k + 1];
      ApplyOthers(policy, rest, s.ledger, s.disk, items[0]);
      ApplyLeavesCurrent(policy, rest, s.ledger, s.disk);
      assert o.actions == [s.action] + Apply(policy, rest, s.ledger, s.disk).actions;
      forall k | 1 <= k < |items|
        ensures Current(o.ledger, o.disk, items[k])
        ensures o.actions[k] == Added || (policy == Corrected && o.actions[k] == Updated)
                ==> Recorded(o.ledger, items[k])
      {
        assert items[k] == rest[k - 1];
      }
    }
  }

  /** The note's file is on disk with exactly the text and times it was
      written with. */
  predicate Holds(policy: Policy, disk: Disk, it: Item) {
    it.path in disk && disk[it.path] == FileOf(policy, it)
  }

  predicate DistinctPaths(items: seq<Item>) {
    forall j, k :: 0 <= j < k < |items| ==> items[j].path != items[k].path
  }

  /** Steps for notes at other paths leave a note's file alone. */
  lemma {:induction false} ApplyOtherPaths(policy: Policy, items: seq<Item>, ledger: seq<LedgerEntry>, disk: Disk, b: Item)
    requires forall k :: 0 <= k < |items| ==> items[k].path != b.path
    requires Holds(policy, disk, b)
    ensures Holds(policy, Apply(policy, items, ledger, disk).disk, b)
    decreases |items|
  {
    if |items| > 0 {
      var s := StepItem(policy, ledger, disk, items[0]);
      var rest := items[1..];
      assert forall k :: 0 <= k < |rest| ==> rest[k] == items[k + 1];
      ApplyOtherPaths(policy, rest, s.ledger, s.disk, b);
    }
  }

  /** With distinct paths, every note a step wrote still holds its file
      once all the steps are done. */
  lemma {:induction false} ApplyWritesFiles(policy: Policy, items: seq<Item>, ledger: seq<LedgerEntry>, disk: Disk)
    requires DistinctPaths(items)
    ensures var o := Apply(policy, items, ledger, disk);
      forall k :: 0 <= k < |items| && o.actions[k] != Skipped ==> Holds(policy, o.disk, items[k])
    decreases |items|
  {
    if |items| == 0 { return; }
    var o := Apply(policy, items, ledger, disk);
    var s := StepItem(policy, ledger, disk, items[0]);
    var rest := items[1..];
    assert forall k :: 0 <= k < |rest| ==> rest[k] == items[k + 1];
    ApplyWritesFiles(policy, rest, s.ledger, s.disk);
    assert o.actions == [s.action] + Apply(policy, rest, s.ledger, s.disk).actions;
    if s.action != Skipped {
      ApplyOtherPaths(policy, rest, s.ledger, s.disk, items[0]);
    }
    forall k | 1 <= k < |items| && o.actions[k] != Skipped ensures Holds(policy, o.disk, items[k]) {
      assert items[k] == rest[k - 1];
    }
  }

  /** When every note is already current the steps write nothing and leave
      ledger and disk as they are. */
  lemma {:induction false} ApplyCurrentIsNoop(policy: Policy, items: seq<Item>, ledger: seq<LedgerEntry>, disk: Disk)
    requires forall k :: 0 <= k < |items| ==> Current(ledger, disk, items[k])
    ensures Apply(policy, items, ledger, disk) == Outcome(ledger, disk, seq(|items|, k => Skipped))
    decreases |items|
  {
    if |items| > 0 {
      assert Current(ledger, disk, items[0]);
      assert StepItem(policy, ledger, disk, items[0]) == StepResult(ledger, disk, Skipped);
      ApplyCurrentIsNoop(policy, items[1..], ledger, disk);
      assert seq(|items|, k => Skipped) == [Skipped] + seq(|items| - 1, k => Skipped);
    }
  }

  /** Repeating the sync steps with the same notes writes nothing and
      changes nothing (for notes with distinct ids). */
  lemma ApplyIdempotent(policy: Policy, items: seq<Item>, ledger: seq<LedgerEntry>, disk: Disk)
    requires DistinctIds(items)
    ensures var o := Apply(policy, items, ledger, disk);
      && Apply(policy, items, o.ledger, o.disk) == Outcome(o.ledger, o.disk, seq(|items|, k => Skipped))
      && Writes(Apply(policy, items, o.ledger, o.disk).actions) == 0
  {
    var o := Apply(policy, items, ledger, disk);
    ApplyLeavesCurrent(policy, items, ledger, disk);
    ApplyCurrentIsNoop(policy, items, o.ledger, o.disk);
  }

  /** Notes whose ids the ledger has never seen are all added. */
  lemma {:induction false} ApplyFresh(policy: Policy, items: seq<Item>, ledger: seq<LedgerEntry>, disk: Disk)
    requires DistinctIds(items)
    requires forall k :: 0 <= k < |items| ==> Lookup(ledger, items[k].id).None?
    ensures forall k :: 0 <= k < |items| ==> Apply(policy, items, ledger, disk).actions[k] == Added
    decreases |items|
  {
    if |items| > 0 {
      var s := StepItem(policy, ledger, disk, items[0]);
      var rest := items[1..];
      forall k | 0 <= k < |rest| ensures Lookup(s.ledger, rest[k].id).None? {
        assert rest[k] == items[k + 1];
        LookupAppend(ledger, LedgerEntry(items[0].id, items[0].path, items[0].mtime), rest[k].id);
      }
      ApplyFresh(policy, rest, s.ledger, s.disk);
    }
  }

  // ---------------------------------------------------------------------
  // Whole runs

  /** Archive entries whose notes carry distinct ids. */
  predicate DistinctNoteIds(entries: seq<Entry>) {
    forall j, k :: 0 <= j < k < |entries| && |entries[j].sections| > 0 && |entries[k].sections| > 0
      ==> entries[j].sections[0].id != entries[k].sections[0].id
  }

  lemma PlanDistinctIds(cfg: Config, cats: seq<Category>, entries: seq<Entry>)
    requires DistinctNoteIds(entries)
    ensures DistinctIds(PlanOf(cfg, cats, entries).items)
  {
    PlanOfEntries(cfg, cats, entries);
  }

  lemma PlanDistinctPaths(cfg: Config, cats: seq<Category>, entries: seq<Entry>)
    ensures DistinctPaths(PlanOf(cfg, cats, entries).items)
  {
    RunPathsDistinct(cfg, cats, entries);
  }

  /** No two notes of a run receive paths that are equal up to case. */
  lemma RunPathsDistinct(cfg: Config, cats: seq<Category>, entries: seq<Entry>)
    ensures var items := PlanOf(cfg, cats, entries).items;
      forall j, k :: 0 <= j < k < |items| ==> Lower(items[j].path) != Lower(items[k].path)
  {
    PlaceKeys(Prefix(Conversions(cfg, cats, entries)).notes, []);
  }

  /** A second execution of the same plan, after one whose notes all ended
      up named in the ledger (or in safe mode), writes nothing and changes
      nothing. */
  lemma ExecuteStable(policy: Policy, plan: Plan, safeMode: bool, ledger: seq<LedgerEntry>, disk: Disk)
    requires DistinctIds(plan.items)
    requires Execute(policy, plan, safeMode, ledger, disk).Synced?
    requires var r := Execute(policy, plan, safeMode, ledger, disk);
      safeMode || forall k :: 0 <= k < |plan.items| ==> Tracked(r.ledger, plan.items[k].path)
    ensures var r := Execute(policy, plan, safeMode, ledger, disk);
      Execute(policy, plan, safeMode, r.ledger, r.disk) == Synced(r.ledger, r.disk, seq(|plan.items|, k => Skipped))
  {
    var items := plan.items;
    var o := Apply(policy, items, ledger, disk);
    var d := Sweep(o.disk, o.ledger, safeMode);
    ApplyLeavesCurrent(policy, items, ledger, disk);
    forall k | 0 <= k < |items| ensures Current(o.ledger, d, items[k]) {
      assert Current(o.ledger, o.disk, items[k]);
      assert safeMode || Tracked(o.ledger, items[k].path);
    }
    ApplyCurrentIsNoop(policy, items, o.ledger, d);
    SweepIdempotent(o.disk, o.ledger, safeMode);
  }

  /** Under `Corrected` every file an execution writes survives its
      sweep, holding what was written. */
  lemma ExecuteKeepsWritten(plan: Plan, safeMode: bool, ledger: seq<LedgerEntry>, disk: Disk)
    requires DistinctIds(plan.items) && DistinctPaths(plan.items)
    requires Execute(Corrected, plan, safeMode, ledger, disk).Synced?
    ensures var r := Execute(Corrected, plan, safeMode, ledger, disk);
      forall k :: 0 <= k < |plan.items| && r.actions[k] != Skipped ==> Holds(Corrected, r.disk, plan.items[k])
  {
    var items := plan.items;
    var o := Apply(Corrected, items, ledger, disk);
    ApplyLeavesCurrent(Corrected, items, ledger, disk);
    ApplyWritesFiles(Corrected, items, ledger, disk);
    forall k | 0 <= k < |items| && o.actions[k] != Skipped
      ensures Holds(Corrected, Sweep(o.disk, o.ledger, safeMode), items[k])
    {
      assert Recorded(o.ledger, items[k]);
      var i := Lookup(o.ledger, items[k].id).value;
      assert o.ledger[i].path == items[k].path;
    }
  }

  /** From an empty ledger every planned note is added, and recorded at its
      own path. */
  lemma ExecuteFirstRun(policy: Policy, plan: Plan, safeMode: bool, disk: Disk)
    requires DistinctIds(plan.items)
    requires Execute(policy, plan, safeMode, [], disk).Synced?
    ensures var r := Execute(policy, plan, safeMode, [], disk);
      && (forall k :: 0 <= k < |plan.items| ==> r.actions[k] == Added)
      && (forall k :: 0 <= k < |plan.items| ==> Tracked(r.ledger, plan.items[k].path))
  {
    var items := plan.items;
    var o := Apply(policy, items, [], disk);
    ApplyFresh(policy, items, [], disk);
    ApplyLeavesCurrent(policy, items, [], disk);
    forall k | 0 <= k < |items| ensures Tracked(o.ledger, items[k].path) {
      assert Recorded(o.ledger, items[k]);
      var i := Lookup(o.ledger, items[k].id).value;
      assert o.ledger[i].path == items[k].path;
    }
  }

  /** A second run over the same backup, after a run whose notes all ended
      up named in the ledger (or in safe mode), writes nothing and changes
      nothing. */
  lemma SyncStable(policy: Policy, cfg: Config, cats: seq<Category>, entries: seq<Entry>,
                   ledger: seq<LedgerEntry>, disk: Disk)
    requires DistinctNoteIds(entries)
    requires SyncRun(policy, cfg, cats, entries, ledger, disk).Synced?
    requires var r := SyncRun(policy, cfg, cats, entries, ledger, disk);
      var items := PlanOf(cfg, cats, entries).items;
      cfg.safeMode || forall k :: 0 <= k < |items| ==> Tracked(r.ledger, items[k].path)
    ensures var r := SyncRun(policy, cfg, cats, entries, ledger, disk);
      && SyncRun(policy, cfg, cats, entries, r.ledger, r.disk) == Synced(r.ledger, r.disk, seq(|entries|, k => Skipped))
      && Writes(SyncRun(policy, cfg, cats, entries, r.ledger, r.disk).actions) == 0
  {
    PlanDistinctIds(cfg, cats, entries);
    ExecuteStable(policy, PlanOf(cfg, cats, entries), cfg.safeMode, ledger, disk);
  }

  /** In safe mode a second run is always a no-op. */
  lemma SafeModeStable(policy: Policy, cfg: Config, cats: seq<Category>, entries: seq<Entry>,
                       ledger: seq<LedgerEntry>, disk: Disk)
    requires cfg.safeMode && DistinctNoteIds(entries) && AllConvert(cfg, cats, entries)
    ensures var r := SyncRun(policy, cfg, cats, entries, ledger, disk);
      && r.Synced?
      && Writes(SyncRun(policy, cfg, cats, entries, r.ledger, r.disk).actions) == 0
  {
    SyncStable(policy, cfg, cats, entries, ledger, disk);
  }

  /** Starting from an empty ledger every note is added at its own path, so
      the second run writes nothing, whatever the policy. */
  lemma FirstRunStable(policy: Policy, cfg: Config, cats: seq<Category>, entries: seq<Entry>, disk: Disk)
    requires DistinctNoteIds(entries) && AllConvert(cfg, cats, entries)
    ensures var r := SyncRun(policy, cfg, cats, entries, [], disk);
      && r.Synced?
      && (forall k :: 0 <= k < |entries| ==> r.actions[k] == Added)
      && Writes(SyncRun(policy, cfg, cats, entries, r.ledger, r.disk).actions) == 0
  {
    PlanDistinctIds(cfg, cats, entries);
    ExecuteFirstRun(policy, PlanOf(cfg, cats, entries), cfg.safeMode, disk);
    SyncStable(policy, cfg, cats, entries, [], disk);
  }

  /** From an empty ledger every planned note's file survives the sweep,
      holding what writing it produced. */
  lemma ExecuteFirstRunHolds(policy: Policy, plan: Plan, safeMode: bool, disk: Disk)
    requires DistinctIds(plan.items) && DistinctPaths(plan.items) && plan.crash.None?
    ensures var r := Execute(policy, plan, safeMode, [], disk);
      && r.Synced?
      && forall k :: 0 <= k < |plan.items| ==> Holds(policy, r.disk, plan.items[k])
  {
    var items := plan.items;
    var o := Apply(policy, items, [], disk);
    ApplyFresh(policy, items, [], disk);
    ApplyWritesFiles(policy, items, [], disk);
    ExecuteFirstRun(policy, plan, safeMode, disk);
    forall k | 0 <= k < |items| ensures Holds(policy, Sweep(o.disk, o.ledger, safeMode), items[k]) {
      assert Holds(policy, o.disk, items[k]);
    }
  }

  /** From an empty ledger, once every entry converts, the run completes
      and every note's file is on disk after the sweep, at the path the
      name search hands its entry, holding the note's
      rendered text with the policy's timestamps. As written, that makes
      every file's modification time its note's creation time. */
  lemma FirstRunFiles(policy: Policy, cfg: Config, cats: seq<Category>, entries: seq<Entry>, disk: Disk)
    requires DistinctNoteIds(entries) && AllConvert(cfg, cats, entries)
    ensures var r := SyncRun(policy, cfg, cats, entries, [], disk);
      var items := PlanOf(cfg, cats, entries).items;
      && r.Synced?
      && |items| == |entries|
      && forall k :: 0 <= k < |entries| ==>
        && AllocatedFor(items[k], Keys(items[..k]), entries[k], cats, cfg)
        && items[k].path in r.disk
        && r.disk[items[k].path] == WriteNote(policy, ContentOf(entries[k]), entries[k].lastModifiedMillis, entries[k].createdMillis)
  {
    var plan := PlanOf(cfg, cats, entries);
    var items := plan.items;
    PlanCrash(cfg, cats, entries);
    PlanDistinctIds(cfg, cats, entries);
    PlanDistinctPaths(cfg, cats, entries);
    PlanOfEntries(cfg, cats, entries);
    var r := SyncRun(policy, cfg, cats, entries, [], disk);
    assert r == Execute(policy, plan, cfg.safeMode, [], disk);
    ExecuteFirstRunHolds(policy, plan, cfg.safeMode, disk);
    forall k | 0 <= k < |entries|
      ensures AllocatedFor(items[k], Keys(items[..k]), entries[k], cats, cfg)
      ensures items[k].path in r.disk
      ensures r.disk[items[k].path] == WriteNote(policy, ContentOf(entries[k]), entries[k].lastModifiedMillis, entries[k].createdMillis)
    {
      assert Holds(policy, r.disk, items[k]);
      assert StandsFor(items[k], entries[k]);
    }
  }

  /** Under `Corrected` every note a run writes is, after that run's
      sweep, on disk at its path with its rendered text and its times. */
  lemma WrittenNotesSurvive(cfg: Config, cats: seq<Category>, entries: seq<Entry>,
                            ledger: seq<LedgerEntry>, disk: Disk)
    requires DistinctNoteIds(entries) && AllConvert(cfg, cats, entries)
    ensures var r := SyncRun(Corrected, cfg, cats, entries, ledger, disk);
      var items := PlanOf(cfg, cats, entries).items;
      && r.Synced?
      && forall k :: 0 <= k < |items| && r.actions[k] != Skipped ==>
        && items[k].path in r.disk
        && r.disk[items[k].path] == Written(ContentOf(entries[k]), entries[k].lastModifiedMillis, entries[k].createdMillis)
  {
    var plan := PlanOf(cfg, cats, entries);
    var r := SyncRun(Corrected, cfg, cats, entries, ledger, disk);
    assert r == Execute(Corrected, plan, cfg.safeMode, ledger, disk);
    PlanDistinctIds(cfg, cats, entries);
    PlanDistinctPaths(cfg, cats, entries);
    PlanOfEntries(cfg, cats, entries);
    ExecuteKeepsWritten(plan, cfg.safeMode, ledger, disk);
    forall k | 0 <= k < |plan.items| && r.actions[k] != Skipped
      ensures plan.items[k].path in r.disk
      ensures r.disk[plan.items[k].path] == Written(ContentOf(entries[k]), entries[k].lastModifiedMillis, entries[k].createdMillis)
    {
      assert Holds(Corrected, r.disk, plan.items[k]);
      assert StandsFor(plan.items[k], entries[k]);
    }
  }

  /** The update step as written, for one renamed note: the new file is
      written, the ledger keeps the old path, and the sweep then deletes
      the file just written. The rename changes more than letter case, so
      the two paths name different files on any file system. */
  lemma RenamedItemIsSwept(it: Item, oldPath: string, oldTime: int, disk: Disk)
    requires IsMarkdown(it.path) && Lower(oldPath) != Lower(it.path) && oldTime < it.mtime
    ensures var o := Apply(AsWritten, [it], [LedgerEntry(it.id, oldPath, oldTime)], disk);
      && o.actions == [Updated]
      && o.ledger == [LedgerEntry(it.id, oldPath, it.mtime)]
      && it.path in o.disk
      && it.path !in Sweep(o.disk, o.ledger, false)
  {
    var l := [LedgerEntry(it.id, oldPath, oldTime)];
    var s := StepItem(AsWritten, l, disk, it);
    assert Lookup(l, it.id) == Some(0);
    assert Apply(AsWritten, [it], l, disk) == Outcome(s.ledger, s.disk, [s.action]);
    assert !Tracked(s.ledger, it.path);
  }

  /** The converter as written: a note that changed, and whose file name
      changed since the last run, is written to its new path, keeps its old
      path in the ledger, and so loses its new file to the sweep. The new
      path is the plain `<file name>.md` in the note's folder, since it is
      the only note of the run; it differs from the old one in more than
      letter case. */
  lemma RenamedNoteIsSwept(cfg: Config, cats: seq<Category>, e: Entry, oldPath: string, oldTime: int, disk: Disk)
    requires !cfg.safeMode && FromEntry(e, cats, cfg).Success?
    requires oldTime < e.lastModifiedMillis
    requires var n := FromEntry(e, cats, cfg).value;
      Lower(oldPath) != Lower(Join(n.saveDir, n.fileName + ".md"))
    ensures var n := FromEntry(e, cats, cfg).value;
      var r := SyncRun(AsWritten, cfg, cats, [e], [LedgerEntry(n.id, oldPath, oldTime)], disk);
      && r.Synced?
      && r.actions == [Updated]
      && r.ledger == [LedgerEntry(n.id, oldPath, e.lastModifiedMillis)]
      && Join(n.saveDir, n.fileName + ".md") !in r.disk
  {
    var n := FromEntry(e, cats, cfg).value;
    var it := OnlyItem(cfg, cats, e);
    RenamedItemIsSwept(it, oldPath, oldTime, disk);
    var l := [LedgerEntry(n.id, oldPath, oldTime)];
    assert SyncRun(AsWritten, cfg, cats, [e], l, disk) == Execute(AsWritten, PlanOf(cfg, cats, [e]), false, l, disk);
  }

  /** The plan of a one-entry backup: its note at the plain
      `<file name>.md` in its folder. */
  lemma OnlyItem(cfg: Config, cats: seq<Category>, e: Entry) returns (it: Item)
    requires FromEntry(e, cats, cfg).Success?
    ensures var n := FromEntry(e, cats, cfg).value;
      && PlanOf(cfg, cats, [e]) == Plan([it], [Lower(it.path)], None)
      && it.id == n.id && it.mtime == e.lastModifiedMillis
      && it.path == Join(n.saveDir, n.fileName + ".md")
      && IsMarkdown(it.path)
  {
    var n := FromEntry(e, cats, cfg).value;
    var a := Allocate([], n.saveDir, n.fileName);
    it := ItemOf(n, a);
    var rs := Conversions(cfg, cats, [e]);
    assert rs[0] == Success(n);
    assert rs[1..] == [];
    assert Prefix(rs) == Conversion([n], None);
    assert [n][1..] == [];
    assert Place([n], []) == Placed([it], a.used);
    assert a.used == [Lower(it.path)];
    assert PlanOf(cfg, cats, [e]) == Plan(Place([n], []).items, Place([n], []).used, None);
    ChosenIsFirst([], n.saveDir, n.fileName, 0);
    CandidateText(n.saveDir, n.fileName, 0);
    CandidateExtension(n.saveDir, n.fileName, 0);
  }
}
