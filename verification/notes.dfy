/** One backup entry turned into a note: its identity, title, category,
    rendered body, target folder and file name (the `Note` class of
    mx2md.py). */
module Notes {
  import opened Results
  import opened Text
  import opened Flags

  /** One line of a note: plain notes have a single section, checklists one
      per item. */
  datatype Section = Section(id: string, checkable: bool, checked: bool, text: string)

  /** A decoded backup entry. `createdDay` is the `YYYY-MM-DD` rendering of
      `createdMillis` in the host's local time zone, computed outside the
      model. */
  datatype Entry = Entry(
    order: int,
    title: Option<string>,
    flags: int,
    createdMillis: int,
    createdDay: string,
    lastModifiedMillis: int,
    colorNum: int,
    sections: seq<Section>,
    attachments: seq<string>)

  /** One row of the backup's category table. */
  datatype Category = Category(num: int, title: string)

  /** The command-line switches that the note logic and the sync pass read.
      `dest` is the output folder (already ending in `Memorix`). */
  datatype Config = Config(
    dest: string,
    safeMode: bool,
    ignoreTrash: bool,
    ignoreArchive: bool,
    separateTrash: bool,
    separateArchive: bool)

  datatype Note = Note(
    id: string,
    title: string,
    flags: int,
    fontSize: FontSize,
    ctime: int,
    mtime: int,
    category: string,
    attachments: seq<string>,
    content: string,
    saveDir: string,
    fileName: string)

  /** Why an entry cannot become a note. The converter itself stops with an
      uncaught exception in both cases. */
  datatype NoteError =
    | NoSections                  // `sections[0]` raises IndexError
    | UnknownCategory(color: int) // `os.path.join(path, None)` raises TypeError

  /** `"Note " + str(order)`, the name of an untitled note. */
  function DefaultTitle(order: int): string {
    "Note " + IntToString(order)
  }

  /** `determine_title`. */
  function TitleOf(e: Entry): (r: string)
    ensures e.title.Some? && !AllSpace(e.title.value) ==> r == Trim(e.title.value)
    ensures !(e.title.Some? && !AllSpace(e.title.value)) ==> r == DefaultTitle(e.order)
    ensures r != []
  {
    if e.title.Some? && Trim(e.title.value) != "" then Trim(e.title.value) else DefaultTitle(e.order)
  }

  /** `determine_category`: the title of the first table row with the
      entry's colour, if any. */
  function CategoryOf(cats: seq<Category>, color: int): (r: Option<string>)
    ensures r.None? <==> forall k :: 0 <= k < |cats| ==> cats[k].num != color
    ensures r.Some? ==> exists k :: 0 <= k < |cats| && cats[k].num == color && cats[k].title == r.value
                                    && forall j :: 0 <= j < k ==> cats[j].num != color
  {
    if |cats| == 0 then None
    else if cats[0].num == color then Some(cats[0].title)
    else
      var r := CategoryOf(cats[1..], color);
      assert r.Some? ==> exists k :: 0 <= k < |cats| && cats[k].num == color && cats[k].title == r.value
                                      && forall j :: 0 <= j < k ==> cats[j].num != color by {
        if r.Some? {
          var k :| 0 <= k < |cats| - 1 && cats[1..][k].num == color && cats[1..][k].title == r.value
                   && forall j :: 0 <= j < k ==> cats[1..][j].num != color;
          assert forall j :: 1 <= j < k + 1 ==> cats[j].num == cats[1..][j - 1].num;
        }
      }
      r
  }

  /** One checklist line. */
  function ItemLine(s: Section): string {
    (if s.checked then "- [x] " else "- [ ] ") + s.text + "\n"
  }

  /** The checklist body: one line per section, in order. */
  function Checklist(sections: seq<Section>): string {
    if |sections| == 0 then "" else ItemLine(sections[0]) + Checklist(sections[1..])
  }

  /** Rendering a checklist is rendering its parts one after the other. */
  lemma {:induction false} ChecklistAppend(a: seq<Section>, b: seq<Section>)
    ensures Checklist(a + b) == Checklist(a) + Checklist(b)
  {
    if |a| > 0 {
      assert (a + b)[0] == a[0];
      assert (a + b)[1..] == a[1..] + b;
      ChecklistAppend(a[1..], b);
      calc {
        Checklist(a + b);
        ItemLine(a[0]) + Checklist(a[1..] + b);
        ItemLine(a[0]) + (Checklist(a[1..]) + Checklist(b));
      }
    } else {
      assert a + b == b;
    }
  }

  function Embeds(attachments: seq<string>): string {
    if |attachments| == 0 then "" else "\n![[" + attachments[0] + "]]\n" + Embeds(attachments[1..])
  }

  lemma {:induction false} EmbedsAppend(a: seq<string>, b: seq<string>)
    ensures Embeds(a + b) == Embeds(a) + Embeds(b)
  {
    if |a| > 0 {
      assert (a + b)[0] == a[0];
      assert (a + b)[1..] == a[1..] + b;
      EmbedsAppend(a[1..], b);
      calc {
        Embeds(a + b);
        "\n![[" + a[0] + "]]\n" + Embeds(a[1..] + b);
        "\n![[" + a[0] + "]]\n" + (Embeds(a[1..]) + Embeds(b));
      }
    } else {
      assert a + b == b;
    }
  }

  /** The block appended to every note: nothing without attachments,
      otherwise a counted header and one embed per attachment. */
  function AttachmentBlock(attachments: seq<string>): (r: string)
    ensures r == "" <==> |attachments| == 0
    ensures |attachments| > 0 ==>
      r == "\n\nAttachments (" + NatToString(|attachments|) + "):" + Embeds(attachments)
  {
    if |attachments| > 0 then
      "\n\nAttachments (" + NatToString(|attachments|) + "):" + Embeds(attachments)
    else ""
  }

  /** `determine_content`: only the first section's `checkable` flag
      chooses between the plain and the checklist rendering. */
  function ContentOf(e: Entry): (r: string)
    requires |e.sections| > 0
  {
    if !e.sections[0].checkable then e.sections[0].text + AttachmentBlock(e.attachments)
    else Checklist(e.sections) + AttachmentBlock(e.attachments)
  }

  /** What a rendered note consists of, for each kind of note. */
  lemma ContentShape(e: Entry)
    requires |e.sections| > 0
    ensures !e.sections[0].checkable ==> ContentOf(e) == e.sections[0].text + AttachmentBlock(e.attachments)
    ensures e.sections[0].checkable ==> ContentOf(e) == Checklist(e.sections) + AttachmentBlock(e.attachments)
    ensures e.sections[0].checkable && |e.sections| == 1 && |e.attachments| == 0 ==>
      ContentOf(e) == ItemLine(e.sections[0])
    ensures |e.attachments| == 0 ==>
      ContentOf(e) == (if e.sections[0].checkable then Checklist(e.sections) else e.sections[0].text)
  {
    if |e.sections| == 1 {
      assert e.sections[1..] == [];
    }
  }

  /** A three-item checklist: Milk and Bread checked, Eggs not. */
  lemma GroceryChecklist()
    ensures Checklist([Section("1", true, true, "Milk"), Section("2", true, false, "Eggs"),
                       Section("3", true, true, "Bread")])
            == "- [x] Milk\n- [ ] Eggs\n- [x] Bread\n"
  {
  }

  /** Trashed notes go to a `Trash` folder only when trash is both separated
      and not ignored. */
  predicate GoesToTrash(cfg: Config, flags: int) {
    IsTrashed(flags) && cfg.separateTrash && !cfg.ignoreTrash
  }

  predicate GoesToArchive(cfg: Config, flags: int) {
    IsArchived(flags) && cfg.separateArchive && !cfg.ignoreArchive
  }

  /** `determine_save_dir`. */
  function SaveDir(cfg: Config, flags: int, category: string): (r: string)
    ensures GoesToTrash(cfg, flags) ==> r == Join(Join(cfg.dest, "Trash"), category)
    ensures !GoesToTrash(cfg, flags) && GoesToArchive(cfg, flags) ==> r == Join(Join(cfg.dest, "Archive"), category)
    ensures !GoesToTrash(cfg, flags) && !GoesToArchive(cfg, flags) ==> r == Join(cfg.dest, category)
  {
    var path :=
      if IsTrashed(flags) && cfg.separateTrash && !cfg.ignoreTrash then Join(cfg.dest, "Trash")
      else if IsArchived(flags) && cfg.separateArchive && !cfg.ignoreArchive then Join(cfg.dest, "Archive")
      else cfg.dest;
    Join(path, category)
  }

  /** Without the two `separate` switches every note shares its category
      folder, whatever its state and whatever is ignored. */
  lemma SharedFolderUnlessSeparated(cfg: Config, flags: int, other: int, category: string)
    requires !cfg.separateTrash && !cfg.separateArchive
    ensures SaveDir(cfg, flags, category) == SaveDir(cfg, other, category) == Join(cfg.dest, category)
  {
  }

  /** Trash wins over Archive, and ignoring trash puts a trashed note back
      where the state flags say. */
  lemma TrashRouting(cfg: Config, flags: int, category: string)
    requires IsTrashed(flags) && IsArchived(flags)
    ensures cfg.separateTrash && !cfg.ignoreTrash ==>
      SaveDir(cfg, flags, category) == Join(Join(cfg.dest, "Trash"), category)
    ensures cfg.ignoreTrash && cfg.separateArchive && !cfg.ignoreArchive ==>
      SaveDir(cfg, flags, category) == Join(Join(cfg.dest, "Archive"), category)
  {
  }

  /** The characters kept in a file name: `\w` (approximated by ASCII
      letters, digits and underscore), period, space and hyphen. */
  predicate IsWordChar(c: char) {
    ('a' <= c <= 'z') || ('A' <= c <= 'Z') || ('0' <= c <= '9') || c == '_'
  }

  predicate Allowed(c: char) {
    IsWordChar(c) || c == '_' || c == '.' || c == ' ' || c == '-'
  }

  /** `re.sub(r'[^\w_. -]', '', s)`. */
  function KeepAllowed(s: string): (r: string)
    ensures |r| <= |s|
    ensures forall k :: 0 <= k < |r| ==> Allowed(r[k])
    ensures forall c :: c in r <==> c in s && Allowed(c)
  {
    if |s| == 0 then ""
    else
      var rest := KeepAllowed(s[1..]);
      assert forall c :: c in s <==> c == s[0] || c in s[1..];
      if Allowed(s[0]) then [s[0]] + rest else rest
  }

  /** A string of allowed characters is left alone by the filter. */
  lemma {:induction false} KeepAllowedIdentity(s: string)
    requires forall k :: 0 <= k < |s| ==> Allowed(s[k])
    ensures KeepAllowed(s) == s
  {
    if |s| > 0 {
      KeepAllowedIdentity(s[1..]);
    }
  }

  /** A one-character string is kept exactly when its character is
      allowed. */
  lemma KeepAllowedOne(c: char)
    ensures KeepAllowed([c]) == if Allowed(c) then [c] else []
  {
    assert [c][1..] == [];
  }

  /** The filter works character by character: filtering two strings
      one after the other is filtering their concatenation, so every kept
      character stays in place and keeps its multiplicity. */
  lemma {:induction false} KeepAllowedAppend(a: string, b: string)
    ensures KeepAllowed(a + b) == KeepAllowed(a) + KeepAllowed(b)
    decreases |a|
  {
    if |a| == 0 {
      assert a + b == b;
    } else {
      assert (a + b)[0] == a[0];
      assert (a + b)[1..] == a[1..] + b;
      KeepAllowedAppend(a[1..], b);
    }
  }

  /** Trimming keeps a property every character already has. */
  lemma TrimAllowed(s: string)
    requires forall k :: 0 <= k < |s| ==> Allowed(s[k])
    ensures forall k :: 0 <= k < |Trim(s)| ==> Allowed(Trim(s)[k])
  {
    var m := Trim(s);
    var i := LeadingSpaces(s);
    FramedChars(s, m, i);
    forall k | 0 <= k < |m| ensures Allowed(m[k]) {
      assert m[k] == s[i + k];
    }
  }

  lemma DefaultTitleAllowed(order: int)
    ensures forall k :: 0 <= k < |DefaultTitle(order)| ==> Allowed(DefaultTitle(order)[k])
    ensures |DefaultTitle(order)| > 0 && DefaultTitle(order)[0] == 'N'
  {
    var d := DefaultTitle(order);
    var n := IntToString(order);
    assert forall k :: 5 <= k < |d| ==> d[k] == n[k - 5];
  }

  /** The part of the file name after the date. */
  function NameMiddle(title: string, order: int): (m: string)
    ensures m != [] && !IsSpace(m[0])
    ensures forall k :: 0 <= k < |m| ==> Allowed(m[k])
    ensures Trim(KeepAllowed(title)) != "" ==> m == Trim(KeepAllowed(title))
    ensures Trim(KeepAllowed(title)) == "" ==> m == DefaultTitle(order)
  {
    var m := Trim(KeepAllowed(title));
    TrimAllowed(KeepAllowed(title));
    DefaultTitleAllowed(order);
    PrintableNotSpace('N');
    if m != "" then m else DefaultTitle(order)
  }

  function Take(s: string, n: nat): (r: string)
    ensures |r| == if |s| < n then |s| else n
    ensures r == s[..|r|]
  {
    if |s| <= n then s else s[..n]
  }

  /** `determine_file_name`: the creation day, a space, and at most fifty
      allowed characters of the title. */
  function FileNameOf(e: Entry, title: string): (r: string)
    ensures |e.createdDay| + 2 <= |r| <= |e.createdDay| + 51
    ensures r[..|e.createdDay| + 1] == e.createdDay + " "
    ensures !IsSpace(r[|e.createdDay| + 1])
    ensures forall k :: |e.createdDay| + 1 <= k < |r| ==> Allowed(r[k])
    ensures Trim(KeepAllowed(title)) != "" ==>
      r[|e.createdDay| + 1..] == Take(Trim(KeepAllowed(title)), 50)
    ensures Trim(KeepAllowed(title)) == "" ==>
      r[|e.createdDay| + 1..] == Take(DefaultTitle(e.order), 50)
  {
    var m := NameMiddle(title, e.order);
    var t := Take(m, 50);
    DatedNameParts(e.createdDay, t);
    assert forall k :: 0 <= k < |t| ==> t[k] == m[k];
    e.createdDay + " " + t
  }

  lemma DatedNameParts(day: string, t: string)
    ensures (day + " " + t)[..|day| + 1] == day + " "
    ensures (day + " " + t)[|day| + 1..] == t
    ensures forall k :: |day| + 1 <= k < |day| + 1 + |t| ==> (day + " " + t)[k] == t[k - |day| - 1]
  {
  }

  /** `Note(entry, categories)`: every field of the note, or the error the
      converter would raise on this entry. */
  function FromEntry(e: Entry, cats: seq<Category>, cfg: Config): (r: Result<Note, NoteError>)
    ensures |e.sections| == 0 <==> r == Failure(NoSections)
    ensures |e.sections| > 0 ==> (r.Failure? <==> CategoryOf(cats, e.colorNum).None?)
    ensures r.Failure? && |e.sections| > 0 ==> r.error == UnknownCategory(e.colorNum)
    ensures r.Success? ==>
      && |e.sections| > 0
      && r.value.id == e.sections[0].id
      && r.value.mtime == e.lastModifiedMillis
      && r.value.ctime == e.createdMillis
      && r.value.title == TitleOf(e)
      && r.value.content == ContentOf(e)
      && CategoryOf(cats, e.colorNum) == Some(r.value.category)
      && r.value.saveDir == SaveDir(cfg, e.flags, r.value.category)
      && r.value.fileName == FileNameOf(e, r.value.title)
  {
    if |e.sections| == 0 then Failure(NoSections)
    else
      match CategoryOf(cats, e.colorNum)
      case None => Failure(UnknownCategory(e.colorNum))
      case Some(category) =>
        var title := TitleOf(e);
        Success(Note(
          e.sections[0].id,
          title,
          e.flags,
          FontSizeOf(e.flags),
          e.createdMillis,
          e.lastModifiedMillis,
          category,
          e.attachments,
          ContentOf(e),
          SaveDir(cfg, e.flags, category),
          FileNameOf(e, title)))
  }
}
