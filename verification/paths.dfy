/** The collision-free file name search of the per-note loop: `stem.md`,
    then `stem 1.md`, `stem 2.md`, ... until the lower-cased path is not
    among the names already handed out in this run. */
module Paths {
  import opened Text

  /** The end of the `k`-th candidate name. */
  function Suffix(k: nat): (r: string)
    ensures NoUpper(r) && |r| >= 3 && r[0] != '/'
    ensures IsMarkdown(r)
  {
    if k == 0 then ".md" else
      MarkdownAppend(" " + NatToString(k), ".md");
      " " + NatToString(k) + ".md"
  }

  /** The `k`-th path tried for a note: `k == 0` is the plain name. */
  function Candidate(dir: string, stem: string, k: nat): string {
    Join(dir, stem + Suffix(k))
  }

  /** The candidates spelled as the converter builds them. */
  lemma CandidateText(dir: string, stem: string, k: nat)
    ensures k == 0 ==> Candidate(dir, stem, k) == Join(dir, stem + ".md")
    ensures k > 0 ==> Candidate(dir, stem, k) == Join(dir, stem + " " + NatToString(k) + ".md")
  {
    if k > 0 {
      assert stem + " " + NatToString(k) + ".md" == stem + Suffix(k);
    }
  }

  /** Every candidate is a Markdown file name. */
  lemma CandidateExtension(dir: string, stem: string, k: nat)
    ensures IsMarkdown(Candidate(dir, stem, k))
  {
    MarkdownAppend(stem, Suffix(k));
    MarkdownEnding(Candidate(dir, stem, k), stem + Suffix(k));
  }

  /** The form in which the run remembers a path. */
  function Key(dir: string, stem: string, k: nat): string {
    Lower(Candidate(dir, stem, k))
  }

  lemma SuffixInjective(i: nat, j: nat)
    requires Suffix(i) == Suffix(j)
    ensures i == j
  {
    if i > 0 && j > 0 {
      var a, b := NatToString(i), NatToString(j);
      assert a == Suffix(i)[1..|Suffix(i)| - 3];
      assert b == Suffix(j)[1..|Suffix(j)| - 3];
      NatToStringInjective(i, j);
    }
  }

  /** Distinct attempts never denote the same file, even case-insensitively:
      this is what makes the search progress. */
  lemma {:induction false} KeyInjective(dir: string, stem: string, i: nat, j: nat)
    requires Key(dir, stem, i) == Key(dir, stem, j)
    ensures i == j
  {
    var base := Join(dir, stem);
    JoinAppend(dir, stem, Suffix(i));
    JoinAppend(dir, stem, Suffix(j));
    LowerAppend(base, Suffix(i));
    LowerAppend(base, Suffix(j));
    LowerNoUpper(Suffix(i));
    LowerNoUpper(Suffix(j));
    var lb := Lower(base);
    assert Key(dir, stem, i) == lb + Suffix(i);
    assert Key(dir, stem, j) == lb + Suffix(j);
    assert Suffix(i) == (lb + Suffix(i))[|lb|..];
    assert Suffix(j) == (lb + Suffix(j))[|lb|..];
    SuffixInjective(i, j);
  }

  /** The keys of the attempts before `k`. */
  function Tried(dir: string, stem: string, k: nat): set<string> {
    set j | 0 <= j < k :: Key(dir, stem, j)
  }

  /** Every attempt before `k` was taken. */
  predicate AllTaken(used: seq<string>, dir: string, stem: string, k: nat) {
    forall j :: 0 <= j < k ==> Key(dir, stem, j) in used
  }

  /** The names still to be ruled out once `k` attempts were made. */
  function Remaining(used: seq<string>, dir: string, stem: string, k: nat): set<string> {
    (set u | u in used) - Tried(dir, stem, k)
  }

  /** The search, continued from attempt `k`: the first free attempt. The
      names still to be ruled out shrink at every step, because no two
      attempts share a key. */
  function FirstFree(used: seq<string>, dir: string, stem: string, k: nat): (n: nat)
    requires AllTaken(used, dir, stem, k)
    ensures k <= n
    ensures Key(dir, stem, n) !in used
    ensures AllTaken(used, dir, stem, n)
    decreases Remaining(used, dir, stem, k)
  {
    if Key(dir, stem, k) !in used then k
    else
      ShrinkingSearch(used, dir, stem, k);
      FirstFree(used, dir, stem, k + 1)
  }

  /** One taken attempt leaves strictly fewer names to rule out. */
  lemma ShrinkingSearch(used: seq<string>, dir: string, stem: string, k: nat)
    requires Key(dir, stem, k) in used
    ensures Remaining(used, dir, stem, k + 1) < Remaining(used, dir, stem, k)
  {
    var key := Key(dir, stem, k);
    if key in Tried(dir, stem, k) {
      var j :| 0 <= j < k && Key(dir, stem, j) == key;
      KeyInjective(dir, stem, j, k);
    }
    assert key in (set u | u in used) - Tried(dir, stem, k);
    assert key !in (set u | u in used) - Tried(dir, stem, k + 1);
  }

  /** What one allocation returns: the chosen path and the grown list. */
  datatype Allocation = Allocation(path: string, used: seq<string>)

  /** The attempt the search settles on. */
  function Chosen(used: seq<string>, dir: string, stem: string): (n: nat)
    ensures Key(dir, stem, n) !in used
    ensures AllTaken(used, dir, stem, n)
  {
    FirstFree(used, dir, stem, 0)
  }

  /** The allocation the per-note loop performs. */
  function Allocate(used: seq<string>, dir: string, stem: string): (a: Allocation)
    ensures a.path == Candidate(dir, stem, Chosen(used, dir, stem))
    ensures Lower(a.path) !in used
    ensures a.used == used + [Lower(a.path)]
  {
    var n := Chosen(used, dir, stem);
    Allocation(Candidate(dir, stem, n), used + [Key(dir, stem, n)])
  }

  /** The chosen attempt is the first free one: a free attempt is never
      skipped, and an attempt that is free with every earlier one taken is
      exactly the chosen one. */
  lemma ChosenIsFirst(used: seq<string>, dir: string, stem: string, k: nat)
    requires Key(dir, stem, k) !in used
    ensures Chosen(used, dir, stem) <= k
    ensures AllTaken(used, dir, stem, k) ==> Chosen(used, dir, stem) == k
  {
    var n := Chosen(used, dir, stem);
    assert AllTaken(used, dir, stem, n);
  }

  /** The `while True` loop of the converter, step by step. */
  method AllocatePath(used: seq<string>, dir: string, stem: string) returns (path: string, used': seq<string>)
    ensures path == Allocate(used, dir, stem).path
    ensures used' == Allocate(used, dir, stem).used
    ensures Lower(path) !in used
    ensures used' == used + [Lower(path)]
  {
    path := Join(dir, stem + ".md");
    CandidateText(dir, stem, 0);
    var counter := 1;
    while Lower(path) in used
      invariant counter >= 1
      invariant path == Candidate(dir, stem, counter - 1)
      invariant AllTaken(used, dir, stem, counter - 1)
      decreases Remaining(used, dir, stem, counter - 1)
    {
      ShrinkingSearch(used, dir, stem, counter - 1);
      path := Join(dir, stem + " " + NatToString(counter) + ".md");
      CandidateText(dir, stem, counter);
      counter := counter + 1;
    }
    ChosenIsFirst(used, dir, stem, counter - 1);
    used' := used + [Lower(path)];
  }

  lemma TeaPlainPath()
    ensures Candidate("M/Food", "D Tea", 0) == "M/Food/D Tea.md"
  {
    CandidateText("M/Food", "D Tea", 0);
    JoinBelow("M/Food", "D Tea.md");
    assert "D Tea" + ".md" == "D Tea.md";
  }

  lemma TeaPlainKey()
    ensures Lower("M/Food/D Tea.md") == "m/food/d tea.md"
  {
  }

  lemma TeaFirstSuffix()
    ensures Candidate("M/Food", "D Tea", 1) == "M/Food/D Tea 1.md"
  {
    assert NatToString(1) == "1";
    assert Suffix(1) == " 1.md";
    assert "D Tea" + " 1.md" == "D Tea 1.md";
    JoinBelow("M/Food", "D Tea 1.md");
  }

  /** Two notes with the same day and title in the same folder get the plain
      name and then the name with ` 1`. */
  lemma SameNameTwice()
    ensures Allocate([], "M/Food", "D Tea").path == "M/Food/D Tea.md"
    ensures Allocate(["m/food/d tea.md"], "M/Food", "D Tea").path == "M/Food/D Tea 1.md"
  {
    var dir, stem := "M/Food", "D Tea";
    TeaPlainPath();
    TeaPlainKey();
    TeaFirstSuffix();
    ChosenIsFirst([], dir, stem, 0);
    ChosenIsFirst(["m/food/d tea.md"], dir, stem, 1);
  }
}
