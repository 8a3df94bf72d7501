/** The maintenance script: for every fixed category it lists the category's folder,
    keeps the visible regular files, sorts them, renames the i-th one to
    `<i + 1><extension in lower case>` and records the resulting names in the
    manifest. The file system is a map from folder name to directory; whether each
    `os.rename` succeeds is an input. */
module UpdateGallery {
  import opened Text
  import opened Order

  /** A directory entry: a regular file with its bytes, a subfolder, or something
      else (a device, say). */
  datatype Entry = File(data: seq<bv8>) | Subfolder | Other

  /** A folder: entry name to entry. */
  type Directory = map<string, Entry>

  /** The keys of `CATEGORIES`, in order; each category's folder has its own name. */
  const Categories: seq<string> := ["wins", "losses", "funny", "toxic", "hackers", "glitch_abuser", "history"]

  predicate Hidden(name: string) {
    |name| > 0 && name[0] == '.'
  }

  predicate Distinct(s: seq<string>) {
    forall i, j :: 0 <= i < j < |s| ==> s[i] != s[j]
  }

  /** `os.listdir` gives every name of the folder once, in an unspecified order. */
  ghost predicate IsListing(listing: seq<string>, dir: Directory) {
    Distinct(listing) && forall n :: n in dir <==> n in listing
  }

  /** A name the script processes: a regular file whose name does not start with a dot. */
  predicate Eligible(dir: Directory, name: string) {
    name in dir && dir[name].File? && !Hidden(name)
  }

  /** The list comprehension that filters the listing. */
  function Eligibles(listing: seq<string>, dir: Directory): (r: seq<string>)
    ensures forall n :: n in r <==> n in listing && Eligible(dir, n)
  {
    if listing == [] then []
    else (if Eligible(dir, listing[0]) then [listing[0]] else []) + Eligibles(listing[1..], dir)
  }

  /** The files in the order they are numbered: filtered, then sorted. */
  function SortedFiles(listing: seq<string>, dir: Directory): seq<string> {
    SortNames(Eligibles(listing, dir))
  }

  /** `os.path.splitext` on a name without a slash: the extension runs from the
      last dot to the end, unless only dots come before that dot. */
  function SplitExt(name: string): (string, string) {
    AfterLastDotSpec(name);
    var after := AfterLastDot(name);
    if |after| == |name| then (name, [])
    else
      var d := |name| - |after| - 1;
      if forall k :: 0 <= k < d ==> name[k] == '.' then (name, [])
      else (name[..d], name[d..])
  }

  /** The two parts rejoin to the name. A non-empty extension is a dot followed by
      dot-free text, and something other than a dot comes before it. An empty one
      means every dot of the name has only dots before it. */
  lemma SplitExtSpec(name: string)
    ensures var (root, ext) := SplitExt(name);
      && root + ext == name
      && (ext != [] ==> ext[0] == '.' && '.' !in ext[1..])
      && (ext != [] ==> exists k :: 0 <= k < |root| && root[k] != '.')
      && (ext == [] ==> forall k, j :: 0 <= j < k < |name| && name[k] == '.' ==> name[j] == '.')
  {
    AfterLastDotSpec(name);
  }

  /** `f"{i + 1}{ext.lower()}"`. */
  function NewName(i: nat, name: string): string {
    DecimalString(i + 1) + ToLower(SplitExt(name).1)
  }

  /** The name is taken by a subfolder, onto which a file cannot be renamed. */
  predicate Blocked(d: Directory, name: string) {
    name in d && d[name].Subfolder?
  }

  /** One turn of the loop on the directory: nothing when the name is already
      right; otherwise `os.rename`, which, when it succeeds, moves the entry and
      replaces any entry already under the new name. A rename whose source is
      missing, or whose target is a subfolder, fails. */
  function RenameStep(d: Directory, from: string, to: string, ok: bool): Directory {
    if from == to || !ok || from !in d || Blocked(d, to) then d
    else (d - {from})[to := d[from]]
  }

  /** The name the same turn appends to the category's new list. */
  function EntryName(d: Directory, from: string, to: string, ok: bool): string {
    if from == to then to
    else if ok && from in d && !Blocked(d, to) then to
    else from
  }

  /** The two outcomes of a turn: the entry moves and the new name is recorded,
      or nothing changes and the old name is recorded. */
  lemma RenameOutcome(d: Directory, from: string, to: string, ok: bool)
    ensures from == to ==> RenameStep(d, from, to, ok) == d && EntryName(d, from, to, ok) == to
    ensures from != to && ok && from in d && !Blocked(d, to) ==>
      RenameStep(d, from, to, ok) == (d - {from})[to := d[from]] && EntryName(d, from, to, ok) == to
    ensures from != to && !(ok && from in d && !Blocked(d, to)) ==>
      RenameStep(d, from, to, ok) == d && EntryName(d, from, to, ok) == from
  {
  }

  /** Renaming a file onto a subfolder changes nothing and keeps the old name in
      the list, whatever the rest of the system does. */
  lemma RenameOntoSubfolderFails(d: Directory, from: string, to: string, ok: bool)
    requires from != to && Blocked(d, to)
    ensures RenameStep(d, from, to, ok) == d
    ensures EntryName(d, from, to, ok) == from
  {
  }

  /** A rename whose source is not a subfolder moves no subfolder: the subfolders
      are the same before and after. */
  lemma RenameKeepsSubfolders(d: Directory, from: string, to: string, ok: bool)
    requires !Blocked(d, from)
    ensures forall name :: Blocked(RenameStep(d, from, to, ok), name) <==> Blocked(d, name)
  {
  }

  /** The directory after the first `n` turns; `ok(i)` says whether the i-th
      rename succeeds. */
  function AfterSteps(dir: Directory, files: seq<string>, ok: nat -> bool, n: nat): Directory
    requires n <= |files|
    decreases n
  {
    if n == 0 then dir
    else RenameStep(AfterSteps(dir, files, ok, n - 1), files[n - 1], NewName(n - 1, files[n - 1]), ok(n - 1))
  }

  /** The new list after the first `n` turns. */
  function EntriesAfter(dir: Directory, files: seq<string>, ok: nat -> bool, n: nat): seq<string>
    requires n <= |files|
    decreases n
  {
    if n == 0 then []
    else
      var d := AfterSteps(dir, files, ok, n - 1);
      EntriesAfter(dir, files, ok, n - 1) + [EntryName(d, files[n - 1], NewName(n - 1, files[n - 1]), ok(n - 1))]
  }

  /** One turn of the loop, as the two functions above unfold it. */
  lemma StepEquations(dir: Directory, files: seq<string>, ok: nat -> bool, n: nat)
    requires 0 < n <= |files|
    ensures var d, from := AfterSteps(dir, files, ok, n - 1), files[n - 1];
      && AfterSteps(dir, files, ok, n) == RenameStep(d, from, NewName(n - 1, from), ok(n - 1))
      && EntriesAfter(dir, files, ok, n) == EntriesAfter(dir, files, ok, n - 1) + [EntryName(d, from, NewName(n - 1, from), ok(n - 1))]
  {
  }

  /** The effect of turn `i`: the file moves to its new name exactly when the names
      differ, the rename is allowed, the file is there and no subfolder holds the
      new name; the list records the new name unless a needed move did not happen. */
  lemma TurnEffect(dir: Directory, files: seq<string>, ok: nat -> bool, i: nat)
    requires i < |files|
    ensures var d, from, to := AfterSteps(dir, files, ok, i), files[i], NewName(i, files[i]);
      var moved := from != to && ok(i) && from in d && !Blocked(d, to);
      && AfterSteps(dir, files, ok, i + 1) == (if moved then (d - {from})[to := d[from]] else d)
      && EntriesAfter(dir, files, ok, i + 1)
         == EntriesAfter(dir, files, ok, i) + [if from == to || moved then to else from]
  {
    StepEquations(dir, files, ok, i + 1);
    RenameOutcome(AfterSteps(dir, files, ok, i), files[i], NewName(i, files[i]), ok(i));
  }

  /** The inner loop of `update_gallery_manifest` over one category's sorted files. */
  method RenumberFiles(dir: Directory, files: seq<string>, ok: nat -> bool)
    returns (after: Directory, entries: seq<string>)
    ensures after == AfterSteps(dir, files, ok, |files|)
    ensures entries == EntriesAfter(dir, files, ok, |files|)
  {
    after, entries := dir, [];
    var i := 0;
    while i < |files|
      invariant 0 <= i <= |files|
      invariant after == AfterSteps(dir, files, ok, i)
      invariant entries == EntriesAfter(dir, files, ok, i)
    {
      var filename := files[i];
      var newName := NewName(i, filename);
      TurnEffect(dir, files, ok, i);
      if filename != newName {
        var renamed := ok(i) && filename in after && !Blocked(after, newName);
        if !renamed {
          entries := entries + [filename];
          i := i + 1;
          continue;
        }
        after := (after - {filename})[newName := after[filename]];
      }
      entries := entries + [newName];
      i := i + 1;
    }
  }

  /** What one category's folder turns into, and the list its manifest entry gets. */
  function FolderAfter(dir: Directory, listing: seq<string>, ok: nat -> bool): Directory {
    var files := SortedFiles(listing, dir);
    AfterSteps(dir, files, ok, |files|)
  }

  function FolderEntries(dir: Directory, listing: seq<string>, ok: nat -> bool): seq<string> {
    var files := SortedFiles(listing, dir);
    EntriesAfter(dir, files, ok, |files|)
  }

  /** The same for a category of the whole media tree, whose folder may not exist. */
  function CategoryEntries(media: map<string, Directory>, listings: map<string, seq<string>>,
                           oracle: string -> nat -> bool, c: string): seq<string>
    requires c in media ==> c in listings
  {
    if c in media then FolderEntries(media[c], listings[c], oracle(c)) else []
  }

  function CategoryFolder(media: map<string, Directory>, listings: map<string, seq<string>>,
                          oracle: string -> nat -> bool, c: string): Directory
    requires c in media ==> c in listings
  {
    if c in media then FolderAfter(media[c], listings[c], oracle(c)) else map[]
  }

  // Filtering and sorting

  lemma {:induction false} EligiblesDistinct(listing: seq<string>, dir: Directory)
    requires Distinct(listing)
    ensures Distinct(Eligibles(listing, dir))
  {
    if listing != [] {
      EligiblesDistinct(listing[1..], dir);
      assert listing[0] !in listing[1..] by {
        forall j | 0 <= j < |listing[1..]|
          ensures listing[1..][j] != listing[0]
        {
          assert listing[1..][j] == listing[j + 1];
        }
      }
    }
  }

  lemma {:induction false} DistinctCount(s: seq<string>, x: string)
    requires Distinct(s)
    ensures multiset(s)[x] == if x in s then 1 else 0
  {
    if s != [] {
      assert Distinct(s[1..]) by {
        forall i, j | 0 <= i < j < |s[1..]|
          ensures s[1..][i] != s[1..][j]
        {
          assert s[1..][i] == s[i + 1] && s[1..][j] == s[j + 1];
        }
      }
      DistinctCount(s[1..], x);
      assert s == [s[0]] + s[1..];
      assert s[0] !in s[1..] by {
        forall j | 0 <= j < |s[1..]|
          ensures s[1..][j] != s[0]
        {
          assert s[1..][j] == s[j + 1];
        }
      }
    }
  }

  lemma DistinctCard(s: seq<string>)
    requires Distinct(s)
    ensures |set x | x in s| == |s|
  {
    if s != [] {
      var t := s[1..];
      assert Distinct(t) by {
        forall i, j | 0 <= i < j < |t|
          ensures t[i] != t[j]
        {
          assert t[i] == s[i + 1] && t[j] == s[j + 1];
        }
      }
      DistinctCard(t);
      assert s[0] !in t by {
        forall j | 0 <= j < |t|
          ensures t[j] != s[0]
        {
          assert t[j] == s[j + 1];
        }
      }
      assert (set x | x in s) == (set x | x in t) + {s[0]};
    }
  }

  /** A name at two positions occurs at least twice. */
  lemma RepeatCount(s: seq<string>, i: nat, j: nat)
    requires i < j < |s|
    ensures s[i] == s[j] ==> multiset(s)[s[i]] >= 2
  {
    assert s == s[..j] + s[j..];
    assert multiset(s) == multiset(s[..j]) + multiset(s[j..]);
    assert s[i] == s[..j][i];
    assert s[j] == s[j..][0];
  }

  /** Sorting a list of distinct names keeps the names distinct. */
  lemma SortKeepsDistinct(s: seq<string>)
    requires Distinct(s)
    ensures Distinct(SortNames(s))
  {
    var r := SortNames(s);
    forall i, j | 0 <= i < j < |r|
      ensures r[i] != r[j]
    {
      DistinctCount(s, r[i]);
      RepeatCount(r, i, j);
    }
  }

  /** The numbered files are sorted, distinct, and exactly the eligible names of the
      folder, whatever order `os.listdir` gave. */
  lemma SortedFilesSpec(listing: seq<string>, dir: Directory)
    requires IsListing(listing, dir)
    ensures Sorted(SortedFiles(listing, dir))
    ensures Distinct(SortedFiles(listing, dir))
    ensures forall n :: n in SortedFiles(listing, dir) <==> Eligible(dir, n)
  {
    var e := Eligibles(listing, dir);
    SortNamesSorted(e);
    EligiblesDistinct(listing, dir);
    SortKeepsDistinct(e);
    forall n
      ensures n in SortNames(e) <==> n in e
    {
      assert n in SortNames(e) <==> n in multiset(SortNames(e));
    }
  }

  /** The numbering does not depend on the order in which the folder was listed. */
  lemma SortedFilesIgnoreListingOrder(l1: seq<string>, l2: seq<string>, dir: Directory)
    requires IsListing(l1, dir) && IsListing(l2, dir)
    ensures SortedFiles(l1, dir) == SortedFiles(l2, dir)
  {
    var e1, e2 := Eligibles(l1, dir), Eligibles(l2, dir);
    EligiblesDistinct(l1, dir);
    EligiblesDistinct(l2, dir);
    forall x
      ensures multiset(e1)[x] == multiset(e2)[x]
    {
      DistinctCount(e1, x);
      DistinctCount(e2, x);
    }
    assert multiset(e1) == multiset(e2);
    SortNamesSorted(e1);
    SortNamesSorted(e2);
    SortedUnique(SortNames(e1), SortNames(e2));
  }

  // New names

  /** A file `stem.ext` with a visible stem and a dot-free `ext` keeps `.ext`, lower-cased. */
  lemma NewNameOfDotted(i: nat, stem: string, ext: string)
    requires stem != [] && stem[0] != '.' && '.' !in ext
    ensures SplitExt(stem + "." + ext) == (stem, "." + ext)
    ensures NewName(i, stem + "." + ext) == DecimalString(i + 1) + "." + ToLower(ext)
  {
    var name := stem + "." + ext;
    AfterLastDotAppend(stem, ext);
    assert name[..|stem|] == stem;
    assert name[|stem|..] == "." + ext;
    assert name[0] != '.';
    assert ToLower("." + ext) == "." + ToLower(ext);
  }

  /** A visible name holding a dot has an extension: a dot and the dot-free text
      after the last dot. */
  lemma VisibleDottedExtension(f: string)
    requires !Hidden(f) && '.' in f
    ensures SplitExt(f).1 != []
    ensures f == SplitExt(f).0 + "." + SplitExt(f).1[1..]
    ensures '.' !in SplitExt(f).1[1..]
  {
    SplitExtSpec(f);
    var (stem, ext) := SplitExt(f);
    var k :| 0 <= k < |f| && f[k] == '.';
    assert f[0] != '.';
    assert ext != [];
    assert ext == "." + ext[1..];
  }

  /** Such a name is renamed to the number, a dot and its extension's text lower-cased. */
  lemma NewNameOfExtension(i: nat, f: string)
    requires !Hidden(f) && '.' in f
    ensures SplitExt(f).1 != []
    ensures NewName(i, f) == DecimalString(i + 1) + "." + ToLower(SplitExt(f).1[1..])
  {
    VisibleDottedExtension(f);
    var ext := SplitExt(f).1;
    var e := ext[1..];
    assert ext == "." + e;
    assert ToLower(ext) == "." + ToLower(e);
  }

  /** A file without a dot has no extension and is renamed to the bare number. */
  lemma NewNameOfDotless(i: nat, name: string)
    requires '.' !in name
    ensures SplitExt(name) == (name, [])
    ensures NewName(i, name) == DecimalString(i + 1)
  {
    AfterLastDotDotless(name);
  }

  lemma DigitsThenExtension(a: string, x: string)
    requires forall k :: 0 <= k < |a| ==> IsDigit(a[k])
    requires x == [] || x[0] == '.'
    ensures (a + x)[..|a|] == a
    ensures |a + x| == |a| || !IsDigit((a + x)[|a|])
    ensures forall k :: 0 <= k < |a| ==> IsDigit((a + x)[k])
  {
  }

  /** Different positions get different names: the number before the extension
      tells them apart. */
  lemma NewNamesDistinct(i: nat, j: nat, f: string, g: string)
    ensures i != j ==> NewName(i, f) != NewName(j, g)
  {
    if NewName(i, f) == NewName(j, g) {
      SplitExtSpec(f);
      SplitExtSpec(g);
      var a, x := DecimalString(i + 1), ToLower(SplitExt(f).1);
      var b, y := DecimalString(j + 1), ToLower(SplitExt(g).1);
      if x != [] {
        LowerCharDot(SplitExt(f).1[0]);
      }
      if y != [] {
        LowerCharDot(SplitExt(g).1[0]);
      }
      DigitsThenExtension(a, x);
      DigitsThenExtension(b, y);
      assert |a| == |b|;
      assert a == b;
      DecimalStringInjective(i + 1, j + 1);
    }
  }

  /** A new name starts with a digit, so it never counts as hidden. */
  lemma NewNameVisible(i: nat, f: string)
    ensures !Hidden(NewName(i, f))
  {
  }

  // The rename loop

  /** Every file's turn finds it still in the folder: a rename only removes the
      file whose turn it is. */
  lemma {:induction false} PendingFilesPresent(dir: Directory, files: seq<string>, ok: nat -> bool, n: nat)
    requires Distinct(files) && forall f :: f in files ==> f in dir
    requires n <= |files|
    ensures forall j :: n <= j < |files| ==> files[j] in AfterSteps(dir, files, ok, n)
    decreases n
  {
    if n > 0 {
      PendingFilesPresent(dir, files, ok, n - 1);
    }
  }

  /** The entry the i-th file is meant to get: its new name, or its old name when
      that differs and the rename failed or would land on a subfolder. */
  function PlannedEntry(dir: Directory, files: seq<string>, ok: nat -> bool, k: nat): string
    requires k < |files|
  {
    var to := NewName(k, files[k]);
    if files[k] == to || (ok(k) && !Blocked(dir, to)) then to else files[k]
  }

  /** The turns rename regular files only, so the subfolders after `n` turns are
      those the folder started with. */
  lemma {:induction false} SubfoldersKept(dir: Directory, files: seq<string>, ok: nat -> bool, n: nat)
    requires n <= |files| && forall f :: f in files ==> f in dir && dir[f].File?
    ensures forall name :: Blocked(AfterSteps(dir, files, ok, n), name) <==> Blocked(dir, name)
    decreases n
  {
    if n > 0 {
      SubfoldersKept(dir, files, ok, n - 1);
      var from := files[n - 1];
      assert from in files;
      RenameKeepsSubfolders(AfterSteps(dir, files, ok, n - 1), from, NewName(n - 1, from), ok(n - 1));
    }
  }

  /** A turn whose file is present records the planned entry. */
  lemma EntriesStep(dir: Directory, files: seq<string>, ok: nat -> bool, n: nat)
    requires 0 < n <= |files| && forall f :: f in files ==> f in dir && dir[f].File?
    requires files[n - 1] in AfterSteps(dir, files, ok, n - 1)
    ensures EntriesAfter(dir, files, ok, n) == EntriesAfter(dir, files, ok, n - 1) + [PlannedEntry(dir, files, ok, n - 1)]
  {
    SubfoldersKept(dir, files, ok, n - 1);
  }

  /** The planned entries of the first `n` files. */
  function Plan(dir: Directory, files: seq<string>, ok: nat -> bool, n: nat): seq<string>
    requires n <= |files|
  {
    seq(n, k requires 0 <= k < n => PlannedEntry(dir, files, ok, k))
  }

  lemma PlanStep(dir: Directory, files: seq<string>, ok: nat -> bool, n: nat)
    requires 0 < n <= |files|
    ensures Plan(dir, files, ok, n) == Plan(dir, files, ok, n - 1) + [PlannedEntry(dir, files, ok, n - 1)]
  {
    var prev := Plan(dir, files, ok, n - 1);
    var r := prev + [PlannedEntry(dir, files, ok, n - 1)];
    forall k | 0 <= k < n
      ensures Plan(dir, files, ok, n)[k] == r[k]
    {
      if k < n - 1 {
        assert r[k] == prev[k];
      }
    }
  }

  lemma {:induction false} EntriesAsPlanned(dir: Directory, files: seq<string>, ok: nat -> bool, n: nat)
    requires Distinct(files) && forall f :: f in files ==> f in dir && dir[f].File?
    requires n <= |files|
    ensures EntriesAfter(dir, files, ok, n) == Plan(dir, files, ok, n)
    decreases n
  {
    if n > 0 {
      EntriesAsPlanned(dir, files, ok, n - 1);
      PendingFilesPresent(dir, files, ok, n - 1);
      EntriesStep(dir, files, ok, n);
      PlanStep(dir, files, ok, n);
    }
  }

  /** After n turns the list has n entries, each the one planned for its file. */
  lemma EntriesFollowPlan(dir: Directory, files: seq<string>, ok: nat -> bool, n: nat)
    requires Distinct(files) && forall f :: f in files ==> f in dir && dir[f].File?
    requires n <= |files|
    ensures |EntriesAfter(dir, files, ok, n)| == n
    ensures forall k :: 0 <= k < n ==> EntriesAfter(dir, files, ok, n)[k] == PlannedEntry(dir, files, ok, k)
  {
    EntriesAsPlanned(dir, files, ok, n);
  }

  /** One manifest entry per eligible file, in sorted order: the new name where the
      rename succeeded or was not needed, the original name where it failed: the
      oracle says so, or a subfolder already holds the new name. */
  lemma FolderEntriesSpec(dir: Directory, listing: seq<string>, ok: nat -> bool)
    requires IsListing(listing, dir)
    ensures var files := SortedFiles(listing, dir);
      && |FolderEntries(dir, listing, ok)| == |files|
      && forall k :: 0 <= k < |files| ==>
           FolderEntries(dir, listing, ok)[k] ==
             (if files[k] == NewName(k, files[k]) || (ok(k) && !Blocked(dir, NewName(k, files[k])))
              then NewName(k, files[k]) else files[k])
  {
    var files := SortedFiles(listing, dir);
    SortedFilesSpec(listing, dir);
    EntriesFollowPlan(dir, files, ok, |files|);
  }

  /** The manifest list is as long as the folder has eligible files. */
  lemma FolderEntriesCount(dir: Directory, listing: seq<string>, ok: nat -> bool)
    requires IsListing(listing, dir)
    ensures |FolderEntries(dir, listing, ok)| == |set n | n in dir && Eligible(dir, n)|
  {
    var files := SortedFiles(listing, dir);
    FolderEntriesSpec(dir, listing, ok);
    SortedFilesSpec(listing, dir);
    DistinctCard(files);
    assert (set x | x in files) == (set n | n in dir && Eligible(dir, n));
  }

  /** No manifest entry starts with a dot. */
  lemma FolderEntriesVisible(dir: Directory, listing: seq<string>, ok: nat -> bool)
    requires IsListing(listing, dir)
    ensures forall k :: 0 <= k < |FolderEntries(dir, listing, ok)| ==> !Hidden(FolderEntries(dir, listing, ok)[k])
  {
    var files := SortedFiles(listing, dir);
    var entries := FolderEntries(dir, listing, ok);
    SortedFilesSpec(listing, dir);
    EntriesFollowPlan(dir, files, ok, |files|);
    forall k | 0 <= k < |entries|
      ensures !Hidden(entries[k])
    {
      assert files[k] in files;
      NewNameVisible(k, files[k]);
    }
  }

  /** No file's new name is the current name of another file of the folder. */
  ghost predicate NoCollision(files: seq<string>) {
    forall i, j :: 0 <= i < |files| && 0 <= j < |files| && i != j ==> NewName(i, files[i]) != files[j]
  }

  /** A rename step leaves every other name alone. */
  lemma RenameStepFrame(d: Directory, from: string, to: string, ok: bool, name: string)
    requires name != from && name != to
    ensures name in RenameStep(d, from, to, ok) <==> name in d
    ensures name in d ==> RenameStep(d, from, to, ok)[name] == d[name]
  {
  }

  /** After a rename step the file whose turn it was is found under its entry name. */
  lemma RenameStepEntry(d: Directory, from: string, to: string, ok: bool)
    requires from in d
    ensures EntryName(d, from, to, ok) in RenameStep(d, from, to, ok)
    ensures RenameStep(d, from, to, ok)[EntryName(d, from, to, ok)] == d[from]
  {
  }

  /** Without collisions, a file's planned entry is neither another file's
      current name nor its new name. */
  lemma PlannedEntryAvoids(dir: Directory, files: seq<string>, ok: nat -> bool, k: nat, m: nat)
    requires Distinct(files) && NoCollision(files)
    requires k < |files| && m < |files| && k != m
    ensures PlannedEntry(dir, files, ok, k) != files[m]
    ensures PlannedEntry(dir, files, ok, k) != NewName(m, files[m])
  {
    NewNamesDistinct(k, m, files[k], files[m]);
    assert NewName(k, files[k]) != files[m];
    assert NewName(m, files[m]) != files[k];
  }

  /** The folder `d` after the first `n` turns keeps track of every file: the done
      ones under their planned entries, the pending ones under their own names, each
      with its original contents. */
  ghost predicate Tracks(dir: Directory, files: seq<string>, ok: nat -> bool, d: Directory, n: nat)
    requires n <= |files| && forall f :: f in files ==> f in dir
  {
    && (forall k :: 0 <= k < n ==> PlannedEntry(dir, files, ok, k) in d && d[PlannedEntry(dir, files, ok, k)] == dir[files[k]])
    && (forall j :: n <= j < |files| ==> files[j] in d && d[files[j]] == dir[files[j]])
  }

  lemma TracksStep(dir: Directory, files: seq<string>, ok: nat -> bool, d: Directory, n: nat)
    requires Distinct(files) && forall f :: f in files ==> f in dir
    requires NoCollision(files)
    requires n < |files| && Tracks(dir, files, ok, d, n)
    requires Blocked(d, NewName(n, files[n])) <==> Blocked(dir, NewName(n, files[n]))
    ensures Tracks(dir, files, ok, RenameStep(d, files[n], NewName(n, files[n]), ok(n)), n + 1)
  {
    var from, to := files[n], NewName(n, files[n]);
    var d' := RenameStep(d, from, to, ok(n));
    forall k | 0 <= k < n
      ensures PlannedEntry(dir, files, ok, k) in d' && d'[PlannedEntry(dir, files, ok, k)] == dir[files[k]]
    {
      PlannedEntryAvoids(dir, files, ok, k, n);
      RenameStepFrame(d, from, to, ok(n), PlannedEntry(dir, files, ok, k));
    }
    RenameStepEntry(d, from, to, ok(n));
    assert EntryName(d, from, to, ok(n)) == PlannedEntry(dir, files, ok, n);
    forall j | n + 1 <= j < |files|
      ensures files[j] in d' && d'[files[j]] == dir[files[j]]
    {
      assert files[j] != from;
      assert to != files[j];
      RenameStepFrame(d, from, to, ok(n), files[j]);
    }
  }

  lemma {:induction false} NoCollisionSteps(dir: Directory, files: seq<string>, ok: nat -> bool, n: nat)
    requires Distinct(files) && forall f :: f in files ==> f in dir && dir[f].File?
    requires NoCollision(files)
    requires n <= |files|
    ensures Tracks(dir, files, ok, AfterSteps(dir, files, ok, n), n)
    decreases n
  {
    if n > 0 {
      NoCollisionSteps(dir, files, ok, n - 1);
      SubfoldersKept(dir, files, ok, n - 1);
      TracksStep(dir, files, ok, AfterSteps(dir, files, ok, n - 1), n - 1);
    }
  }

  /** When no new name is taken by another file, every manifest entry names a file of
      the folder afterwards, holding the contents of the file it was made from. */
  lemma NoCollisionKeepsTrack(dir: Directory, listing: seq<string>, ok: nat -> bool)
    requires IsListing(listing, dir)
    requires NoCollision(SortedFiles(listing, dir))
    ensures var files, entries, after := SortedFiles(listing, dir), FolderEntries(dir, listing, ok), FolderAfter(dir, listing, ok);
      && |entries| == |files|
      && forall k :: 0 <= k < |files| ==>
           files[k] in dir && entries[k] in after && after[entries[k]] == dir[files[k]]
  {
    var files := SortedFiles(listing, dir);
    SortedFilesSpec(listing, dir);
    EntriesFollowPlan(dir, files, ok, |files|);
    NoCollisionSteps(dir, files, ok, |files|);
  }

  /** When a file's new name is the name of a later file and the rename succeeds,
      the later file is overwritten before its own turn. */
  lemma CollisionOverwrites(dir: Directory, files: seq<string>, ok: nat -> bool, i: nat, j: nat)
    requires Distinct(files) && forall f :: f in files ==> f in dir && dir[f].File?
    requires i < j < |files| && NewName(i, files[i]) == files[j] && ok(i)
    ensures files[i] in AfterSteps(dir, files, ok, i) && files[j] in AfterSteps(dir, files, ok, i + 1)
    ensures AfterSteps(dir, files, ok, i + 1)[files[j]] == AfterSteps(dir, files, ok, i)[files[i]]
  {
    PendingFilesPresent(dir, files, ok, i);
    SubfoldersKept(dir, files, ok, i);
    assert files[j] in files;
  }

  /** Entries other than the numbered files and their new names are left alone. */
  lemma {:induction false} AfterStepsFrame(dir: Directory, files: seq<string>, ok: nat -> bool, n: nat, name: string)
    requires n <= |files|
    requires name !in files
    requires forall k :: 0 <= k < |files| ==> NewName(k, files[k]) != name
    ensures name in AfterSteps(dir, files, ok, n) <==> name in dir
    ensures name in dir ==> AfterSteps(dir, files, ok, n)[name] == dir[name]
    decreases n
  {
    if n > 0 {
      AfterStepsFrame(dir, files, ok, n - 1, name);
    }
  }

  /** Hidden entries keep their place and contents. */
  lemma HiddenEntriesUntouched(dir: Directory, listing: seq<string>, ok: nat -> bool, name: string)
    requires IsListing(listing, dir)
    requires Hidden(name) && name in dir
    ensures name in FolderAfter(dir, listing, ok) && FolderAfter(dir, listing, ok)[name] == dir[name]
  {
    var files := SortedFiles(listing, dir);
    SortedFilesSpec(listing, dir);
    forall k | 0 <= k < |files|
      ensures NewName(k, files[k]) != name
    {
      NewNameVisible(k, files[k]);
    }
    AfterStepsFrame(dir, files, ok, |files|, name);
  }

  function AlwaysOk(i: nat): bool {
    true
  }

  // A folder holding `1.png`, `10.png` and `2.png`

  /** A visible stem followed by a lower-case extension keeps the extension as it is. */
  lemma LowerExtensionKept(i: nat, stem: string, ext: string, name: string, numeral: string)
    requires stem != [] && stem[0] != '.'
    requires '.' !in ext && forall k :: 0 <= k < |ext| ==> !IsUpper(ext[k])
    requires name == stem + "." + ext && numeral == DecimalString(i + 1)
    ensures NewName(i, name) == numeral + "." + ext
  {
    NewNameOfDotted(i, stem, ext);
    ToLowerNoCapitals(ext);
  }

  lemma ExampleNewNameOne()
    ensures NewName(0, "1.png") == "1.png"
  {
    LowerExtensionKept(0, "1", "png", "1.png", "1");
  }

  lemma ExampleNewNameTen()
    ensures NewName(1, "10.png") == "2.png"
  {
    LowerExtensionKept(1, "10", "png", "10.png", "2");
  }

  lemma ExampleNewNameTwo()
    ensures NewName(2, "2.png") == "3.png"
  {
    LowerExtensionKept(2, "2", "png", "2.png", "3");
  }

  lemma ExampleNewNames()
    ensures NewName(0, "1.png") == "1.png"
    ensures NewName(1, "10.png") == "2.png"
    ensures NewName(2, "2.png") == "3.png"
  {
    ExampleNewNameOne();
    ExampleNewNameTen();
    ExampleNewNameTwo();
  }

  lemma ExampleInsertTen()
    ensures Insert("10.png", ["1.png"]) == ["1.png", "10.png"]
  {
    assert !NotAfter("10.png", "1.png");
  }

  lemma ExampleInsertTwo()
    ensures Insert("2.png", ["1.png", "10.png"]) == ["1.png", "10.png", "2.png"]
  {
    assert !NotAfter("2.png", "1.png");
    assert !NotAfter("2.png", "10.png");
  }

  /** `1.png` sorts before `10.png` (a dot comes before a digit), which sorts before `2.png`. */
  lemma ExampleSortNames()
    ensures SortNames(["2.png", "10.png", "1.png"]) == ["1.png", "10.png", "2.png"]
  {
    ExampleInsertTen();
    assert SortNames(["10.png", "1.png"]) == ["1.png", "10.png"];
    ExampleInsertTwo();
  }

  lemma ExampleSortedFiles(a: Entry, b: Entry, c: Entry)
    requires a.File? && b.File? && c.File?
    ensures SortedFiles(["2.png", "10.png", "1.png"], map["2.png" := c, "10.png" := b, "1.png" := a])
      == ["1.png", "10.png", "2.png"]
  {
    var dir := map["2.png" := c, "10.png" := b, "1.png" := a];
    var l := ["2.png", "10.png", "1.png"];
    assert Eligible(dir, "2.png") && Eligible(dir, "10.png") && Eligible(dir, "1.png");
    assert l[1..] == ["10.png", "1.png"];
    assert l[1..][1..] == ["1.png"];
    assert Eligibles(["1.png"], dir) == ["1.png"];
    assert Eligibles(l, dir) == l;
    ExampleSortNames();
  }

  lemma ExampleRenames(a: Entry, b: Entry, c: Entry)
    requires a.File? && b.File? && c.File?
    ensures RenameStep(map["2.png" := c, "10.png" := b, "1.png" := a], "10.png", "2.png", true)
      == map["2.png" := b, "1.png" := a]
    ensures RenameStep(map["2.png" := b, "1.png" := a], "2.png", "3.png", true)
      == map["1.png" := a, "3.png" := b]
    ensures EntryName(map["2.png" := c, "10.png" := b, "1.png" := a], "10.png", "2.png", true) == "2.png"
    ensures EntryName(map["2.png" := b, "1.png" := a], "2.png", "3.png", true) == "3.png"
  {
    RenameOutcome(map["2.png" := c, "10.png" := b, "1.png" := a], "10.png", "2.png", true);
    RenameOutcome(map["2.png" := b, "1.png" := a], "2.png", "3.png", true);
  }

  /** Three turns of the loop, spelled out. */
  lemma ThreeSteps(dir: Directory, x: string, y: string, z: string, ok: nat -> bool)
    ensures
      var d1 := RenameStep(dir, x, NewName(0, x), ok(0));
      var d2 := RenameStep(d1, y, NewName(1, y), ok(1));
      && AfterSteps(dir, [x, y, z], ok, 3) == RenameStep(d2, z, NewName(2, z), ok(2))
      && EntriesAfter(dir, [x, y, z], ok, 3)
         == [EntryName(dir, x, NewName(0, x), ok(0)), EntryName(d1, y, NewName(1, y), ok(1)),
             EntryName(d2, z, NewName(2, z), ok(2))]
  {
    var files := [x, y, z];
    assert AfterSteps(dir, files, ok, 1) == RenameStep(dir, x, NewName(0, x), ok(0));
  }

  lemma ExampleSteps(a: Entry, b: Entry, c: Entry)
    requires a.File? && b.File? && c.File?
    ensures
      var dir := map["2.png" := c, "10.png" := b, "1.png" := a];
      var files := ["1.png", "10.png", "2.png"];
      && AfterSteps(dir, files, AlwaysOk, 3) == map["1.png" := a, "3.png" := b]
      && EntriesAfter(dir, files, AlwaysOk, 3) == ["1.png", "2.png", "3.png"]
  {
    ExampleNewNames();
    ExampleRenames(a, b, c);
    ThreeSteps(map["2.png" := c, "10.png" := b, "1.png" := a], "1.png", "10.png", "2.png", AlwaysOk);
  }

  lemma ExampleFolderFiles(dir: Directory, listing: seq<string>, a: Entry, b: Entry, c: Entry)
    requires a.File? && b.File? && c.File?
    requires dir == map["2.png" := c, "10.png" := b, "1.png" := a]
    requires listing == ["2.png", "10.png", "1.png"]
    ensures SortedFiles(listing, dir) == ["1.png", "10.png", "2.png"]
  {
    ExampleSortedFiles(a, b, c);
  }

  lemma ExampleFolderSteps(dir: Directory, files: seq<string>, a: Entry, b: Entry, c: Entry)
    requires a.File? && b.File? && c.File?
    requires dir == map["2.png" := c, "10.png" := b, "1.png" := a]
    requires files == ["1.png", "10.png", "2.png"]
    ensures AfterSteps(dir, files, AlwaysOk, |files|) == map["1.png" := a, "3.png" := b]
    ensures EntriesAfter(dir, files, AlwaysOk, |files|) == ["1.png", "2.png", "3.png"]
  {
    ExampleSteps(a, b, c);
  }

  lemma TwoValues(m: Directory, x: string, y: string, a: Entry, b: Entry, c: Entry)
    requires m == map[x := a, y := b] && c != a && c != b
    ensures c !in m.Values
  {
  }

  /** The collision on a folder holding `1.png`, `10.png` and `2.png`, listed in any
      order, when every rename succeeds: `10.png` becomes `2.png`, replacing the
      original `2.png`, which then becomes `3.png`. The manifest lists `2.png`, which
      no longer exists, and the contents of the original `2.png` are gone. */
  lemma CollisionExample(dir: Directory, listing: seq<string>, a: Entry, b: Entry, c: Entry)
    requires a.File? && b.File? && c.File? && c != a && c != b
    requires dir == map["2.png" := c, "10.png" := b, "1.png" := a]
    requires listing == ["2.png", "10.png", "1.png"]
    ensures FolderEntries(dir, listing, AlwaysOk) == ["1.png", "2.png", "3.png"]
    ensures FolderAfter(dir, listing, AlwaysOk) == map["1.png" := a, "3.png" := b]
    ensures "2.png" !in FolderAfter(dir, listing, AlwaysOk)
    ensures c !in FolderAfter(dir, listing, AlwaysOk).Values
  {
    ExampleFolderFiles(dir, listing, a, b, c);
    ExampleFolderSteps(dir, SortedFiles(listing, dir), a, b, c);
    TwoValues(FolderAfter(dir, listing, AlwaysOk), "1.png", "3.png", a, b, c);
  }

  /** The fixed categories are distinct, so each gets its manifest entry once. */
  lemma CategoriesDistinct()
    ensures Distinct(Categories)
  {
  }

  /** After the first `n` categories: those are in the manifest with their lists
      and their folders renumbered (or created), and the other folders untouched. */
  ghost predicate Processed(cats: seq<string>, n: nat, media: map<string, Directory>,
                            listings: map<string, seq<string>>, oracle: string -> nat -> bool,
                            after: map<string, Directory>, manifest: map<string, seq<string>>)
    requires n <= |cats|
    requires forall c :: c in media ==> c in listings
  {
    && (forall c :: c in manifest <==> c in cats[..n])
    && (forall c :: c in cats[..n] ==> manifest[c] == CategoryEntries(media, listings, oracle, c))
    && (forall c :: c in after <==> c in media || c in cats[..n])
    && (forall c :: c in cats[..n] ==> after[c] == CategoryFolder(media, listings, oracle, c))
    && (forall c :: c in media && c !in cats[..n] ==> after[c] == media[c])
  }

  /** One turn of the loop over categories keeps `Processed`. */
  lemma ProcessedStep(cats: seq<string>, n: nat, media: map<string, Directory>,
                      listings: map<string, seq<string>>, oracle: string -> nat -> bool,
                      after: map<string, Directory>, manifest: map<string, seq<string>>)
    requires Distinct(cats) && n < |cats|
    requires forall c :: c in media ==> c in listings
    requires Processed(cats, n, media, listings, oracle, after, manifest)
    ensures Processed(cats, n + 1, media, listings, oracle,
                      after[cats[n] := CategoryFolder(media, listings, oracle, cats[n])],
                      manifest[cats[n] := CategoryEntries(media, listings, oracle, cats[n])])
  {
    var c := cats[n];
    assert c !in cats[..n];
    assert cats[..n + 1] == cats[..n] + [c];
  }

  /** The loop of `update_gallery_manifest` over the given categories. */
  method UpdateCategories(cats: seq<string>, media: map<string, Directory>,
                          listings: map<string, seq<string>>, oracle: string -> nat -> bool)
    returns (after: map<string, Directory>, manifest: map<string, seq<string>>)
    requires Distinct(cats)
    requires forall c :: c in media ==> c in listings
    ensures forall c :: c in manifest <==> c in cats
    ensures forall c :: c in cats ==> manifest[c] == CategoryEntries(media, listings, oracle, c)
    ensures forall c :: c in after <==> c in media || c in cats
    ensures forall c :: c in cats ==> after[c] == CategoryFolder(media, listings, oracle, c)
    ensures forall c :: c in media && c !in cats ==> after[c] == media[c]
  {
    after, manifest := media, map[];
    var i := 0;
    while i < |cats|
      invariant 0 <= i <= |cats|
      invariant Processed(cats, i, media, listings, oracle, after, manifest)
    {
      var c := cats[i];
      ProcessedStep(cats, i, media, listings, oracle, after, manifest);
      assert c !in cats[..i];
      if c !in after {
        after := after[c := map[]];
        manifest := manifest[c := []];
      } else {
        var files := SortNames(Eligibles(listings[c], after[c]));
        var folder, entries := RenumberFiles(after[c], files, oracle(c));
        after := after[c := folder];
        manifest := manifest[c := entries];
      }
      i := i + 1;
    }
    assert cats[..|cats|] == cats;
  }

  /** `update_gallery_manifest()`: `media` holds the folders that exist, `listings`
      what `os.listdir` returns for each, and `oracle(c)(i)` whether renaming the
      i-th file of category `c` succeeds. A missing folder is created empty and
      gets an empty list. */
  method UpdateGalleryManifest(media: map<string, Directory>, listings: map<string, seq<string>>,
                               oracle: string -> nat -> bool)
    returns (after: map<string, Directory>, manifest: map<string, seq<string>>)
    requires forall c :: c in media ==> c in listings
    ensures forall c :: c in manifest <==> c in Categories
    ensures forall c :: c in Categories ==> manifest[c] == CategoryEntries(media, listings, oracle, c)
    ensures forall c :: c in after <==> c in media || c in Categories
    ensures forall c :: c in Categories ==> after[c] == CategoryFolder(media, listings, oracle, c)
    ensures forall c :: c in media && c !in Categories ==> after[c] == media[c]
    ensures forall c :: c in Categories && c !in media ==> manifest[c] == [] && after[c] == map[]
  {
    CategoriesDistinct();
    after, manifest := UpdateCategories(Categories, media, listings, oracle);
  }
}
