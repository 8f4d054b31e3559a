/**
 * Putting a new exam together: how many files are selected, the name each
 * selected file gets in the exam directory, the mapping lines of an
 * anonymized exam, the progress ids of the files actually copied, and the
 * week whose makefile serves as the template.
 */
module Assembly {
  import opened Wrappers
  import opened Strings
  import opened Sorting
  import opened Scanner
  import opened Mapping
  import opened Progress

  /** The two prefix flags `main` derives from `--only-p` and `--only-r`:
      one flag selects its own letter, none or both select both. */
  function PrefixFlags(onlyP: bool, onlyR: bool): (flags: (bool, bool))
    ensures flags.0 || flags.1
    ensures onlyP != onlyR ==> flags == (onlyP, onlyR)
    ensures onlyP == onlyR ==> flags == (true, true)
  {
    var includeP := !onlyR;
    var includeR := !onlyP;
    if onlyP && onlyR then (true, true) else (includeP, includeR)
  }

  /** The scan `main` runs always has a prefix letter to look for. */
  lemma FlagsSelectSomething(onlyP: bool, onlyR: bool)
    ensures Prefixes(PrefixFlags(onlyP, onlyR).0, PrefixFlags(onlyP, onlyR).1) != {}
  {
    var f := PrefixFlags(onlyP, onlyR);
    if f.0 { assert 'p' in Prefixes(f.0, f.1); } else { assert 'r' in Prefixes(f.0, f.1); }
  }

  /** `min(args.num, len(candidates))` as written: a negative `--num` stays negative. */
  function SelectionCountAsWritten(num: int, available: nat): int {
    if num < available then num else available
  }

  /** A negative `--num` passes the `count == 0` guard, so the previous exam is
      archived and only then does `random.sample` reject the negative size. */
  lemma NegativeCountPassesGuard(num: int, available: nat)
    requires num < 0
    ensures SelectionCountAsWritten(num, available) != 0
    ensures SelectionCountAsWritten(num, available) < 0
  {
  }

  /** The count clamped to `0..available`: with no candidates or a count that
      is not positive nothing is selected. */
  function SelectionCount(num: int, available: nat): (count: nat)
    ensures count <= available
    ensures count == 0 <==> num <= 0 || available == 0
    ensures num >= 0 ==> count == SelectionCountAsWritten(num, available)
  {
    if num <= 0 then 0 else if num < available then num else available
  }

  /** What `random.sample(pool, k)` may return: `k` different members of the pool. */
  predicate IsSample(selected: seq<FilePath>, pool: seq<FilePath>, k: nat) {
    && |selected| == k
    && (forall i, j :: 0 <= i < j < |selected| ==> selected[i] != selected[j])
    && (forall i :: 0 <= i < |selected| ==> selected[i] in pool)
  }

  /** The content of the first entry called `name`. */
  function EntryContent(entries: seq<FileEntry>, name: string): (r: Option<string>)
    ensures r.Some? <==> exists e :: e in entries && e.name == name
    decreases |entries|
  {
    if |entries| == 0 then None
    else if entries[0].name == name then Some(entries[0].content)
    else
      assert forall e :: e in entries ==> e == entries[0] || e in entries[1..];
      EntryContent(entries[1..], name)
  }

  /** The content of `week/name` in the root, if there is such a file. */
  function Lookup(root: seq<WeekDir>, week: string, name: string): Option<string>
    decreases |root|
  {
    if |root| == 0 then None
    else if root[0].name == week then EntryContent(root[0].entries, name)
    else Lookup(root[1..], week, name)
  }

  /** The file copied for a selection: `name.pristine` when it exists, the file itself otherwise. */
  function SourceContent(root: seq<WeekDir>, p: FilePath): Option<string> {
    match Lookup(root, p.week, p.name + ".pristine")
    case Some(c) => Some(c)
    case None => Lookup(root, p.week, p.name)
  }

  /** The exam-directory name of the k-th selected file (k from 1). */
  function SessionName(p: FilePath, k: nat, anonymize: bool): string {
    if anonymize then TaskName(k) else p.week + "." + p.name
  }

  /** What the selection loop produces: the names written to the exam
      directory, the mapping lines, the ids of the files copied, and the
      copied contents by exam name. */
  datatype Assembled = Assembled(names: seq<string>, mappingLines: seq<string>, newIds: set<string>, copies: map<string, string>)

  /** The i-th selected file (from 0) is copied: its copy did not fail and
      there is a file to copy. */
  predicate Copied(root: seq<WeekDir>, selected: seq<FilePath>, copyOk: nat -> bool, i: nat)
    requires i < |selected|
  {
    copyOk(i) && SourceContent(root, selected[i]).Some?
  }

  /** The selection loop over `selected`: each file gets a mapping line when
      anonymized, whether or not its copy then succeeds; a copied file adds
      its exam name and its id. */
  function Assemble(root: seq<WeekDir>, selected: seq<FilePath>, anonymize: bool, copyOk: nat -> bool): Assembled
    decreases |selected|
  {
    if |selected| == 0 then Assembled([], [], {}, map[])
    else
      var a := Assemble(root, selected[..|selected| - 1], anonymize, copyOk);
      var k := |selected|;
      var p := selected[k - 1];
      var lines := if anonymize then a.mappingLines + [MappingLine(k, Id(p))] else a.mappingLines;
      var src := SourceContent(root, p);
      if copyOk(k - 1) && src.Some? then
        var name := SessionName(p, k, anonymize);
        Assembled(a.names + [name], lines, a.newIds + {Id(p)}, a.copies[name := src.value])
      else
        Assembled(a.names, lines, a.newIds, a.copies)
  }

  /** The loop `for idx, src_path in enumerate(selected)` of `main`. */
  method AssembleSelection(root: seq<WeekDir>, selected: seq<FilePath>, anonymize: bool, copyOk: nat -> bool)
    returns (finalFilenames: seq<string>, mappingLines: seq<string>, newIds: set<string>, copies: map<string, string>)
    ensures Assembled(finalFilenames, mappingLines, newIds, copies) == Assemble(root, selected, anonymize, copyOk)
  {
    finalFilenames, mappingLines, newIds, copies := [], [], {}, map[];
    for idx := 0 to |selected|
      invariant Assembled(finalFilenames, mappingLines, newIds, copies) == Assemble(root, selected[..idx], anonymize, copyOk)
    {
      assert selected[..idx + 1][..idx] == selected[..idx];
      var srcPath := selected[idx];
      var finalSrc := SourceContent(root, srcPath);
      var destName := SessionName(srcPath, idx + 1, anonymize);
      if anonymize {
        mappingLines := mappingLines + [MappingLine(idx + 1, Id(srcPath))];
      }
      if copyOk(idx) && finalSrc.Some? {
        copies := copies[destName := finalSrc.value];
        finalFilenames := finalFilenames + [destName];
        newIds := newIds + {Id(srcPath)};
      }
    }
    assert selected[..|selected|] == selected;
  }

  function SelectedIds(selected: seq<FilePath>): (ids: seq<string>)
    ensures |ids| == |selected|
    ensures forall i :: 0 <= i < |selected| ==> ids[i] == Id(selected[i])
  {
    seq(|selected|, i requires 0 <= i < |selected| => Id(selected[i]))
  }

  /** An anonymized exam has the mapping line `task_k.c = week/name` for every
      selected file, copied or not; a shown exam has none. */
  lemma {:induction false} AssembledMappingLines(root: seq<WeekDir>, selected: seq<FilePath>, anonymize: bool, copyOk: nat -> bool)
    ensures Assemble(root, selected, anonymize, copyOk).mappingLines
         == if anonymize then MappingLines(SelectedIds(selected)) else []
    decreases |selected|
  {
    if |selected| > 0 {
      var init := selected[..|selected| - 1];
      AssembledMappingLines(root, init, anonymize, copyOk);
      assert SelectedIds(selected)[..|selected| - 1] == SelectedIds(init);
    }
  }

  /** The progress ids a generation adds are exactly those of the files whose
      copy succeeded, in either naming mode. */
  lemma {:induction false} AssembledIds(root: seq<WeekDir>, selected: seq<FilePath>, anonymize: bool, copyOk: nat -> bool, x: string)
    ensures x in Assemble(root, selected, anonymize, copyOk).newIds
        <==> exists i :: 0 <= i < |selected| && Copied(root, selected, copyOk, i) && Id(selected[i]) == x
    decreases |selected|
  {
    if |selected| > 0 {
      var n := |selected|;
      var init := selected[..n - 1];
      AssembledIds(root, init, anonymize, copyOk, x);
      if exists i :: 0 <= i < n && Copied(root, selected, copyOk, i) && Id(selected[i]) == x {
        var i :| 0 <= i < n && Copied(root, selected, copyOk, i) && Id(selected[i]) == x;
        if i < n - 1 { assert init[i] == selected[i]; assert Copied(root, init, copyOk, i); }
      }
      if exists i :: 0 <= i < n - 1 && Copied(root, init, copyOk, i) && Id(init[i]) == x {
        var i :| 0 <= i < n - 1 && Copied(root, init, copyOk, i) && Id(init[i]) == x;
        assert selected[i] == init[i];
        assert Copied(root, selected, copyOk, i);
      }
    }
  }

  /** The exam names are those of the copied files, in selection order: the
      k-th selected file is `task_k.c` when anonymized and `week.name` when shown. */
  lemma {:induction false} AssembledNames(root: seq<WeekDir>, selected: seq<FilePath>, anonymize: bool, copyOk: nat -> bool, name: string)
    ensures name in Assemble(root, selected, anonymize, copyOk).names
        <==> exists i :: 0 <= i < |selected| && Copied(root, selected, copyOk, i) && name == SessionName(selected[i], i + 1, anonymize)
    ensures name in Assemble(root, selected, anonymize, copyOk).copies
        <==> name in Assemble(root, selected, anonymize, copyOk).names
    decreases |selected|
  {
    if |selected| > 0 {
      var n := |selected|;
      var init := selected[..n - 1];
      AssembledNames(root, init, anonymize, copyOk, name);
      if exists i :: 0 <= i < n && Copied(root, selected, copyOk, i) && name == SessionName(selected[i], i + 1, anonymize) {
        var i :| 0 <= i < n && Copied(root, selected, copyOk, i) && name == SessionName(selected[i], i + 1, anonymize);
        if i < n - 1 { assert init[i] == selected[i]; assert Copied(root, init, copyOk, i); }
      }
      if exists i :: 0 <= i < n - 1 && Copied(root, init, copyOk, i) && name == SessionName(init[i], i + 1, anonymize) {
        var i :| 0 <= i < n - 1 && Copied(root, init, copyOk, i) && name == SessionName(init[i], i + 1, anonymize);
        assert selected[i] == init[i];
        assert Copied(root, selected, copyOk, i);
      }
    }
  }

  /** `week.name` determines the file when the week is a month directory: the
      third character is either the dot or the newline of a three-character week. */
  lemma ShowNamesDistinct(p: FilePath, q: FilePath)
    requires IsMonthDir(p.week) && IsMonthDir(q.week)
    requires p.week + "." + p.name == q.week + "." + q.name
    ensures p == q
  {
    var s := p.week + "." + p.name;
    var t := q.week + "." + q.name;
    assert s[2] == '.' <==> |p.week| == 2;
    assert t[2] == '.' <==> |q.week| == 2;
    assert |p.week| == |q.week|;
    assert p.week == s[..|p.week|] == q.week;
    assert p.name == s[|p.week| + 1..] == q.name;
  }

  /** Different selected files get different exam names, in both modes, when
      their weeks are month directories. */
  lemma SessionNamesDistinct(selected: seq<FilePath>, anonymize: bool, i: nat, j: nat)
    requires i < j < |selected| && selected[i] != selected[j]
    requires IsMonthDir(selected[i].week) && IsMonthDir(selected[j].week)
    ensures SessionName(selected[i], i + 1, anonymize) != SessionName(selected[j], j + 1, anonymize)
  {
    if anonymize {
      if TaskName(i + 1) == TaskName(j + 1) { TaskNameInjective(i + 1, j + 1); }
    } else {
      if SessionName(selected[i], i + 1, false) == SessionName(selected[j], j + 1, false) {
        ShowNamesDistinct(selected[i], selected[j]);
      }
    }
  }

  /** No exam name is `makefile` or `00_mapping.txt`, so the copies never
      collide with the files the generator itself writes. */
  lemma SessionNameReserved(p: FilePath, k: nat, anonymize: bool)
    requires IsMonthDir(p.week)
    ensures SessionName(p, k, anonymize) != "makefile"
    ensures SessionName(p, k, anonymize) != "00_mapping.txt"
  {
    var s := SessionName(p, k, anonymize);
    if anonymize {
      assert s[0] == 't';
    } else {
      assert s[0] == p.week[0] && s[1] == p.week[1];
      assert s[0] != 'm';
      assert s[1] != '0' || s[0] != '0';
    }
  }

  /** Every file `random.sample` can draw from the candidates sits in a month
      directory and has not been processed. */
  lemma SampleFromCandidates(root: seq<WeekDir>, target: set<string>, prefixes: set<char>, processed: set<string>,
                             selected: seq<FilePath>, k: nat, i: nat)
    requires IsSample(selected, Candidates(root, target, prefixes, processed), k)
    requires i < |selected|
    ensures IsMonthDir(selected[i].week)
    ensures Id(selected[i]) !in processed
  {
    CandidatesMembership(root, target, prefixes, processed, selected[i]);
  }

  /** No two copies of a generation land on the same exam name, in either
      mode, so no copied file replaces another. */
  lemma {:induction false} AssembledNamesDistinct(root: seq<WeekDir>, selected: seq<FilePath>, anonymize: bool, copyOk: nat -> bool)
    requires forall i, j :: 0 <= i < j < |selected| ==> selected[i] != selected[j]
    requires forall i :: 0 <= i < |selected| ==> IsMonthDir(selected[i].week)
    ensures Distinct(Assemble(root, selected, anonymize, copyOk).names)
    decreases |selected|
  {
    if |selected| > 0 {
      var n := |selected|;
      var init := selected[..n - 1];
      AssembledNamesDistinct(root, init, anonymize, copyOk);
      var a := Assemble(root, init, anonymize, copyOk);
      if copyOk(n - 1) && SourceContent(root, selected[n - 1]).Some? {
        var x := SessionName(selected[n - 1], n, anonymize);
        AssembledNames(root, init, anonymize, copyOk, x);
        if x in a.names {
          var i :| 0 <= i < n - 1 && Copied(root, init, copyOk, i) && x == SessionName(init[i], i + 1, anonymize);
          SessionNamesDistinct(selected, anonymize, i, n - 1);
        }
        assert x !in a.names;
        var names := a.names + [x];
        assert forall i :: 0 <= i < |a.names| ==> names[i] == a.names[i];
      }
    }
  }

  /** The newest week with a makefile: the greatest month-directory name among
      those holding a `makefile`, the earliest listed on a tie. */
  function BestWeek(dirs: seq<WeekDir>): Option<WeekDir>
    decreases |dirs|
  {
    if |dirs| == 0 then None
    else
      var b := BestWeek(dirs[..|dirs| - 1]);
      var d := dirs[|dirs| - 1];
      if !(IsMonthDir(d.name) && HasEntry(d, "makefile")) then b
      else match b
        case None => Some(d)
        case Some(e) => if StrLe(d.name, e.name) then b else Some(d)
  }

  predicate HoldsTemplate(d: WeekDir) {
    IsMonthDir(d.name) && HasEntry(d, "makefile")
  }

  /** `copy_support_files` picks a month directory holding a makefile whose
      name no other such directory exceeds, and fails exactly when there is none. */
  lemma {:induction false} BestWeekIsNewest(dirs: seq<WeekDir>)
    ensures BestWeek(dirs).None? <==> forall d :: d in dirs ==> !HoldsTemplate(d)
    ensures BestWeek(dirs).Some? ==> BestWeek(dirs).value in dirs && HoldsTemplate(BestWeek(dirs).value)
    ensures BestWeek(dirs).Some? ==> forall d :: d in dirs && HoldsTemplate(d) ==> StrLe(d.name, BestWeek(dirs).value.name)
    decreases |dirs|
  {
    if |dirs| > 0 {
      var init := dirs[..|dirs| - 1];
      var d := dirs[|dirs| - 1];
      BestWeekIsNewest(init);
      assert dirs == init + [d];
      var b := BestWeek(init);
      if HoldsTemplate(d) {
        StrLeRefl(d.name);
        if b.Some? {
          StrLeTotal(d.name, b.value.name);
          if !StrLe(d.name, b.value.name) {
            forall x | x in init && HoldsTemplate(x) ensures StrLe(x.name, d.name) {
              StrLeTrans(x.name, b.value.name, d.name);
            }
          }
        }
      }
    }
  }

  /** The support files `copy_support_files` copies when it finds them. */
  const SupportFiles: set<string> := {"pb152.cpp", "pb152io.c", ".helper.sh"}

  /** A support file is taken from the chosen week, else from the root. */
  function SupportSource(best: WeekDir, rootFiles: map<string, string>, name: string): Option<string> {
    match EntryContent(best.entries, name)
    case Some(c) => Some(c)
    case None => if name in rootFiles then Some(rootFiles[name]) else None
  }

  function SupportCopies(best: WeekDir, rootFiles: map<string, string>): (copies: map<string, string>)
    ensures forall f :: f in copies <==> f in SupportFiles && SupportSource(best, rootFiles, f).Some?
  {
    map f | f in SupportFiles && SupportSource(best, rootFiles, f).Some? :: SupportSource(best, rootFiles, f).value
  }

  /** The template week's copy of a support file shadows the root's; the
      root's copy is taken only when the week has none, and a file in neither
      place is not copied. */
  lemma SupportShadowing(best: WeekDir, rootFiles: map<string, string>, f: string)
    requires f in SupportFiles
    ensures HasEntry(best, f) ==>
      f in SupportCopies(best, rootFiles) && SupportCopies(best, rootFiles)[f] == EntryContent(best.entries, f).value
    ensures !HasEntry(best, f) && f in rootFiles ==>
      f in SupportCopies(best, rootFiles) && SupportCopies(best, rootFiles)[f] == rootFiles[f]
    ensures !HasEntry(best, f) && f !in rootFiles ==> f !in SupportCopies(best, rootFiles)
  {
  }

  /** No exam name of a selected file is a support file name: a task name
      starts with `t`, a show name with the digit of its month. */
  lemma SessionNameNotSupport(p: FilePath, k: nat, anonymize: bool)
    requires IsMonthDir(p.week)
    ensures SessionName(p, k, anonymize) !in SupportFiles
  {
    var s := SessionName(p, k, anonymize);
    if anonymize {
      assert s[0] == 't';
    } else {
      assert s[0] == p.week[0];
    }
    assert "pb152.cpp"[0] == 'p' && "pb152io.c"[0] == 'p' && ".helper.sh"[0] == '.';
  }
}
