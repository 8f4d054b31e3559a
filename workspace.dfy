/**
 * The working root of the generator as mutable state: the exam directory
 * (the current session), the archive of finished exams and the progress
 * record, with the three commands that change them: archiving (`done`),
 * revealing (`reveal`) and generating a new exam.
 */
module Exam {
  import opened Wrappers
  import opened Strings
  import opened PyInt
  import opened Sorting
  import opened WeekRange
  import opened Scanner
  import opened Progress
  import opened Mapping
  import opened Makefile
  import opened Assembly

  const MappingFile := "00_mapping.txt"
  const IntroFile := "00_intro.txt"
  const MakefileName := "makefile"

  /** `listing` enumerates the files of the exam directory, each once. */
  predicate ListsSession(listing: seq<string>, session: map<string, string>) {
    && (forall i, j :: 0 <= i < j < |listing| ==> listing[i] != listing[j])
    && (forall x :: x in listing ==> x in session)
    && (forall x :: x in session ==> x in listing)
  }

  /** A file the archiver moves: matched by `*.c`, not a support file, not hidden. */
  predicate Archivable(name: string) {
    EndsWith(name, ".c") && name != "pb152io.c" && name != "pb152.c" && !StartsWith(name, ".")
  }

  /** The dictionary the archiver reads from the mapping file, possibly cut
      short by a rejected line; empty without a mapping file. */
  function SessionMapping(session: map<string, string>): seq<Entry> {
    if MappingFile in session then ReadMapping(FileLines(session[MappingFile])).entries else []
  }

  /** The name an archived file gets: de-anonymized when the mapping knows it. */
  function ArchiveTarget(mapping: seq<Entry>, name: string): string {
    match Get(mapping, name)
    case Some(v) => DeAnonymizedName(v)
    case None => name
  }

  /** `f"exam{index:02d} {timestamp}"`. */
  function FolderName(index: nat, stamp: string): string {
    "exam" + Pad2(index) + " " + stamp
  }

  /** The archive folder's files before the move: it may exist already. */
  function ExistingFolder(archive: map<string, map<string, string>>, dest: string): map<string, string> {
    if dest in archive then archive[dest] else map[]
  }

  /** Some file of the listing is one the archiver tries to move. */
  predicate AnyArchivable(listing: seq<string>) {
    exists i :: 0 <= i < |listing| && Archivable(listing[i])
  }

  /** The files moved into the archive folder by name, for the first
      `|listing|` files of the glob; the i-th move succeeds when `moveOk(i)`. */
  function Archived(session: map<string, string>, listing: seq<string>, mapping: seq<Entry>, moveOk: nat -> bool): map<string, string>
    requires forall x :: x in listing ==> x in session
    decreases |listing|
  {
    if |listing| == 0 then map[]
    else
      var n := |listing| - 1;
      var prior := Archived(session, listing[..n], mapping, moveOk);
      var name := listing[n];
      if Archivable(name) && moveOk(n) then prior[ArchiveTarget(mapping, name) := session[name]] else prior
  }

  lemma UnionUpdate(a: map<string, string>, b: map<string, string>, k: string, v: string)
    ensures a + b[k := v] == (a + b)[k := v]
  {
  }

  /** The `files_moved` counter. */
  function MovedCount(listing: seq<string>, moveOk: nat -> bool): nat
    decreases |listing|
  {
    if |listing| == 0 then 0
    else
      var n := |listing| - 1;
      MovedCount(listing[..n], moveOk) + if Archivable(listing[n]) && moveOk(n) then 1 else 0
  }

  /** The move loop of `archive_existing_exam`: the folder's files after the
      moves, the `files_moved` counter, and whether the folder was created. */
  method MoveFiles(files: map<string, string>, listing: seq<string>, mapping: seq<Entry>, moveOk: nat -> bool,
                   base: map<string, string>)
    returns (folder: map<string, string>, moved: nat, created: bool)
    requires forall x :: x in listing ==> x in files
    ensures folder == base + Archived(files, listing, mapping, moveOk)
    ensures moved == MovedCount(listing, moveOk)
    ensures created == AnyArchivable(listing)
  {
    folder, moved, created := base, 0, false;
    for i := 0 to |listing|
      invariant moved == MovedCount(listing[..i], moveOk)
      invariant folder == base + Archived(files, listing[..i], mapping, moveOk)
      invariant created == AnyArchivable(listing[..i])
    {
      assert listing[..i + 1][..i] == listing[..i];
      assert AnyArchivable(listing[..i + 1]) <==> AnyArchivable(listing[..i]) || Archivable(listing[i]) by {
        assert forall k :: 0 <= k < i ==> listing[..i + 1][k] == listing[..i][k];
      }
      var name := listing[i];
      if Archivable(name) {
        var target := ArchiveTarget(mapping, name);
        created := true;
        if moveOk(i) {
          UnionUpdate(base, Archived(files, listing[..i], mapping, moveOk), target, files[name]);
          folder := folder[target := files[name]];
          moved := moved + 1;
        }
      }
    }
    assert listing[..|listing|] == listing;
  }

  /** The archive after `archive_existing_exam`: unchanged when there is no
      exam directory or it is empty, or when no file was a candidate to move;
      otherwise the folder numbered one past the existing folders holds the
      moved files, over what it held before. */
  function ArchiveAfter(archive: map<string, map<string, string>>, session: map<string, string>, sessionExists: bool,
                        stamp: string, listing: seq<string>, moveOk: nat -> bool): map<string, map<string, string>>
    requires ListsSession(listing, session)
  {
    if !sessionExists || session == map[] || !AnyArchivable(listing) then archive
    else
      var dest := FolderName(|archive| + 1, stamp);
      archive[dest := ExistingFolder(archive, dest) + Archived(session, listing, SessionMapping(session), moveOk)]
  }

  /** The exam directory during reveal and the names revealed so far. */
  datatype RenameState = RenameState(files: map<string, string>, names: seq<string>)

  /** The rename loop of `reveal_exam_files` over the mapping in file order:
      a key present in the directory is moved to its de-anonymized name when
      the i-th move succeeds. */
  function Renamed(session: map<string, string>, entries: seq<Entry>, moveOk: nat -> bool): RenameState
    decreases |entries|
  {
    if |entries| == 0 then RenameState(session, [])
    else
      var n := |entries| - 1;
      var prior := Renamed(session, entries[..n], moveOk);
      var e := entries[n];
      if e.key in prior.files && moveOk(n) then
        var final := DeAnonymizedName(e.value);
        RenameState((prior.files - {e.key})[final := prior.files[e.key]], prior.names + [final])
      else prior
  }

  /** The exam directory after a complete reveal: renamed files, the makefile
      regenerated only when something was renamed, the mapping file removed. */
  function RevealedSession(r: RenameState): map<string, string> {
    var files := if MakefileName in r.files && |r.names| > 0
      then r.files[MakefileName := PatchText(r.files[MakefileName], r.names)]
      else r.files;
    files - {MappingFile}
  }

  /** The archive holds a file under name `t` exactly when some candidate of
      the listing with that archive name was moved. */
  lemma {:induction false} ArchivedMembership(session: map<string, string>, listing: seq<string>, mapping: seq<Entry>,
                                              moveOk: nat -> bool, t: string)
    requires forall x :: x in listing ==> x in session
    ensures t in Archived(session, listing, mapping, moveOk)
        <==> exists i :: 0 <= i < |listing| && Archivable(listing[i]) && moveOk(i) && ArchiveTarget(mapping, listing[i]) == t
    decreases |listing|
  {
    if |listing| > 0 {
      var n := |listing| - 1;
      var init := listing[..n];
      ArchivedMembership(session, init, mapping, moveOk, t);
      assert forall i :: 0 <= i < n ==> init[i] == listing[i];
    }
  }

  /** The counter stays 0 exactly when no move succeeded, and never exceeds
      the number of files listed. */
  lemma {:induction false} MovedCountBounds(listing: seq<string>, moveOk: nat -> bool)
    ensures MovedCount(listing, moveOk) <= |listing|
    ensures MovedCount(listing, moveOk) == 0
        <==> forall i :: 0 <= i < |listing| ==> !(Archivable(listing[i]) && moveOk(i))
    decreases |listing|
  {
    if |listing| > 0 {
      var n := |listing| - 1;
      var init := listing[..n];
      MovedCountBounds(init, moveOk);
      assert forall i :: 0 <= i < n ==> init[i] == listing[i];
    }
  }

  /** Folders made with the same timestamp get different names for different indices. */
  lemma FolderNameInjective(i: nat, j: nat, stamp: string)
    requires FolderName(i, stamp) == FolderName(j, stamp)
    ensures i == j
  {
    var a := FolderName(i, stamp);
    var pi, pj := Pad2(i), Pad2(j);
    Pad2NoSpace(i);
    Pad2NoSpace(j);
    assert a == "exam" + pi + " " + stamp && a == "exam" + pj + " " + stamp;
    assert a[4 + |pi|] == ' ' && a[4 + |pj|] == ' ';
    assert forall k :: 0 <= k < |pi| ==> a[4 + k] == pi[k];
    assert forall k :: 0 <= k < |pj| ==> a[4 + k] == pj[k];
    assert |pi| == |pj|;
    assert Pad2(i) == a[4..4 + |Pad2(i)|];
    assert Pad2(j) == a[4..4 + |Pad2(j)|];
    Pad2Injective(i, j);
  }

  /** An archiving run that moves anything adds one folder, numbered one past
      the existing folders (unless a folder of that name is still there, which
      it joins), and leaves every other folder as it was. */
  lemma ArchiveNumbering(archive: map<string, map<string, string>>, session: map<string, string>, sessionExists: bool,
                         stamp: string, listing: seq<string>, moveOk: nat -> bool)
    requires ListsSession(listing, session)
    ensures var after := ArchiveAfter(archive, session, sessionExists, stamp, listing, moveOk);
      var dest := FolderName(|archive| + 1, stamp);
      && archive.Keys <= after.Keys
      && (forall f :: f in archive && f != dest ==> after[f] == archive[f])
      && |after| == |archive| + (if sessionExists && session != map[] && AnyArchivable(listing) && dest !in archive then 1 else 0)
  {
  }

  /** Reading back the mapping file that an anonymized generation wrote, the
      archiver files `task_k.c` under `week.name`, the name the show mode
      would have given the k-th selected file. */
  lemma ArchiveRestoresShowName(session: map<string, string>, selected: seq<FilePath>, k: nat)
    requires 1 <= k <= |selected|
    requires forall i :: 0 <= i < |selected| ==> CleanValue(Id(selected[i]))
    requires '/' !in selected[k - 1].week && '/' !in selected[k - 1].name
    requires MappingFile in session && session[MappingFile] == MappingText(MappingLines(SelectedIds(selected)))
    ensures ArchiveTarget(SessionMapping(session), TaskName(k)) == SessionName(selected[k - 1], k, false)
  {
    var ids := SelectedIds(selected);
    MappingRoundTrip(ids);
    var m := SessionMapping(session);
    assert m == TaskEntries(ids);
    TaskEntriesGet(m, ids, k);
    DeAnonymizedId(selected[k - 1].week, selected[k - 1].name);
  }

  /** The conditions under which reveal undoes an anonymized generation: the
      selected files are different files of month directories without `/`,
      and no `week.name` is already taken in the exam directory. */
  predicate RevealSetting(session: map<string, string>, selected: seq<FilePath>) {
    && (forall i, j :: 0 <= i < j < |selected| ==> selected[i] != selected[j])
    && (forall i :: 0 <= i < |selected| ==> IsMonthDir(selected[i].week) && '/' !in selected[i].week && '/' !in selected[i].name)
    && (forall i :: 0 <= i < |selected| ==> SessionName(selected[i], i + 1, false) !in session)
  }

  /** Reveal's mapping of an anonymized generation: `task_k.c -> week/name`. */
  predicate TaskLayout(entries: seq<Entry>, selected: seq<FilePath>) {
    && |entries| == |selected|
    && (forall i :: 0 <= i < |entries| ==> entries[i] == Entry(TaskName(i + 1), Id(selected[i])))
  }

  lemma TaskNotShow(k: nat, p: FilePath, j: nat)
    requires IsMonthDir(p.week)
    ensures TaskName(k) != SessionName(p, j, false)
  {
    assert TaskName(k)[0] == 't';
    assert SessionName(p, j, false)[0] == p.week[0];
  }

  /** One rename of the loop: the i-th entry moves `task_(i+1).c` to `week.name`. */
  lemma RenameStep(session: map<string, string>, entries: seq<Entry>, selected: seq<FilePath>, moveOk: nat -> bool, m: nat)
    requires TaskLayout(entries, selected) && RevealSetting(session, selected)
    requires 0 < m <= |entries|
    ensures var prior := Renamed(session, entries[..m - 1], moveOk);
      var key := TaskName(m);
      Renamed(session, entries[..m], moveOk)
        == if key in prior.files && moveOk(m - 1)
           then RenameState((prior.files - {key})[SessionName(selected[m - 1], m, false) := prior.files[key]],
                            prior.names + [SessionName(selected[m - 1], m, false)])
           else prior
  {
    assert entries[..m][..m - 1] == entries[..m - 1];
    assert entries[..m][m - 1] == Entry(TaskName(m), Id(selected[m - 1]));
    DeAnonymizedId(selected[m - 1].week, selected[m - 1].name);
  }

  /** A file reveal does not rename keeps its place: a file of the directory
      that is neither one of the first `m` task names nor a `week.name`. */
  lemma {:induction false} RevealKeeps(session: map<string, string>, entries: seq<Entry>, selected: seq<FilePath>,
                                       moveOk: nat -> bool, m: nat, x: string)
    requires TaskLayout(entries, selected) && RevealSetting(session, selected)
    requires m <= |entries|
    requires x in session && forall j :: 1 <= j <= m ==> x != TaskName(j)
    ensures x in Renamed(session, entries[..m], moveOk).files
    ensures Renamed(session, entries[..m], moveOk).files[x] == session[x]
    decreases m
  {
    if m == 0 {
      assert entries[..0] == [];
    } else {
      RevealKeeps(session, entries, selected, moveOk, m - 1, x);
      RenameStep(session, entries, selected, moveOk, m);
      assert x != SessionName(selected[m - 1], m, false);
    }
  }

  /** Reveal only ever adds `week.name` files. */
  lemma {:induction false} RevealOnlyAdds(session: map<string, string>, entries: seq<Entry>, selected: seq<FilePath>,
                                          moveOk: nat -> bool, m: nat, x: string)
    requires TaskLayout(entries, selected) && RevealSetting(session, selected)
    requires m <= |entries|
    requires x in Renamed(session, entries[..m], moveOk).files
    ensures x in session || exists j :: 0 <= j < m && x == SessionName(selected[j], j + 1, false)
    decreases m
  {
    if m == 0 {
      assert entries[..0] == [];
    } else {
      RenameStep(session, entries, selected, moveOk, m);
      var prior := Renamed(session, entries[..m - 1], moveOk);
      if x in prior.files {
        RevealOnlyAdds(session, entries, selected, moveOk, m - 1, x);
      }
    }
  }

  /** The rename of the m-th entry itself. */
  lemma RevealMovesNow(session: map<string, string>, entries: seq<Entry>, selected: seq<FilePath>,
                       moveOk: nat -> bool, m: nat)
    requires TaskLayout(entries, selected) && RevealSetting(session, selected)
    requires 0 < m <= |entries|
    requires TaskName(m) in session && moveOk(m - 1)
    ensures var r := Renamed(session, entries[..m], moveOk);
      var shown := SessionName(selected[m - 1], m, false);
      TaskName(m) !in r.files && shown in r.files && r.files[shown] == session[TaskName(m)]
  {
    forall i | 1 <= i <= m - 1 ensures TaskName(m) != TaskName(i) {
      TaskNamesDiffer(m, i);
    }
    RevealKeeps(session, entries, selected, moveOk, m - 1, TaskName(m));
    RenameStep(session, entries, selected, moveOk, m);
    TaskNotShow(m, selected[m - 1], m);
  }

  /** A later rename leaves an earlier one in place. */
  lemma RevealMovesKept(session: map<string, string>, entries: seq<Entry>, selected: seq<FilePath>,
                        moveOk: nat -> bool, m: nat, j: nat)
    requires TaskLayout(entries, selected) && RevealSetting(session, selected)
    requires j + 1 < m <= |entries| && TaskName(j + 1) in session
    requires var r := Renamed(session, entries[..m - 1], moveOk);
      var shown := SessionName(selected[j], j + 1, false);
      TaskName(j + 1) !in r.files && shown in r.files && r.files[shown] == session[TaskName(j + 1)]
    ensures var r := Renamed(session, entries[..m], moveOk);
      var shown := SessionName(selected[j], j + 1, false);
      TaskName(j + 1) !in r.files && shown in r.files && r.files[shown] == session[TaskName(j + 1)]
  {
    RenameStep(session, entries, selected, moveOk, m);
    TaskNamesDiffer(m, j + 1);
    TaskNotShow(j + 1, selected[m - 1], m);
    TaskNotShow(m, selected[j], j + 1);
    if SessionName(selected[j], j + 1, false) == SessionName(selected[m - 1], m, false) {
      ShowNamesDistinct(selected[j], selected[m - 1]);
    }
  }

  /** A task file present before reveal whose rename succeeds ends up under
      `week.name` with its content, and its task name is gone. */
  lemma {:induction false} RevealMoves(session: map<string, string>, entries: seq<Entry>, selected: seq<FilePath>,
                                       moveOk: nat -> bool, m: nat, j: nat)
    requires TaskLayout(entries, selected) && RevealSetting(session, selected)
    requires j < m <= |entries|
    requires TaskName(j + 1) in session && moveOk(j)
    ensures var r := Renamed(session, entries[..m], moveOk);
      var shown := SessionName(selected[j], j + 1, false);
      TaskName(j + 1) !in r.files && shown in r.files && r.files[shown] == session[TaskName(j + 1)]
    decreases m
  {
    if j == m - 1 {
      RevealMovesNow(session, entries, selected, moveOk, m);
    } else {
      RevealMoves(session, entries, selected, moveOk, m - 1, j);
      RevealMovesKept(session, entries, selected, moveOk, m, j);
    }
  }

  /** The names reveal hands to the makefile: the `week.name` of every task
      file that was present and whose rename succeeded. */
  lemma {:induction false} RevealNames(session: map<string, string>, entries: seq<Entry>, selected: seq<FilePath>,
                                       moveOk: nat -> bool, m: nat, x: string)
    requires TaskLayout(entries, selected) && RevealSetting(session, selected)
    requires m <= |entries|
    ensures x in Renamed(session, entries[..m], moveOk).names
        <==> exists j :: 0 <= j < m && TaskName(j + 1) in session && moveOk(j) && x == SessionName(selected[j], j + 1, false)
    decreases m
  {
    if m == 0 {
      assert entries[..0] == [];
    } else {
      RevealNames(session, entries, selected, moveOk, m - 1, x);
      RenameStep(session, entries, selected, moveOk, m);
      TaskStillThere(session, entries, selected, moveOk, m);
    }
  }

  /** Before the m-th rename, `task_m.c` is in the directory exactly when it
      was there at the start: earlier renames neither move nor create it. */
  lemma TaskStillThere(session: map<string, string>, entries: seq<Entry>, selected: seq<FilePath>,
                       moveOk: nat -> bool, m: nat)
    requires TaskLayout(entries, selected) && RevealSetting(session, selected)
    requires 0 < m <= |entries|
    ensures TaskName(m) in Renamed(session, entries[..m - 1], moveOk).files <==> TaskName(m) in session
  {
    var prior := Renamed(session, entries[..m - 1], moveOk);
    if TaskName(m) in session {
      forall i | 1 <= i <= m - 1 ensures TaskName(m) != TaskName(i) {
        TaskNamesDiffer(m, i);
      }
      RevealKeeps(session, entries, selected, moveOk, m - 1, TaskName(m));
    }
    if TaskName(m) in prior.files {
      RevealOnlyAdds(session, entries, selected, moveOk, m - 1, TaskName(m));
      forall j | 0 <= j < m - 1 ensures TaskName(m) != SessionName(selected[j], j + 1, false) {
        TaskNotShow(m, selected[j], j + 1);
      }
    }
  }

  /** The mapping file of an anonymized generation reads back completely as
      `task_k.c -> week/name`. */
  lemma MappingFileLayout(content: string, selected: seq<FilePath>)
    requires |selected| > 0
    requires forall i :: 0 <= i < |selected| ==> CleanValue(Id(selected[i]))
    requires content == MappingText(MappingLines(SelectedIds(selected)))
    ensures ReadMapping(FileLines(content)).complete
    ensures TaskLayout(ReadMapping(FileLines(content)).entries, selected)
  {
    MappingRoundTrip(SelectedIds(selected));
  }

  /** Revealing an exam that an anonymized generation wrote: the mapping file
      reads back completely, and each task file present whose rename succeeds
      is afterwards under `week.name` with its content, the name the show mode
      would have given it. */
  lemma RevealRestoresShowName(session: map<string, string>, selected: seq<FilePath>, moveOk: nat -> bool, k: nat)
    requires RevealSetting(session, selected)
    requires forall i :: 0 <= i < |selected| ==> CleanValue(Id(selected[i]))
    requires MappingFile in session && session[MappingFile] == MappingText(MappingLines(SelectedIds(selected)))
    requires 1 <= k <= |selected| && TaskName(k) in session && moveOk(k - 1)
    ensures ReadMapping(FileLines(session[MappingFile])).complete
    ensures var after := RevealedSession(Renamed(session, ReadMapping(FileLines(session[MappingFile])).entries, moveOk));
      var shown := SessionName(selected[k - 1], k, false);
      TaskName(k) !in after && shown in after && after[shown] == session[TaskName(k)]
  {
    MappingFileLayout(session[MappingFile], selected);
    RevealMovesAll(session, ReadMapping(FileLines(session[MappingFile])).entries, selected, moveOk, k);
  }

  /** The k-th task file after the whole rename loop, the makefile update and
      the removal of the mapping file. */
  lemma RevealMovesAll(session: map<string, string>, entries: seq<Entry>, selected: seq<FilePath>,
                       moveOk: nat -> bool, k: nat)
    requires TaskLayout(entries, selected) && RevealSetting(session, selected)
    requires 1 <= k <= |selected| && TaskName(k) in session && moveOk(k - 1)
    ensures var after := RevealedSession(Renamed(session, entries, moveOk));
      var shown := SessionName(selected[k - 1], k, false);
      TaskName(k) !in after && shown in after && after[shown] == session[TaskName(k)]
  {
    var r := Renamed(session, entries, moveOk);
    var shown := SessionName(selected[k - 1], k, false);
    assert TaskName(k) !in r.files && shown in r.files && r.files[shown] == session[TaskName(k)] by {
      assert entries[..|entries|] == entries;
      RevealMoves(session, entries, selected, moveOk, |entries|, k - 1);
    }
    SessionNameReserved(selected[k - 1], k, false);
    RevealedKeeps(r, shown);
    assert TaskName(k)[0] == 't';
    RevealedKeeps(r, TaskName(k));
  }

  /** Regenerating the makefile and removing the mapping file leave every
      other file of the directory as the renames left it. */
  lemma RevealedKeeps(r: RenameState, x: string)
    requires x != MakefileName && x != MappingFile
    ensures x in RevealedSession(r) <==> x in r.files
    ensures x in r.files ==> RevealedSession(r)[x] == r.files[x]
  {
  }

  /** What a generation reports. */
  datatype Outcome = NothingToDo | NoMakefileTemplate | Generated(count: nat)

  /** The exam directory a generation writes into the emptied directory:
      support files, the intro, the selected files, the mapping file of an
      anonymized exam, and the makefile, later writes replacing earlier ones. */
  function GeneratedSession(best: WeekDir, rootFiles: map<string, string>, intro: Option<string>,
                            a: Assembled, anonymize: bool, template: string): map<string, string>
  {
    var withSupport := SupportCopies(best, rootFiles);
    var withIntro := if intro.Some? then withSupport[IntroFile := intro.value] else withSupport;
    var withCopies := withIntro + a.copies;
    var withMapping := if anonymize && |a.mappingLines| > 0 then withCopies[MappingFile := MappingText(a.mappingLines)] else withCopies;
    withMapping[MakefileName := PatchText(template, a.names)]
  }

  /** The support files copied for a generation survive in the exam directory
      beside the selected files: no later write of `main` uses their names. */
  lemma SupportFilesKept(root: seq<WeekDir>, rootFiles: map<string, string>, best: WeekDir, selected: seq<FilePath>,
                         anonymize: bool, copyOk: nat -> bool, intro: Option<string>, template: string, f: string)
    requires forall i :: 0 <= i < |selected| ==> IsMonthDir(selected[i].week)
    requires f in SupportCopies(best, rootFiles)
    ensures var files := GeneratedSession(best, rootFiles, intro, Assemble(root, selected, anonymize, copyOk), anonymize, template);
      f in files && files[f] == SupportCopies(best, rootFiles)[f]
  {
    SupportNotCopied(root, selected, anonymize, copyOk, f);
    SessionKeepsSupport(best, rootFiles, intro, Assemble(root, selected, anonymize, copyOk), anonymize, template, f);
  }

  lemma SupportNotCopied(root: seq<WeekDir>, selected: seq<FilePath>, anonymize: bool, copyOk: nat -> bool, f: string)
    requires forall i :: 0 <= i < |selected| ==> IsMonthDir(selected[i].week)
    requires f in SupportFiles
    ensures f !in Assemble(root, selected, anonymize, copyOk).copies
  {
    AssembledNames(root, selected, anonymize, copyOk, f);
    forall i | 0 <= i < |selected| ensures f != SessionName(selected[i], i + 1, anonymize) {
      SessionNameNotSupport(selected[i], i + 1, anonymize);
    }
  }

  lemma SessionKeepsSupport(best: WeekDir, rootFiles: map<string, string>, intro: Option<string>,
                            a: Assembled, anonymize: bool, template: string, f: string)
    requires f in SupportCopies(best, rootFiles) && f !in a.copies
    ensures var files := GeneratedSession(best, rootFiles, intro, a, anonymize, template);
      f in files && files[f] == SupportCopies(best, rootFiles)[f]
  {
    assert f in SupportFiles;
    assert f != IntroFile && f != MappingFile && f != MakefileName;
    var withSupport := SupportCopies(best, rootFiles);
    var withIntro := if intro.Some? then withSupport[IntroFile := intro.value] else withSupport;
    assert f in withIntro && withIntro[f] == withSupport[f];
    var withCopies := withIntro + a.copies;
    assert f in withCopies && withCopies[f] == withSupport[f];
  }

  /** The candidates `main` finds for its arguments. */
  function MainCandidates(root: seq<WeekDir>, weekStr: string, onlyP: bool, onlyR: bool, progress: StoredProgress): seq<FilePath> {
    var flags := PrefixFlags(onlyP, onlyR);
    Candidates(root, Weeks(weekStr), Prefixes(flags.0, flags.1), LoadProcessedPaths(progress))
  }

  /** Without a week restriction (an empty filter, or `all` in any letter
      case) the scan enters every month directory. */
  lemma UnrestrictedScansAllMonths(root: seq<WeekDir>, weekStr: string, onlyP: bool, onlyR: bool,
                                   progress: StoredProgress, p: FilePath)
    requires Unrestricted(weekStr)
    ensures var flags := PrefixFlags(onlyP, onlyR);
      p in MainCandidates(root, weekStr, onlyP, onlyR, progress)
      <==> exists d :: d in root && d.name == p.week && IsMonthDir(d.name) && HasEntry(d, p.name)
             && FileEligible(d.name, p.name, Prefixes(flags.0, flags.1), LoadProcessedPaths(progress))
  {
    var flags := PrefixFlags(onlyP, onlyR);
    assert Weeks(weekStr) == {};
    CandidatesMembership(root, {}, Prefixes(flags.0, flags.1), LoadProcessedPaths(progress), p);
  }

  /** The files a generation writes, in the order `main` writes them, and the
      ids of the selected files whose copy succeeded. */
  method ExamFiles(root: seq<WeekDir>, rootFiles: map<string, string>, best: WeekDir, selected: seq<FilePath>,
                   anonymize: bool, copyOk: nat -> bool, intro: Option<string>)
    returns (files: map<string, string>, newIds: set<string>)
    requires HasEntry(best, MakefileName)
    ensures EntryContent(best.entries, MakefileName).Some?
    ensures files == GeneratedSession(best, rootFiles, intro, Assemble(root, selected, anonymize, copyOk),
                                      anonymize, EntryContent(best.entries, MakefileName).value)
    ensures newIds == Assemble(root, selected, anonymize, copyOk).newIds
  {
    var template := EntryContent(best.entries, MakefileName).value;
    files := SupportCopies(best, rootFiles);
    if intro.Some? {
      files := files[IntroFile := intro.value];
    }
    ghost var withIntro := files;
    var finalFilenames, mappingLines, copies;
    finalFilenames, mappingLines, newIds, copies := AssembleSelection(root, selected, anonymize, copyOk);
    ghost var a := Assembled(finalFilenames, mappingLines, newIds, copies);
    assert a == Assemble(root, selected, anonymize, copyOk);
    files := files + copies;
    if anonymize && |mappingLines| > 0 {
      files := files[MappingFile := MappingText(mappingLines)];
    }
    ghost var withMapping := files;
    var makefile := CreateDynamicMakefile(template, finalFilenames);
    files := files[MakefileName := makefile];
    assert files == withMapping[MakefileName := PatchText(template, a.names)];
    assert withMapping == (if anonymize && |a.mappingLines| > 0 then (withIntro + a.copies)[MappingFile := MappingText(a.mappingLines)] else withIntro + a.copies);
  }

  /** What a generation leaves behind, given the template week `best`: the
      exam directory of `GeneratedSession` and a progress record, sorted and
      without repetitions, of the earlier ids and those of the copied files. */
  predicate ExamWritten(files: map<string, string>, stored: StoredProgress, root: seq<WeekDir>,
                        rootFiles: map<string, string>, best: WeekDir, selected: seq<FilePath>, anonymize: bool,
                        copyOk: nat -> bool, intro: Option<string>, processed: set<string>)
  {
    && EntryContent(best.entries, MakefileName).Some?
    && files == GeneratedSession(best, rootFiles, intro, Assemble(root, selected, anonymize, copyOk),
                                 anonymize, EntryContent(best.entries, MakefileName).value)
    && stored.Saved? && Sorted(stored.entries) && Distinct(stored.entries)
    && LoadProcessedPaths(stored) == processed + Assemble(root, selected, anonymize, copyOk).newIds
  }

  /** The exam directory and the progress record a generation writes. */
  method WriteExamFiles(root: seq<WeekDir>, rootFiles: map<string, string>, best: WeekDir, selected: seq<FilePath>,
                        anonymize: bool, copyOk: nat -> bool, intro: Option<string>, processed: set<string>)
    returns (files: map<string, string>, stored: StoredProgress)
    requires HasEntry(best, MakefileName)
    ensures ExamWritten(files, stored, root, rootFiles, best, selected, anonymize, copyOk, intro, processed)
  {
    var newIds;
    files, newIds := ExamFiles(root, rootFiles, best, selected, anonymize, copyOk, intro);
    stored := SaveProcessedPaths(processed + newIds);
  }

  /** The rename loop of `reveal_exam_files`. */
  method RenameFiles(session: map<string, string>, entries: seq<Entry>, moveOk: nat -> bool)
    returns (files: map<string, string>, revealed: seq<string>)
    ensures RenameState(files, revealed) == Renamed(session, entries, moveOk)
  {
    files, revealed := session, [];
    for i := 0 to |entries|
      invariant Renamed(session, entries[..i], moveOk) == RenameState(files, revealed)
    {
      assert entries[..i + 1][..i] == entries[..i];
      var taskName := entries[i].key;
      if taskName in files && moveOk(i) {
        var finalName := DeAnonymizedName(entries[i].value);
        var content := files[taskName];
        files := (files - {taskName})[finalName := content];
        revealed := revealed + [finalName];
      }
    }
    assert entries[..|entries|] == entries;
  }

  class Workspace {
    /** The week directories of the root, and the files at the root itself. */
    const root: seq<WeekDir>
    const rootFiles: map<string, string>
    /** The content of `progress.json`. */
    var progress: StoredProgress
    /** The exam directory: whether it exists, and its files by name. */
    var sessionExists: bool
    var session: map<string, string>
    /** The folders of `exams_finished` with their files. */
    var archive: map<string, map<string, string>>

    ghost predicate Valid()
      reads this
    {
      !sessionExists ==> session == map[]
    }

    constructor(root: seq<WeekDir>, rootFiles: map<string, string>, progress: StoredProgress,
                sessionExists: bool, session: map<string, string>, archive: map<string, map<string, string>>)
      requires !sessionExists ==> session == map[]
      ensures Valid()
      ensures this.root == root && this.rootFiles == rootFiles && this.progress == progress
      ensures this.sessionExists == sessionExists && this.session == session && this.archive == archive
    {
      this.root := root;
      this.rootFiles := rootFiles;
      this.progress := progress;
      this.sessionExists := sessionExists;
      this.session := session;
      this.archive := archive;
    }

    /** `archive_existing_exam`. The timestamp of the folder name is `stamp`;
        `listing` is the glob order of the directory; the i-th move succeeds
        when `moveOk(i)`. Returns the number of files moved. */
    method ArchiveExisting(stamp: string, listing: seq<string>, moveOk: nat -> bool) returns (moved: nat)
      requires Valid()
      requires ListsSession(listing, session)
      modifies this
      ensures Valid()
      ensures archive == ArchiveAfter(old(archive), old(session), old(sessionExists), stamp, listing, moveOk)
      ensures old(sessionExists) && old(session) != map[] ==>
        session == map[] && sessionExists && moved == MovedCount(listing, moveOk)
      ensures !(old(sessionExists) && old(session) != map[]) ==>
        session == old(session) && sessionExists == old(sessionExists) && moved == 0
      ensures progress == old(progress)
    {
      if !sessionExists || session == map[] {
        return 0;
      }
      var dest := FolderName(|archive| + 1, stamp);
      var files := session;
      var mapping: seq<Entry> := [];
      if MappingFile in files {
        var read := ParseMappingFile(files[MappingFile]);
        mapping := read.entries;
      }
      assert mapping == SessionMapping(files);
      var folder, created;
      folder, moved, created := MoveFiles(files, listing, mapping, moveOk, ExistingFolder(archive, dest));
      if created {
        archive := archive[dest := folder];
      }
      session := map[];
    }

    /** `reveal_exam_files`; the i-th rename of the mapping succeeds when
        `moveOk(i)`. Returns the revealed names. */
    method Reveal(moveOk: nat -> bool) returns (revealed: seq<string>)
      requires Valid()
      modifies this
      ensures Valid()
      ensures MappingFile !in old(session) || !ReadMapping(FileLines(old(session)[MappingFile])).complete ==>
        session == old(session) && revealed == []
      ensures MappingFile in old(session) && ReadMapping(FileLines(old(session)[MappingFile])).complete ==>
        var r := Renamed(old(session), ReadMapping(FileLines(old(session)[MappingFile])).entries, moveOk);
        revealed == r.names && session == RevealedSession(r)
      ensures sessionExists == old(sessionExists) && archive == old(archive) && progress == old(progress)
    {
      revealed := [];
      if MappingFile !in session {
        return;
      }
      var read := ParseMappingFile(session[MappingFile]);
      if !read.complete {
        return;
      }
      var files;
      files, revealed := RenameFiles(session, read.entries, moveOk);
      if MakefileName in files && |revealed| > 0 {
        var content := CreateDynamicMakefile(files[MakefileName], revealed);
        files := files[MakefileName := content];
      }
      session := files - {MappingFile};
    }

    /** Steps 2 and 3 of `main` after a template week was found: support
        files, intro, the selection loop, the mapping file, the makefile and
        the progress record, written into the emptied exam directory. */
    method WriteExam(best: WeekDir, selected: seq<FilePath>, anonymize: bool, copyOk: nat -> bool,
                     intro: Option<string>, processed: set<string>)
      requires HasEntry(best, MakefileName)
      modifies this
      ensures ExamWritten(session, progress, root, rootFiles, best, selected, anonymize, copyOk, intro, processed)
      ensures unchanged(this`archive, this`sessionExists)
    {
      var files, stored := WriteExamFiles(root, rootFiles, best, selected, anonymize, copyOk, intro, processed);
      session, progress := files, stored;
    }

    /** The generating path of `main`, from loading the progress record to
        saving it. `selected` is what `random.sample` drew, `stamp`, `listing`
        and `moveOk` feed the archiving step, `copyOk(i)` says whether the
        copy of the i-th selected file succeeds, and `intro` is the intro text
        if it could be written. */
    method Generate(num: int, weekStr: string, onlyP: bool, onlyR: bool, anonymize: bool,
                    selected: seq<FilePath>, stamp: string, listing: seq<string>, moveOk: nat -> bool,
                    copyOk: nat -> bool, intro: Option<string>) returns (outcome: Outcome)
      requires Valid()
      requires ListsSession(listing, session)
      requires IsSample(selected, MainCandidates(root, weekStr, onlyP, onlyR, progress),
                        SelectionCount(num, |MainCandidates(root, weekStr, onlyP, onlyR, progress)|))
      modifies this
      ensures Valid()
      ensures LoadProcessedPaths(old(progress)) <= LoadProcessedPaths(progress)
      ensures var count := SelectionCount(num, |MainCandidates(root, weekStr, onlyP, onlyR, old(progress))|);
        (outcome == NothingToDo <==> count == 0)
        && (count == 0 ==> session == old(session) && sessionExists == old(sessionExists)
                           && archive == old(archive) && progress == old(progress))
      ensures outcome != NothingToDo ==>
        && archive == ArchiveAfter(old(archive), old(session), old(sessionExists), stamp, listing, moveOk)
        && sessionExists
      ensures outcome == NoMakefileTemplate <==> outcome != NothingToDo && BestWeek(root).None?
      ensures outcome == NoMakefileTemplate ==> session == map[] && progress == old(progress)
      ensures outcome.Generated? ==>
        && outcome.count == |selected|
        && ExamWritten(session, progress, root, rootFiles, BestWeek(root).value, selected, anonymize, copyOk, intro,
                       LoadProcessedPaths(old(progress)))
    {
      var processed := LoadProcessedPaths(progress);
      var targetWeeks := ParseWeekRange(weekStr);
      var flags := PrefixFlags(onlyP, onlyR);
      var candidates := GetCandidates(root, targetWeeks, flags.0, flags.1, processed);
      var count := SelectionCount(num, |candidates|);
      if count == 0 {
        return NothingToDo;
      }
      var _ := ArchiveExisting(stamp, listing, moveOk);
      sessionExists := true;
      var bestWeek := BestWeek(root);
      if bestWeek.None? {
        return NoMakefileTemplate;
      }
      BestWeekIsNewest(root);
      ghost var archived := archive;
      WriteExam(bestWeek.value, selected, anonymize, copyOk, intro, processed);
      assert archive == archived;
      outcome := Generated(|selected|);
    }
  }
}
