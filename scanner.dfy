/**
 * The candidate scan of the mock-exam generator: which assignment files in
 * which week directories may be put into a new exam. The root directory is
 * reduced to its sub-directories, each with the files it holds, in the
 * order the directory listing returns them.
 */
module Scanner {
  import opened Strings
  import opened Sorting
  import opened PyInt

  datatype FileEntry = FileEntry(name: string, content: string)

  datatype WeekDir = WeekDir(name: string, entries: seq<FileEntry>)

  /** A file found by the scan: its week directory and its own name. */
  datatype FilePath = FilePath(week: string, name: string)

  /** The normalised id `week/name` the progress record stores. */
  function Id(p: FilePath): string {
    p.week + "/" + p.name
  }

  function DirName(d: WeekDir): string { d.name }

  /** `0[1-9]|1[0-2]`, exactly two characters. */
  predicate MonthCore(t: string) {
    |t| == 2 && ((t[0] == '0' && '1' <= t[1] <= '9') || (t[0] == '1' && '0' <= t[1] <= '2'))
  }

  /** A match of `^(0[1-9]|1[0-2])$`; `$` also matches before a final newline. */
  predicate IsMonthDir(name: string) {
    MonthCore(name) || (|name| == 3 && MonthCore(name[..2]) && name[2] == '\n')
  }

  /** What follows the prefix letter in `\d.*\.c`: a digit, then any characters
      other than a newline, then a dot and `c` in either case. */
  predicate TaskTail(t: string) {
    && |t| >= 3
    && IsDigit(t[0])
    && t[|t| - 2] == '.'
    && LowerChar(t[|t| - 1]) == 'c'
    && forall i :: 1 <= i < |t| - 2 ==> t[i] != '\n'
  }

  /** A match of `^(p|r)\d.*\.c$` with the ignore-case flag, the alternatives of
      the group being the letters in `prefixes`. */
  predicate NameMatches(name: string, prefixes: set<char>) {
    && |name| > 0
    && LowerChar(name[0]) in prefixes
    && (TaskTail(name[1..]) || (|name| >= 2 && name[|name| - 1] == '\n' && TaskTail(name[1..|name| - 1])))
  }

  /** The prefix letters the two flags select. */
  function Prefixes(includeP: bool, includeR: bool): set<char> {
    (if includeP then {'p'} else {}) + (if includeR then {'r'} else {})
  }

  /** A week directory the scan enters: a month name, in the target weeks if any. */
  predicate DirEligible(week: string, target: set<string>) {
    IsMonthDir(week) && (target == {} || week in target)
  }

  /** A file the scan keeps from an entered directory. */
  predicate FileEligible(week: string, name: string, prefixes: set<char>, processed: set<string>) {
    !EndsWith(name, ".pristine") && NameMatches(name, prefixes) && Id(FilePath(week, name)) !in processed
  }

  predicate HasEntry(d: WeekDir, name: string) {
    exists e :: e in d.entries && e.name == name
  }

  /** The files kept from the entries of one week directory, in listing order. */
  function EntryCandidates(week: string, entries: seq<FileEntry>, prefixes: set<char>, processed: set<string>): seq<FilePath>
    decreases |entries|
  {
    if |entries| == 0 then []
    else
      var e := entries[|entries| - 1];
      EntryCandidates(week, entries[..|entries| - 1], prefixes, processed)
        + (if FileEligible(week, e.name, prefixes, processed) then [FilePath(week, e.name)] else [])
  }

  /** The files kept from a sequence of directories, in order. */
  function DirsCandidates(dirs: seq<WeekDir>, target: set<string>, prefixes: set<char>, processed: set<string>): seq<FilePath>
    decreases |dirs|
  {
    if |dirs| == 0 then []
    else
      var d := dirs[|dirs| - 1];
      DirsCandidates(dirs[..|dirs| - 1], target, prefixes, processed)
        + (if DirEligible(d.name, target) then EntryCandidates(d.name, d.entries, prefixes, processed) else [])
  }

  /** The scan over the root's directories in name order. */
  function Candidates(root: seq<WeekDir>, target: set<string>, prefixes: set<char>, processed: set<string>): seq<FilePath> {
    DirsCandidates(SortBy(root, DirName), target, prefixes, processed)
  }

  /** `get_candidates`: sorts the directories by name and walks every entered
      directory's files in listing order. */
  method GetCandidates(root: seq<WeekDir>, target: set<string>, includeP: bool, includeR: bool, processed: set<string>)
    returns (candidates: seq<FilePath>)
    ensures candidates == Candidates(root, target, Prefixes(includeP, includeR), processed)
  {
    var prefixes: set<char> := {};
    if includeP { prefixes := prefixes + {'p'}; }
    if includeR { prefixes := prefixes + {'r'}; }
    assert prefixes == Prefixes(includeP, includeR);
    if prefixes == {} {
      NoPrefixesNoCandidates(SortBy(root, DirName), target, processed);
      return [];
    }
    candidates := [];
    var allItems := SortBy(root, DirName);
    var i := 0;
    while i < |allItems|
      invariant 0 <= i <= |allItems|
      invariant candidates == DirsCandidates(allItems[..i], target, prefixes, processed)
    {
      var d := allItems[i];
      assert allItems[..i + 1][..i] == allItems[..i];
      if IsMonthDir(d.name) && (target == {} || d.name in target) {
        var found := ScanDir(d, prefixes, processed);
        candidates := candidates + found;
      }
      i := i + 1;
    }
    assert allItems[..i] == allItems;
  }

  /** The inner loop of `get_candidates`: the matching, unprocessed files of
      one entered directory, in listing order. */
  method ScanDir(d: WeekDir, prefixes: set<char>, processed: set<string>) returns (found: seq<FilePath>)
    ensures found == EntryCandidates(d.name, d.entries, prefixes, processed)
  {
    found := [];
    var j := 0;
    while j < |d.entries|
      invariant 0 <= j <= |d.entries|
      invariant found == EntryCandidates(d.name, d.entries[..j], prefixes, processed)
    {
      var e := d.entries[j];
      assert d.entries[..j + 1][..j] == d.entries[..j];
      if !EndsWith(e.name, ".pristine") && NameMatches(e.name, prefixes) {
        if Id(FilePath(d.name, e.name)) !in processed {
          found := found + [FilePath(d.name, e.name)];
        }
      }
      j := j + 1;
    }
    assert d.entries[..j] == d.entries;
  }

  /** With no prefix letter selected no name matches, so nothing is kept. */
  lemma {:induction false} NoPrefixesNoCandidates(dirs: seq<WeekDir>, target: set<string>, processed: set<string>)
    ensures DirsCandidates(dirs, target, {}, processed) == []
    decreases |dirs|
  {
    if |dirs| > 0 {
      NoPrefixesNoCandidates(dirs[..|dirs| - 1], target, processed);
      NoEntryCandidates(dirs[|dirs| - 1].name, dirs[|dirs| - 1].entries, processed);
    }
  }

  lemma {:induction false} NoEntryCandidates(week: string, entries: seq<FileEntry>, processed: set<string>)
    ensures EntryCandidates(week, entries, {}, processed) == []
    decreases |entries|
  {
    if |entries| > 0 {
      NoEntryCandidates(week, entries[..|entries| - 1], processed);
    }
  }

  /** Both prefix flags false: `get_candidates` returns the empty list. */
  lemma NoFlagsNoCandidates(root: seq<WeekDir>, target: set<string>, processed: set<string>)
    ensures Candidates(root, target, Prefixes(false, false), processed) == []
  {
    assert Prefixes(false, false) == {};
    NoPrefixesNoCandidates(SortBy(root, DirName), target, processed);
  }

  /** A file is kept from a directory's entries exactly when it is one of them
      and passes the file filters. */
  lemma {:induction false} EntryCandidatesMembership(week: string, entries: seq<FileEntry>, prefixes: set<char>, processed: set<string>, p: FilePath)
    ensures p in EntryCandidates(week, entries, prefixes, processed)
        <==> p.week == week && FileEligible(week, p.name, prefixes, processed) && exists e :: e in entries && e.name == p.name
    decreases |entries|
  {
    if |entries| > 0 {
      var init := entries[..|entries| - 1];
      var last := entries[|entries| - 1];
      EntryCandidatesMembership(week, init, prefixes, processed, p);
      assert entries == init + [last];
      if exists e :: e in entries && e.name == p.name {
        var e :| e in entries && e.name == p.name;
        if e != last { assert e in init; }
      }
      if exists e :: e in init && e.name == p.name {
        var e :| e in init && e.name == p.name;
        assert e in entries;
      }
    }
  }

  /** A file is kept from a sequence of directories exactly when it sits in an
      entered directory of it and passes the file filters. */
  lemma {:induction false} DirsCandidatesMembership(dirs: seq<WeekDir>, target: set<string>, prefixes: set<char>, processed: set<string>, p: FilePath)
    ensures p in DirsCandidates(dirs, target, prefixes, processed)
        <==> exists d :: d in dirs && d.name == p.week && DirEligible(d.name, target)
               && FileEligible(d.name, p.name, prefixes, processed) && HasEntry(d, p.name)
    decreases |dirs|
  {
    if |dirs| > 0 {
      var init := dirs[..|dirs| - 1];
      var last := dirs[|dirs| - 1];
      DirsCandidatesMembership(init, target, prefixes, processed, p);
      EntryCandidatesMembership(last.name, last.entries, prefixes, processed, p);
      assert dirs == init + [last];
      if exists d :: d in dirs && d.name == p.week && DirEligible(d.name, target)
           && FileEligible(d.name, p.name, prefixes, processed) && HasEntry(d, p.name) {
        var d :| d in dirs && d.name == p.week && DirEligible(d.name, target)
           && FileEligible(d.name, p.name, prefixes, processed) && HasEntry(d, p.name);
        if d != last { assert d in init; }
      }
      if exists d :: d in init && d.name == p.week && DirEligible(d.name, target)
           && FileEligible(d.name, p.name, prefixes, processed) && HasEntry(d, p.name) {
        var d :| d in init && d.name == p.week && DirEligible(d.name, target)
           && FileEligible(d.name, p.name, prefixes, processed) && HasEntry(d, p.name);
        assert d in dirs;
      }
    }
  }

  /** Soundness and completeness of the scan: a path is a candidate exactly when
      its directory is a month directory of the root, in the target weeks if
      any, and the file is in it, matches the selected prefixes, does not end
      in `.pristine` and has not been processed. */
  lemma CandidatesMembership(root: seq<WeekDir>, target: set<string>, prefixes: set<char>, processed: set<string>, p: FilePath)
    ensures p in Candidates(root, target, prefixes, processed)
        <==> exists d :: d in root && d.name == p.week && DirEligible(d.name, target)
               && FileEligible(d.name, p.name, prefixes, processed) && HasEntry(d, p.name)
  {
    var sorted := SortBy(root, DirName);
    DirsCandidatesMembership(sorted, target, prefixes, processed, p);
    assert forall d :: d in sorted <==> d in root by {
      assert multiset(sorted) == multiset(root);
      forall d ensures d in sorted <==> d in root {
        assert d in sorted <==> d in multiset(sorted);
        assert d in root <==> d in multiset(root);
      }
    }
  }

  /** The explicit `.pristine` skip never changes the outcome: such a name ends
      in `e`, so the task pattern rejects it anyway. */
  lemma PristineNeverMatches(name: string, prefixes: set<char>)
    requires EndsWith(name, ".pristine")
    ensures !NameMatches(name, prefixes)
  {
    assert name[|name| - 1] == ".pristine"[8];
  }

  /** Besides a name with a trailing newline, the week pattern accepts exactly
      the padded months `01` to `12`. */
  lemma MonthDirNames(name: string)
    requires '\n' !in name
    ensures IsMonthDir(name) <==> exists w :: 1 <= w <= 12 && name == Pad2(w)
  {
    if IsMonthDir(name) {
      assert MonthCore(name);
      var w := if name[0] == '0' then name[1] as int - '0' as int else 10 + name[1] as int - '0' as int;
      assert name == Pad2(w) by {
        if w < 10 {
          assert Pad2(w) == "0" + [DigitChar(w)];
        } else {
          assert Decimal(w) == Decimal(w / 10) + [DigitChar(w % 10)];
          assert Decimal(w / 10) == ['1'];
        }
      }
    }
    if exists w :: 1 <= w <= 12 && name == Pad2(w) {
      var w :| 1 <= w <= 12 && name == Pad2(w);
      if w < 10 {
        assert Pad2(w) == "0" + [DigitChar(w)];
      } else {
        assert Decimal(w) == Decimal(w / 10) + [DigitChar(w % 10)];
        assert Decimal(w / 10) == ['1'];
      }
    }
  }

  /** The prefix and `.c` suffix are matched in either case. */
  lemma MatchesIgnoringCase(name: string, prefixes: set<char>)
    requires |name| >= 4 && LowerChar(name[0]) in prefixes && IsDigit(name[1])
    requires name[|name| - 2] == '.' && (name[|name| - 1] == 'c' || name[|name| - 1] == 'C')
    requires forall i :: 2 <= i < |name| - 2 ==> name[i] != '\n'
    ensures NameMatches(name, prefixes)
  {
    var t := name[1..];
    forall i | 1 <= i < |t| - 2 ensures t[i] != '\n' {
      assert t[i] == name[i + 1];
    }
  }
}
