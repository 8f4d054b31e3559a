/**
 * The mapping file `00_mapping.txt` of an anonymized exam: one line
 * `task_k.c = week/name` per selected file. It is written by the generator
 * and read back, with the same code, by the archiver and by `reveal`, which
 * turn a mapped value into the file's de-anonymized name.
 */
module Mapping {
  import opened Wrappers
  import opened Strings
  import opened PyInt

  /** One key/value pair of the insertion-ordered dictionary the readers fill. */
  datatype Entry = Entry(key: string, value: string)

  /** The dictionary after reading, and whether the reading reached the end of
      the file (it stops at the first line the unpacking rejects). */
  datatype MappingRead = MappingRead(entries: seq<Entry>, complete: bool)

  predicate UniqueKeys(m: seq<Entry>) {
    forall i, j :: 0 <= i < j < |m| ==> m[i].key != m[j].key
  }

  /** `mapping.get(k)`. */
  function Get(m: seq<Entry>, k: string): Option<string>
    decreases |m|
  {
    if |m| == 0 then None
    else if m[0].key == k then Some(m[0].value)
    else Get(m[1..], k)
  }

  /** `mapping[k] = v`: a present key keeps its position and takes the new
      value, a new key goes to the end. */
  function Put(m: seq<Entry>, k: string, v: string): (r: seq<Entry>)
    decreases |m|
  {
    if |m| == 0 then [Entry(k, v)]
    else if m[0].key == k then [Entry(k, v)] + m[1..]
    else [m[0]] + Put(m[1..], k, v)
  }

  /** After `mapping[k] = v`, `k` maps to `v` and every other key to what it did. */
  lemma {:induction false} PutGet(m: seq<Entry>, k: string, v: string, k': string)
    ensures Get(Put(m, k, v), k') == if k' == k then Some(v) else Get(m, k')
    decreases |m|
  {
    if |m| > 0 && m[0].key != k {
      PutGet(m[1..], k, v, k');
      assert ([m[0]] + Put(m[1..], k, v))[1..] == Put(m[1..], k, v);
    }
  }

  /** A key no entry holds is absent. */
  lemma {:induction false} GetAbsent(m: seq<Entry>, k: string)
    requires forall i :: 0 <= i < |m| ==> m[i].key != k
    ensures Get(m, k) == None
    decreases |m|
  {
    if |m| > 0 {
      GetAbsent(m[1..], k);
    }
  }

  /** A lookup finds the first entry with the key. */
  lemma {:induction false} GetFirst(m: seq<Entry>, j: nat, k: string)
    requires j < |m| && m[j].key == k
    requires forall i :: 0 <= i < j ==> m[i].key != k
    ensures Get(m, k) == Some(m[j].value)
    decreases j
  {
    if j > 0 {
      GetFirst(m[1..], j - 1, k);
    }
  }

  /** Storing a new key appends it. */
  lemma {:induction false} PutNew(m: seq<Entry>, k: string, v: string)
    requires forall i :: 0 <= i < |m| ==> m[i].key != k
    ensures Put(m, k, v) == m + [Entry(k, v)]
    decreases |m|
  {
    if |m| > 0 {
      PutNew(m[1..], k, v);
      assert m == [m[0]] + m[1..];
    }
  }

  predicate HasKey(m: seq<Entry>, k: string) {
    exists i :: 0 <= i < |m| && m[i].key == k
  }

  lemma HasKeyCons(e: Entry, rest: seq<Entry>, x: string)
    ensures HasKey([e] + rest, x) <==> e.key == x || HasKey(rest, x)
  {
    var r := [e] + rest;
    if HasKey(r, x) {
      var i :| 0 <= i < |r| && r[i].key == x;
      if i > 0 { assert rest[i - 1] == r[i]; }
    }
    if e.key == x { assert r[0] == e; }
    if HasKey(rest, x) {
      var i :| 0 <= i < |rest| && rest[i].key == x;
      assert r[i + 1] == rest[i];
    }
  }

  /** The keys after `Put` are those before and `k`. */
  lemma {:induction false} PutHasKey(m: seq<Entry>, k: string, v: string, x: string)
    ensures HasKey(Put(m, k, v), x) <==> x == k || HasKey(m, x)
    decreases |m|
  {
    if |m| > 0 {
      assert m == [m[0]] + m[1..];
      HasKeyCons(m[0], m[1..], x);
      if m[0].key != k {
        PutHasKey(m[1..], k, v, x);
        HasKeyCons(m[0], Put(m[1..], k, v), x);
      } else {
        HasKeyCons(Entry(k, v), m[1..], x);
      }
    } else {
      assert Put(m, k, v)[0].key == k;
    }
  }

  lemma ConsUnique(e: Entry, rest: seq<Entry>)
    requires UniqueKeys(rest) && !HasKey(rest, e.key)
    ensures UniqueKeys([e] + rest)
  {
    var r := [e] + rest;
    forall i, j | 0 <= i < j < |r| ensures r[i].key != r[j].key {
      assert r[j] == rest[j - 1];
      if i > 0 { assert r[i] == rest[i - 1]; }
    }
  }

  lemma TailUnique(m: seq<Entry>)
    requires UniqueKeys(m) && |m| > 0
    ensures UniqueKeys(m[1..]) && !HasKey(m[1..], m[0].key)
  {
    forall i, j | 0 <= i < j < |m[1..]| ensures m[1..][i].key != m[1..][j].key {
      assert m[1..][i] == m[i + 1] && m[1..][j] == m[j + 1];
    }
  }

  /** A dictionary never holds one key twice. */
  lemma {:induction false} PutUnique(m: seq<Entry>, k: string, v: string)
    requires UniqueKeys(m)
    ensures UniqueKeys(Put(m, k, v))
    decreases |m|
  {
    if |m| > 0 {
      TailUnique(m);
      if m[0].key != k {
        PutUnique(m[1..], k, v);
        PutHasKey(m[1..], k, v, m[0].key);
        ConsUnique(m[0], Put(m[1..], k, v));
      } else {
        ConsUnique(Entry(k, v), m[1..]);
      }
    }
  }

  /** A line the unpacking `k, v = line.split('=')` rejects: it holds `=` but
      does not split into exactly two parts. */
  predicate LineFails(line: string) {
    '=' in line && |Split(line, '=')| != 2
  }

  /** One line of the reading loop: lines without `=` are ignored, the others
      store their stripped key and value, and a rejected line ends the loop. */
  function ProcessLine(m: seq<Entry>, line: string): (r: Option<seq<Entry>>)
    ensures r.None? <==> LineFails(line)
  {
    if '=' !in line then Some(m)
    else
      var parts := Split(line, '=');
      if |parts| == 2 then Some(Put(m, Strip(parts[0]), Strip(parts[1]))) else None
  }

  /** The dictionary the reading loop builds from `lines`, in file order. */
  function ReadMapping(lines: seq<string>): MappingRead
    decreases |lines|
  {
    if |lines| == 0 then MappingRead([], true)
    else
      var r := ReadMapping(lines[..|lines| - 1]);
      if !r.complete then r
      else match ProcessLine(r.entries, lines[|lines| - 1])
        case Some(m) => MappingRead(m, true)
        case None => MappingRead(r.entries, false)
  }

  /** The lines of a file's text without their terminators. */
  function FileLines(content: string): seq<string> {
    Split(content, '\n')
  }

  /** The reading loop of `archive_existing_exam` and `reveal_exam_files`. */
  method ParseMappingFile(content: string) returns (read: MappingRead)
    ensures read == ReadMapping(FileLines(content))
  {
    var lines := Split(content, '\n');
    var entries: seq<Entry> := [];
    var i := 0;
    while i < |lines|
      invariant 0 <= i <= |lines|
      invariant ReadMapping(lines[..i]) == MappingRead(entries, true)
    {
      assert lines[..i + 1][..i] == lines[..i];
      var line := lines[i];
      if '=' in line {
        var parts := Split(line, '=');
        if |parts| != 2 {
          ReadMappingStops(lines, i + 1);
          return MappingRead(entries, false);
        }
        entries := Put(entries, Strip(parts[0]), Strip(parts[1]));
      }
      i := i + 1;
    }
    assert lines[..i] == lines;
    read := MappingRead(entries, true);
  }

  /** Once the reading has stopped, later lines change nothing. */
  lemma {:induction false} ReadMappingStops(lines: seq<string>, n: nat)
    requires 0 < n <= |lines|
    requires !ReadMapping(lines[..n]).complete
    ensures ReadMapping(lines) == ReadMapping(lines[..n])
    decreases |lines| - n
  {
    if n < |lines| {
      assert lines[..n + 1][..n] == lines[..n];
      ReadMappingStops(lines, n + 1);
    } else {
      assert lines[..n] == lines;
    }
  }

  /** The reading succeeds exactly when no line is rejected. */
  lemma {:induction false} ReadMappingComplete(lines: seq<string>)
    ensures ReadMapping(lines).complete <==> forall i :: 0 <= i < |lines| ==> !LineFails(lines[i])
    decreases |lines|
  {
    if |lines| > 0 {
      var init := lines[..|lines| - 1];
      var last := lines[|lines| - 1];
      ReadMappingComplete(init);
      assert ReadMapping(lines).complete <==> ReadMapping(init).complete && !LineFails(last);
      assert (forall i :: 0 <= i < |lines| ==> !LineFails(lines[i])) <==>
        (forall i :: 0 <= i < |init| ==> !LineFails(init[i])) && !LineFails(last)
      by {
        assert forall i :: 0 <= i < |init| ==> init[i] == lines[i];
      }
    }
  }

  /** The dictionary never holds a key twice. */
  lemma {:induction false} ReadMappingUnique(lines: seq<string>)
    ensures UniqueKeys(ReadMapping(lines).entries)
    decreases |lines|
  {
    if |lines| > 0 {
      var init := lines[..|lines| - 1];
      ReadMappingUnique(init);
      var r := ReadMapping(init);
      var last := lines[|lines| - 1];
      if r.complete && '=' in last && |Split(last, '=')| == 2 {
        PutUnique(r.entries, Strip(Split(last, '=')[0]), Strip(Split(last, '=')[1]));
      }
    }
  }

  /** A line terminator changes nothing: it is whitespace, which stripping
      removes, and it is not `=`. */
  lemma TerminatorIrrelevant(m: seq<Entry>, line: string)
    ensures ProcessLine(m, line + "\n") == ProcessLine(m, line)
  {
    var line' := line + "\n";
    assert '=' in line' <==> '=' in line by {
      assert forall i :: 0 <= i < |line| ==> line'[i] == line[i];
      assert line'[|line|] == '\n';
    }
    SplitAppend(line, '\n', '=');
    if '=' in line && |Split(line, '=')| == 2 {
      var parts := Split(line, '=');
      assert Split(line', '=') == [parts[0], parts[1] + "\n"];
      StripAppendSpace(parts[1], '\n');
    }
  }

  /** The de-anonymized name of a mapping value: `a/b` becomes `a.b`, any other
      value its last `/`-separated part. */
  function DeAnonymizedName(v: string): string {
    var parts := Split(v, '/');
    if |parts| == 2 then parts[0] + "." + parts[1] else parts[|parts| - 1]
  }

  /** A de-anonymized name is a plain file name: it never holds `/`. */
  lemma DeAnonymizedPlain(v: string)
    ensures '/' !in DeAnonymizedName(v)
  {
    var parts := Split(v, '/');
    SplitPieces(v, '/');
    if |parts| == 2 {
      assert '/' !in parts[0] && '/' !in parts[1] && '/' !in ".";
    }
  }

  /** The id `week/name` of a file becomes `week.name`, the name the show mode
      gives it, so reveal and archive restore the shown name. */
  lemma DeAnonymizedId(week: string, name: string)
    requires '/' !in week && '/' !in name
    ensures DeAnonymizedName(week + "/" + name) == week + "." + name
  {
    assert week + "/" + name == week + ['/'] + name;
    SplitAfterPiece(week, '/', name);
    SplitNoSep(name, '/');
  }

  /** A value without `/` is its own de-anonymized name. */
  lemma DeAnonymizedNoSlash(v: string)
    requires '/' !in v
    ensures DeAnonymizedName(v) == v
  {
    SplitNoSep(v, '/');
  }

  /** A value with three parts keeps only its last. */
  lemma DeAnonymizedDeep(a: string, b: string, c: string)
    requires '/' !in a && '/' !in b && '/' !in c
    ensures DeAnonymizedName(a + "/" + b + "/" + c) == c
  {
    assert a + "/" + b + "/" + c == a + ['/'] + (b + ['/'] + c);
    SplitAfterPiece(a, '/', b + ['/'] + c);
    SplitAfterPiece(b, '/', c);
    SplitNoSep(c, '/');
  }

  /** `f"task_{k}.c"`, the anonymized name of the k-th selected file. */
  function TaskName(k: nat): string {
    "task_" + Decimal(k) + ".c"
  }

  /** `f"{dest_name} = {week}/{original_basename}"` with the id already joined. */
  function MappingLine(k: nat, id: string): string {
    TaskName(k) + " = " + id
  }

  /** The mapping lines of a selection, numbered from 1 in selection order. */
  function MappingLines(ids: seq<string>): (lines: seq<string>)
    ensures |lines| == |ids|
    ensures forall i :: 0 <= i < |ids| ==> lines[i] == MappingLine(i + 1, ids[i])
    decreases |ids|
  {
    if |ids| == 0 then [] else MappingLines(ids[..|ids| - 1]) + [MappingLine(|ids|, ids[|ids| - 1])]
  }

  /** `"\n".join(mapping_lines) + "\n"`. */
  function MappingText(lines: seq<string>): string {
    Join(lines, '\n') + "\n"
  }

  /** The dictionary `task_k.c -> id` of a selection, in selection order. */
  function TaskEntries(ids: seq<string>): (m: seq<Entry>)
    ensures |m| == |ids|
    ensures forall i :: 0 <= i < |ids| ==> m[i] == Entry(TaskName(i + 1), ids[i])
    decreases |ids|
  {
    if |ids| == 0 then [] else TaskEntries(ids[..|ids| - 1]) + [Entry(TaskName(|ids|), ids[|ids| - 1])]
  }

  /** An id the mapping file can carry: no `=`, no line break and no whitespace
      at either end. */
  predicate CleanValue(id: string) {
    '=' !in id && '\n' !in id && (id == [] || (!IsSpace(id[0]) && !IsSpace(id[|id| - 1])))
  }

  /** Different positions get different task names. */
  lemma TaskNameInjective(a: nat, b: nat)
    requires TaskName(a) == TaskName(b)
    ensures a == b
  {
    var ta := TaskName(a);
    var tb := TaskName(b);
    assert |Decimal(a)| == |Decimal(b)|;
    assert Decimal(a) == ta[5..|ta| - 2];
    assert Decimal(b) == tb[5..|tb| - 2];
    DecimalInjective(a, b);
  }

  lemma TaskNamesDiffer(a: nat, b: nat)
    requires a != b
    ensures TaskName(a) != TaskName(b)
  {
    if TaskName(a) == TaskName(b) { TaskNameInjective(a, b); }
  }

  /** In the dictionary of a selection (an `m` laid out as `TaskEntries`
      lays it out), `task_k.c` maps to the k-th id. */
  lemma TaskEntriesGet(m: seq<Entry>, ids: seq<string>, k: nat)
    requires |m| == |ids| && forall i :: 0 <= i < |m| ==> m[i] == Entry(TaskName(i + 1), ids[i])
    requires 1 <= k <= |ids|
    ensures Get(m, TaskName(k)) == Some(ids[k - 1])
  {
    forall i | 0 <= i < k - 1 ensures m[i].key != TaskName(k) {
      TaskNamesDiffer(i + 1, k);
    }
    GetFirst(m, k - 1, TaskName(k));
  }

  lemma TaskNameChars(k: nat)
    ensures '=' !in TaskName(k) && '\n' !in TaskName(k)
    ensures !IsSpace(TaskName(k)[0]) && !IsSpace(TaskName(k)[|TaskName(k)| - 1])
  {
    var t := TaskName(k);
    assert forall i :: 5 <= i < |t| - 2 ==> t[i] == Decimal(k)[i - 5];
  }

  lemma KeyStrip(k: nat)
    ensures Strip(TaskName(k) + " ") == TaskName(k)
  {
    var key := TaskName(k) + " ";
    TaskNameChars(k);
    StripExact(key, 0, |key| - 1);
    assert key[..|key| - 1] == TaskName(k);
  }

  lemma ValueStrip(id: string)
    requires CleanValue(id)
    ensures Strip(" " + id) == id
  {
    var value := " " + id;
    StripExact(value, 1, |value|);
    assert value[1..] == id;
  }

  lemma LineSplit(k: nat, id: string)
    requires '=' !in id
    ensures '=' in MappingLine(k, id)
    ensures Split(MappingLine(k, id), '=') == [TaskName(k) + " ", " " + id]
  {
    var key := TaskName(k) + " ";
    var value := " " + id;
    TaskNameChars(k);
    assert MappingLine(k, id) == key + ['='] + value;
    assert MappingLine(k, id)[|key|] == '=';
    SplitAfterPiece(key, '=', value);
    SplitNoSep(value, '=');
  }

  /** A mapping line splits at its single `=` into the task name and the id. */
  lemma MappingLineParses(m: seq<Entry>, k: nat, id: string)
    requires CleanValue(id)
    ensures ProcessLine(m, MappingLine(k, id)) == Some(Put(m, TaskName(k), id))
  {
    LineSplit(k, id);
    KeyStrip(k);
    ValueStrip(id);
  }

  lemma {:induction false} ReadMappingLines(ids: seq<string>)
    requires forall i :: 0 <= i < |ids| ==> CleanValue(ids[i])
    ensures ReadMapping(MappingLines(ids)) == MappingRead(TaskEntries(ids), true)
    decreases |ids|
  {
    if |ids| > 0 {
      var n := |ids|;
      var init := ids[..n - 1];
      ReadMappingLines(init);
      ReadMappingNext(init, ids[n - 1]);
      assert init + [ids[n - 1]] == ids;
    }
  }

  /** The induction step of `ReadMappingLines`: one more clean id. */
  lemma ReadMappingNext(init: seq<string>, id: string)
    requires CleanValue(id)
    requires ReadMapping(MappingLines(init)) == MappingRead(TaskEntries(init), true)
    ensures ReadMapping(MappingLines(init + [id])) == MappingRead(TaskEntries(init + [id]), true)
  {
    var n := |init| + 1;
    var ids := init + [id];
    assert ids[..n - 1] == init;
    var prior := TaskEntries(init);
    NewTaskName(init);
    MappingLineParses(prior, n, id);
    PutNew(prior, TaskName(n), id);
    ReadMappingStep(MappingLines(init), prior, MappingLine(n, id), prior + [Entry(TaskName(n), id)]);
    assert MappingLines(ids) == MappingLines(init) + [MappingLine(n, id)];
    assert TaskEntries(ids) == prior + [Entry(TaskName(n), id)];
  }

  /** The task names of a selection differ from the name of the next position. */
  lemma NewTaskName(ids: seq<string>)
    ensures forall i :: 0 <= i < |TaskEntries(ids)| ==> TaskEntries(ids)[i].key != TaskName(|ids| + 1)
  {
    var prior := TaskEntries(ids);
    forall i | 0 <= i < |prior| ensures prior[i].key != TaskName(|ids| + 1) {
      TaskNamesDiffer(i + 1, |ids| + 1);
    }
  }

  /** One more line that the loop accepts extends a complete reading. */
  lemma ReadMappingStep(lines: seq<string>, m: seq<Entry>, line: string, m': seq<Entry>)
    requires ReadMapping(lines) == MappingRead(m, true)
    requires ProcessLine(m, line) == Some(m')
    ensures ReadMapping(lines + [line]) == MappingRead(m', true)
  {
    assert (lines + [line])[..|lines|] == lines;
  }

  lemma MappingLinesClean(ids: seq<string>)
    requires forall i :: 0 <= i < |ids| ==> CleanValue(ids[i])
    ensures forall i :: 0 <= i < |ids| ==> '\n' !in MappingLines(ids)[i]
  {
    forall i | 0 <= i < |ids| ensures '\n' !in MappingLines(ids)[i] {
      TaskNameChars(i + 1);
      assert '\n' !in " = ";
    }
  }

  /** Reading back the mapping file the generator writes recovers the
      dictionary `task_k.c -> week/name` in selection order, when no id holds
      `=`, a line break or whitespace at its ends. */
  lemma MappingRoundTrip(ids: seq<string>)
    requires |ids| > 0
    requires forall i :: 0 <= i < |ids| ==> CleanValue(ids[i])
    ensures ReadMapping(FileLines(MappingText(MappingLines(ids)))) == MappingRead(TaskEntries(ids), true)
  {
    var lines := MappingLines(ids);
    MappingLinesClean(ids);
    TextLines(lines);
    ReadMappingLines(ids);
    BlankLineIgnored(lines);
  }

  /** The file text of separator-free lines splits back into those lines and
      an empty last piece after the final terminator. */
  lemma TextLines(lines: seq<string>)
    requires |lines| > 0
    requires forall i :: 0 <= i < |lines| ==> '\n' !in lines[i]
    ensures FileLines(MappingText(lines)) == lines + [""]
  {
    JoinAppendEmpty(lines, '\n');
    assert MappingText(lines) == Join(lines + [""], '\n');
    assert forall i :: 0 <= i < |lines + [""]| ==> '\n' !in (lines + [""])[i];
    SplitJoin(lines + [""], '\n');
  }

  /** An empty line holds no `=` and changes nothing. */
  lemma BlankLineIgnored(lines: seq<string>)
    ensures ReadMapping(lines + [""]) == ReadMapping(lines)
  {
    assert (lines + [""])[..|lines|] == lines;
  }

  /** An `=` in an id makes its own mapping line unreadable: it splits into
      three parts or more. */
  lemma EqualsInIdBreaksLine(k: nat, id: string)
    requires '=' in id
    ensures LineFails(MappingLine(k, id))
  {
    var key := TaskName(k) + " ";
    var value := " " + id;
    TaskNameChars(k);
    assert MappingLine(k, id) == key + ['='] + value;
    assert '=' !in key;
    SplitAfterPiece(key, '=', value);
    assert '=' in value by {
      var j :| 0 <= j < |id| && id[j] == '=';
      assert value[j + 1] == '=';
    }
    SplitPieces(value, '=');
    assert MappingLine(k, id)[|key|] == '=';
  }
}
