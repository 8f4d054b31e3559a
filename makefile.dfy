/**
 * The makefile of an exam (`create_dynamic_makefile`): the template's
 * `SRC_D`, `SRC_E`, `SRC_T` and `SRC_R` assignments are emptied and `SRC_P`
 * lists the exam's files. The substitutions are regular expressions in
 * multi-line mode; each is modelled on the lines of the text.
 */
module Makefile {
  import opened Strings
  import opened Sorting

  /** The variables whose assignments are emptied, in the order they are. */
  const ClearedVars: seq<string> := ["SRC_D", "SRC_E", "SRC_T", "SRC_R"]

  /** The index after the whitespace run of `s` that starts at `i`. */
  function SkipSpace(s: string, i: nat): (j: nat)
    requires i <= |s|
    ensures i <= j <= |s|
    ensures forall k :: i <= k < j ==> IsSpace(s[k])
    ensures j == |s| || !IsSpace(s[j])
    decreases |s| - i
  {
    if i < |s| && IsSpace(s[i]) then SkipSpace(s, i + 1) else i
  }

  /** A line matched by `^NAME\s*=`: the name, any whitespace, then `=`. */
  predicate IsAssignment(line: string, v: string) {
    StartsWith(line, v) && SkipSpace(line, |v|) < |line| && line[SkipSpace(line, |v|)] == '='
  }

  /** The part of an assignment line the group `(NAME\s*=)` captures. */
  function Head(line: string, v: string): (h: string)
    requires IsAssignment(line, v)
    ensures StartsWith(h, v) && |h| > |v| && h[|h| - 1] == '='
    ensures forall k :: |v| <= k < |h| - 1 ==> IsSpace(h[k])
    ensures StartsWith(line, h)
  {
    line[..SkipSpace(line, |v|) + 1]
  }

  /** `re.sub(r'^(NAME\s*=).*$', r'\1', ...)` on one line. */
  function ClearLine(line: string, v: string): string {
    if IsAssignment(line, v) then Head(line, v) else line
  }

  /** The four clearing substitutions, in order, applied to one line. */
  function ClearWith(line: string, vs: seq<string>): string
    decreases |vs|
  {
    if |vs| == 0 then line else ClearLine(ClearWith(line, vs[..|vs| - 1]), vs[|vs| - 1])
  }

  function ClearedLine(line: string): string {
    ClearWith(line, ClearedVars)
  }

  /** `re.sub(r'^(SRC_P\s*=).*$', r'\1 ' + files, ...)` on one line. */
  function SetLine(line: string, files: string): string {
    if IsAssignment(line, "SRC_P") then Head(line, "SRC_P") + " " + files else line
  }

  predicate HasAssignment(lines: seq<string>, v: string) {
    exists i :: 0 <= i < |lines| && IsAssignment(lines[i], v)
  }

  /** `ClearLine` with `v` on every line. */
  function ClearLines(lines: seq<string>, v: string): (r: seq<string>)
    ensures |r| == |lines|
    ensures forall i :: 0 <= i < |lines| ==> r[i] == ClearLine(lines[i], v)
    decreases |lines|
  {
    if |lines| == 0 then [] else ClearLines(lines[..|lines| - 1], v) + [ClearLine(lines[|lines| - 1], v)]
  }

  /** `ClearWith` with `vs` on every line. */
  function ClearWithLines(lines: seq<string>, vs: seq<string>): (r: seq<string>)
    ensures |r| == |lines|
    ensures forall i :: 0 <= i < |lines| ==> r[i] == ClearWith(lines[i], vs)
    decreases |lines|
  {
    if |lines| == 0 then [] else ClearWithLines(lines[..|lines| - 1], vs) + [ClearWith(lines[|lines| - 1], vs)]
  }

  /** `SetLine` with `files` on every line. */
  function SetLines(lines: seq<string>, files: string): (r: seq<string>)
    ensures |r| == |lines|
    ensures forall i :: 0 <= i < |lines| ==> r[i] == SetLine(lines[i], files)
    decreases |lines|
  {
    if |lines| == 0 then [] else SetLines(lines[..|lines| - 1], files) + [SetLine(lines[|lines| - 1], files)]
  }

  /** A substitution applied to every line of a text. */
  function ClearText(content: string, v: string): string {
    Join(ClearLines(Split(content, '\n'), v), '\n')
  }

  function SetText(content: string, files: string): string {
    Join(SetLines(Split(content, '\n'), files), '\n')
  }

  /** The makefile text for a template and the exam's file names: every line
      cleared, and then either the `SRC_P` lines set to the sorted names, or,
      without such a line, a new first line `SRC_P = names`. */
  function PatchText(template: string, names: seq<string>): string {
    var cleared := ClearWithLines(Split(template, '\n'), ClearedVars);
    var files := Join(Sort(names), ' ');
    if HasAssignment(cleared, "SRC_P") then Join(SetLines(cleared, files), '\n')
    else "SRC_P = " + files + "\n" + Join(cleared, '\n')
  }

  /** `create_dynamic_makefile` on the template's text: sorts the names, runs
      the four clearing substitutions one after another, then sets or adds the
      `SRC_P` line. */
  method CreateDynamicMakefile(template: string, activeFilenames: seq<string>) returns (content: string)
    ensures content == PatchText(template, activeFilenames)
  {
    var names := Sort(activeFilenames);
    content := ClearTemplate(template);
    var cleared := ClearWithLines(Split(template, '\n'), ClearedVars);
    assert Split(content, '\n') == cleared by {
      SplitPieces(template, '\n');
      ClearedSplit(Split(template, '\n'), ClearedVars);
    }
    var filesStr := Join(names, ' ');
    if HasAssignment(Split(content, '\n'), "SRC_P") {
      content := SetText(content, filesStr);
    } else {
      content := "SRC_P = " + filesStr + "\n" + content;
    }
  }

  /** The four clearing substitutions of `create_dynamic_makefile`, one after
      another on the whole text. */
  method ClearTemplate(template: string) returns (content: string)
    ensures content == Join(ClearWithLines(Split(template, '\n'), ClearedVars), '\n')
  {
    var lines := Split(template, '\n');
    content := template;
    assert content == Join(ClearWithLines(lines, ClearedVars[..0]), '\n') by {
      JoinSplit(template, '\n');
      assert ClearWithLines(lines, ClearedVars[..0]) == lines;
    }
    SplitPieces(template, '\n');
    for k := 0 to |ClearedVars|
      invariant content == Join(ClearWithLines(lines, ClearedVars[..k]), '\n')
    {
      ClearStep(lines, ClearedVars[..k], ClearedVars[k]);
      assert ClearedVars[..k + 1] == ClearedVars[..k] + [ClearedVars[k]];
      content := ClearText(content, ClearedVars[k]);
    }
    assert ClearedVars[..4] == ClearedVars;
  }

  /** Clearing keeps a prefix of the line. */
  lemma {:induction false} ClearWithPrefix(line: string, vs: seq<string>)
    ensures StartsWith(line, ClearWith(line, vs))
    decreases |vs|
  {
    if |vs| > 0 {
      ClearWithPrefix(line, vs[..|vs| - 1]);
    }
  }

  /** Cleared lines of a split text hold no newline, so the text splits back
      into them. */
  lemma ClearedSplit(lines: seq<string>, vs: seq<string>)
    requires forall i :: 0 <= i < |lines| ==> '\n' !in lines[i]
    requires |lines| >= 1
    ensures Split(Join(ClearWithLines(lines, vs), '\n'), '\n') == ClearWithLines(lines, vs)
  {
    var c := ClearWithLines(lines, vs);
    forall i | 0 <= i < |lines| ensures '\n' !in c[i] {
      ClearWithPrefix(lines[i], vs);
      assert c[i] == lines[i][..|c[i]|];
    }
    SplitJoin(c, '\n');
  }

  /** One substitution of the loop extends the cleared prefix of variables by one. */
  lemma ClearStep(lines: seq<string>, vs: seq<string>, v: string)
    requires |lines| >= 1
    requires forall i :: 0 <= i < |lines| ==> '\n' !in lines[i]
    ensures ClearText(Join(ClearWithLines(lines, vs), '\n'), v) == Join(ClearWithLines(lines, vs + [v]), '\n')
  {
    var c := ClearWithLines(lines, vs);
    ClearedSplit(lines, vs);
    assert (vs + [v])[..|vs|] == vs;
    assert ClearLines(c, v) == ClearWithLines(lines, vs + [v]);
  }

  /** Two variable names of one length cannot both head the same line. */
  lemma AssignmentsExclusive(line: string, a: string, b: string)
    requires |a| == |b| && IsAssignment(line, a) && IsAssignment(line, b)
    ensures a == b
  {
  }

  /** The captured head is itself an assignment with the same head, and heads
      no assignment of another name of the same length. */
  lemma HeadStable(line: string, v: string, w: string)
    requires IsAssignment(line, v) && |w| == |v|
    ensures IsAssignment(Head(line, v), v) && Head(Head(line, v), v) == Head(line, v)
    ensures w != v ==> !IsAssignment(Head(line, v), w)
  {
    var h := Head(line, v);
    var j := SkipSpace(line, |v|);
    assert h == line[..j + 1];
    SkipSpaceSame(line, h, |v|, j);
    assert h[..|v|] == v;
    if w != v && IsAssignment(h, w) {
      AssignmentsExclusive(h, v, w);
    }
  }

  lemma {:induction false} SkipSpaceSame(line: string, h: string, i: nat, j: nat)
    requires i <= j < |h| <= |line| && h == line[..|h|]
    requires j == SkipSpace(line, i)
    ensures SkipSpace(h, i) == j
    decreases j - i
  {
    if i < j {
      SkipSpaceSame(line, h, i + 1, j);
    }
  }

  /** A line that assigns none of `vs` passes the clearing unchanged. */
  lemma {:induction false} ClearWithNone(line: string, vs: seq<string>)
    requires forall w :: w in vs ==> !IsAssignment(line, w)
    ensures ClearWith(line, vs) == line
    decreases |vs|
  {
    if |vs| > 0 {
      ClearWithNone(line, vs[..|vs| - 1]);
      assert vs[|vs| - 1] in vs;
    }
  }

  /** An assignment of one of `vs` is cut to its head, whatever the order. */
  lemma {:induction false} ClearWithOne(line: string, vs: seq<string>, v: string)
    requires v in vs && IsAssignment(line, v)
    requires forall w :: w in vs ==> |w| == |v|
    ensures ClearWith(line, vs) == Head(line, v)
    decreases |vs|
  {
    var init := vs[..|vs| - 1];
    var last := vs[|vs| - 1];
    assert vs == init + [last];
    HeadStable(line, v, last);
    if v in init {
      ClearWithOne(line, init, v);
    } else {
      forall w | w in init ensures !IsAssignment(line, w) {
        if IsAssignment(line, w) { AssignmentsExclusive(line, v, w); }
      }
      ClearWithNone(line, init);
    }
  }

  lemma ClearedVarsShape()
    ensures forall w :: w in ClearedVars ==> |w| == |"SRC_P"| && w != "SRC_P"
  {
  }

  lemma ClearedAssignment(line: string, v: string)
    requires v in ClearedVars && IsAssignment(line, v)
    ensures ClearedLine(line) == Head(line, v)
  {
    ClearedVarsShape();
    ClearWithOne(line, ClearedVars, v);
  }

  lemma ClearedKeepsP(line: string)
    requires IsAssignment(line, "SRC_P")
    ensures ClearedLine(line) == line
  {
    ClearedVarsShape();
    forall v | v in ClearedVars ensures !IsAssignment(line, v) {
      if IsAssignment(line, v) { AssignmentsExclusive(line, v, "SRC_P"); }
    }
    ClearWithNone(line, ClearedVars);
  }

  lemma ClearedMakesNoP(line: string)
    requires !IsAssignment(line, "SRC_P")
    ensures !IsAssignment(ClearedLine(line), "SRC_P")
  {
    if exists v :: v in ClearedVars && IsAssignment(line, v) {
      var v :| v in ClearedVars && IsAssignment(line, v);
      ClearedAssignment(line, v);
      ClearedVarsShape();
      HeadStable(line, v, "SRC_P");
    } else {
      ClearWithNone(line, ClearedVars);
    }
  }

  /** What the clearing does to one template line: an `SRC_D`, `SRC_E`,
      `SRC_T` or `SRC_R` assignment keeps only its `NAME =` head, and every
      other line, `SRC_P` assignments included, is unchanged. */
  lemma ClearedLineCases(line: string)
    ensures forall v :: v in ClearedVars && IsAssignment(line, v) ==> ClearedLine(line) == Head(line, v)
    ensures (forall v :: v in ClearedVars ==> !IsAssignment(line, v)) ==> ClearedLine(line) == line
    ensures IsAssignment(ClearedLine(line), "SRC_P") <==> IsAssignment(line, "SRC_P")
    ensures IsAssignment(line, "SRC_P") ==> ClearedLine(line) == line
  {
    forall v | v in ClearedVars && IsAssignment(line, v) ensures ClearedLine(line) == Head(line, v) {
      ClearedAssignment(line, v);
    }
    if forall v :: v in ClearedVars ==> !IsAssignment(line, v) {
      ClearWithNone(line, ClearedVars);
    }
    if IsAssignment(line, "SRC_P") {
      ClearedKeepsP(line);
    } else {
      ClearedMakesNoP(line);
    }
  }

  /** One line of the patched makefile when the template assigns `SRC_P`. */
  function PatchedLine(line: string, files: string): string {
    SetLine(ClearedLine(line), files)
  }

  /** The three kinds of template line: cleared variables keep their head,
      `SRC_P` gets the file list after its head, any other line is kept. */
  lemma PatchedLineCases(line: string, files: string)
    ensures forall v :: v in ClearedVars && IsAssignment(line, v) ==> PatchedLine(line, files) == Head(line, v)
    ensures IsAssignment(line, "SRC_P") ==> PatchedLine(line, files) == Head(line, "SRC_P") + " " + files
    ensures (forall v :: v in ClearedVars ==> !IsAssignment(line, v)) && !IsAssignment(line, "SRC_P")
            ==> PatchedLine(line, files) == line
  {
    ClearedLineCases(line);
  }

  /** The patched makefile line by line, when the template has an `SRC_P`
      assignment: every line is patched in place and no line is added. */
  lemma PatchedWithSet(template: string, names: seq<string>)
    requires HasAssignment(Split(template, '\n'), "SRC_P")
    requires forall i :: 0 <= i < |names| ==> '\n' !in names[i]
    ensures |Split(PatchText(template, names), '\n')| == |Split(template, '\n')|
    ensures forall i :: 0 <= i < |Split(template, '\n')| ==>
              Split(PatchText(template, names), '\n')[i] == PatchedLine(Split(template, '\n')[i], Join(Sort(names), ' '))
  {
    var lines := Split(template, '\n');
    var cleared := ClearWithLines(lines, ClearedVars);
    var files := Join(Sort(names), ' ');
    var out := SetLines(cleared, files);
    assert PatchText(template, names) == Join(out, '\n') by {
      var k :| 0 <= k < |lines| && IsAssignment(lines[k], "SRC_P");
      ClearedLineCases(lines[k]);
      assert IsAssignment(cleared[k], "SRC_P");
    }
    assert forall i :: 0 <= i < |out| ==> '\n' !in out[i] by {
      FilesNoNewline(names);
      SplitPieces(template, '\n');
      PatchedLinesNoNewline(lines, files);
    }
    SplitJoin(out, '\n');
  }

  /** Patching keeps every line free of line breaks. */
  lemma PatchedLinesNoNewline(lines: seq<string>, files: string)
    requires forall i :: 0 <= i < |lines| ==> '\n' !in lines[i]
    requires '\n' !in files
    ensures forall i :: 0 <= i < |lines| ==> '\n' !in PatchedLine(lines[i], files)
  {
    forall i | 0 <= i < |lines| ensures '\n' !in PatchedLine(lines[i], files) {
      PatchedLineNoNewline(lines[i], files);
    }
  }

  lemma PatchedLineNoNewline(line: string, files: string)
    requires '\n' !in line && '\n' !in files
    ensures '\n' !in PatchedLine(line, files)
  {
    var c := ClearedLine(line);
    ClearWithPrefix(line, ClearedVars);
    assert c == line[..|c|];
    if IsAssignment(c, "SRC_P") {
      var h := Head(c, "SRC_P");
      assert h == c[..|h|];
    }
  }

  /** Without an `SRC_P` assignment the makefile gains the first line
      `SRC_P = names` and keeps the cleared template lines after it. */
  lemma PatchedWithPrepend(template: string, names: seq<string>)
    requires !HasAssignment(Split(template, '\n'), "SRC_P")
    requires forall i :: 0 <= i < |names| ==> '\n' !in names[i]
    ensures |Split(PatchText(template, names), '\n')| == |Split(template, '\n')| + 1
    ensures Split(PatchText(template, names), '\n')[0] == "SRC_P = " + Join(Sort(names), ' ')
    ensures forall i :: 0 <= i < |Split(template, '\n')| ==>
              Split(PatchText(template, names), '\n')[i + 1] == ClearedLine(Split(template, '\n')[i])
  {
    var lines := Split(template, '\n');
    var cleared := ClearWithLines(lines, ClearedVars);
    var first := "SRC_P = " + Join(Sort(names), ' ');
    NoSetLine(lines);
    CleanedNoNewline(template);
    FilesNoNewline(names);
    assert '\n' !in first;
    var all := [first] + cleared;
    assert all[1..] == cleared;
    assert Join(all, '\n') == first + "\n" + Join(cleared, '\n');
    assert PatchText(template, names) == Join(all, '\n');
    SplitJoin(all, '\n');
  }

  lemma NoSetLine(lines: seq<string>)
    requires !HasAssignment(lines, "SRC_P")
    ensures !HasAssignment(ClearWithLines(lines, ClearedVars), "SRC_P")
  {
    var cleared := ClearWithLines(lines, ClearedVars);
    forall i | 0 <= i < |cleared| ensures !IsAssignment(cleared[i], "SRC_P") {
      ClearedMakesNoP(lines[i]);
    }
  }

  lemma CleanedNoNewline(template: string)
    ensures forall i :: 0 <= i < |Split(template, '\n')| ==> '\n' !in ClearedLine(Split(template, '\n')[i])
  {
    var lines := Split(template, '\n');
    SplitPieces(template, '\n');
    forall i | 0 <= i < |lines| ensures '\n' !in ClearedLine(lines[i]) {
      ClearWithPrefix(lines[i], ClearedVars);
      assert ClearedLine(lines[i]) == lines[i][..|ClearedLine(lines[i])|];
    }
  }

  lemma FilesNoNewline(names: seq<string>)
    requires forall i :: 0 <= i < |names| ==> '\n' !in names[i]
    ensures '\n' !in Join(Sort(names), ' ')
  {
    var sorted := Sort(names);
    forall i | 0 <= i < |sorted| ensures '\n' !in sorted[i] {
      assert sorted[i] in multiset(names);
    }
    JoinNoChar(sorted, ' ', '\n');
  }

  lemma {:induction false} JoinNoChar(parts: seq<string>, sep: char, c: char)
    requires c != sep && forall i :: 0 <= i < |parts| ==> c !in parts[i]
    ensures c !in Join(parts, sep)
    decreases |parts|
  {
    if |parts| > 1 {
      JoinNoChar(parts[1..], sep, c);
    }
  }

  /** The `SRC_P` list holds the names in sorted order, each once per
      occurrence: splitting it at spaces gives the sorted names back. */
  lemma FilesListed(names: seq<string>)
    requires |names| > 0
    requires forall i :: 0 <= i < |names| ==> ' ' !in names[i]
    ensures Split(Join(Sort(names), ' '), ' ') == Sort(names)
    ensures Sorted(Sort(names)) && multiset(Sort(names)) == multiset(names)
  {
    var sorted := Sort(names);
    forall i | 0 <= i < |sorted| ensures ' ' !in sorted[i] {
      assert sorted[i] in multiset(names);
    }
    assert |sorted| == |multiset(names)|;
    SplitJoin(sorted, ' ');
  }
}
