/**
  The two unit tests of `src/main.rs`, stated as facts about the model:
  the rendering of one nested key, and the exact output, in order, for a
  small document with nested sections.
 */
module Samples {
  import opened Toml
  import opened Display
  import opened Flattener
  import opened Format

  /** The line of a variable whose joined key and rendered value are known. */
  lemma LineOf(v: Var, joined: string, name: string, value: string)
    requires Join(v.key, "_") == joined
    requires |name| == |joined| && forall i :: 0 <= i < |joined| ==> name[i] == UpperChar(joined[i])
    requires Render(v.value) == value
    ensures FormatPosix(v) == ExportLine(name, value)
  {
    ToUpperPointwise(joined, name);
  }

  /** The variable of `test_format_posix`: key `pipenv.venv_in_project`, value `1`. */
  const PipenvVar: Var := Var(["pipenv", "venv_in_project"], SInt(1))

  lemma FormatPosixExample()
    ensures FormatPosix(PipenvVar) == "PIPENV_VENV_IN_PROJECT=1; export PIPENV_VENV_IN_PROJECT"
  {
    var v := PipenvVar;
    assert Join(v.key, "_") == "pipenv_" + "venv_in_project";
    ToUpperPointwise("pipenv_", "PIPENV_");
    ToUpperPointwise("venv_in_project", "VENV_IN_PROJECT");
    ToUpperAppend("pipenv_", "venv_in_project");
    PipenvName();
    PipenvLineText();
  }

  /*
    The facts below only concatenate string literals. Each is its own lemma
    so that every proof obligation about a long literal stays small.
   */

  lemma PipenvName()
    ensures "PIPENV_" + "VENV_IN_PROJECT" == "PIPENV_VENV_IN_PROJECT"
  {
    var name := "PIPENV_VENV_IN_PROJECT";
    assert name == name[..7] + name[7..];
    assert name[..7] == "PIPENV_";
    assert name[7..] == "VENV_IN_PROJECT";
  }

  /** The export line of `test_format_posix`, character by character. */
  lemma PipenvLineText()
    ensures ExportLine("PIPENV_VENV_IN_PROJECT", "1") == "PIPENV_VENV_IN_PROJECT=1; export PIPENV_VENV_IN_PROJECT"
  {
    PipenvHead();
    PipenvTail();
    PipenvJoined();
    Reassociate("PIPENV_VENV_IN_PROJECT=1", ExportMarker, "PIPENV_VENV_IN_PROJECT");
  }

  lemma PipenvHead()
    ensures "PIPENV_VENV_IN_PROJECT" + "=" + "1" == "PIPENV_VENV_IN_PROJECT=1"
  {
  }

  lemma PipenvTail()
    ensures "; export " + "PIPENV_VENV_IN_PROJECT" == "; export PIPENV_VENV_IN_PROJECT"
  {
  }

  lemma PipenvJoined()
    ensures "PIPENV_VENV_IN_PROJECT=1" + "; export PIPENV_VENV_IN_PROJECT" == "PIPENV_VENV_IN_PROJECT=1; export PIPENV_VENV_IN_PROJECT"
  {
  }

  const NestedEntries: seq<Entry> := [("doublynestedvar", Str("value3"))]

  const SectionEntries: seq<Entry> := [("nested", Table(NestedEntries)), ("nestedvar", Str("value2"))]

  const Section2Entries: seq<Entry> := [("nestedvar", Str("value4"))]

  /**
    The document of the `test` unit test as the parser returns it: a
    `BTreeMap`-backed table, so every table's keys are in ascending order.
   */
  const SampleConfig: seq<Entry> := [
    ("section", Table(SectionEntries)),
    ("section2", Table(Section2Entries)),
    ("someboolval", Bool(true)),
    ("somefloatvar", Float("1.2")),
    ("someintvar", Int(1))
  ]

  /** The expected lines of the `test` unit test, each `NAME=value; export NAME`. */
  const SampleLines: seq<string> := [
    ExportLine("SOMEBOOLVAL", "true"),
    ExportLine("SOMEFLOATVAR", "1.2"),
    ExportLine("SOMEINTVAR", "1"),
    ExportLine("SECTION2_NESTEDVAR", "value4"),
    ExportLine("SECTION_NESTEDVAR", "value2"),
    ExportLine("SECTION_NESTED_DOUBLYNESTEDVAR", "value3")
  ]

  lemma RootSorted()
    ensures SortedKeys(SampleConfig)
  {
    RootAdjacent();
    SortedFromAdjacent(SampleConfig);
  }

  lemma RootAdjacent()
    ensures forall k :: 0 <= k < |SampleConfig| - 1 ==> Less(SampleConfig[k].0, SampleConfig[k + 1].0)
  {
    forall k | 0 <= k < |SampleConfig| - 1
      ensures Less(SampleConfig[k].0, SampleConfig[k + 1].0)
    {
      if k == 0 {
        SectionBeforeSection2();
      } else if k == 1 {
        Section2BeforeSomeboolval();
      } else if k == 2 {
        SomeboolvalBeforeSomefloatvar();
      } else {
        SomefloatvarBeforeSomeintvar();
      }
    }
  }

  lemma SectionBeforeSection2() ensures Less(SampleConfig[0].0, SampleConfig[1].0)
  {
    LessPrefix("section", "section2");
  }

  lemma Section2BeforeSomeboolval() ensures Less(SampleConfig[1].0, SampleConfig[2].0)
  {
    LessAt("section2", "someboolval", 1);
  }

  lemma SomeboolvalBeforeSomefloatvar() ensures Less(SampleConfig[2].0, SampleConfig[3].0)
  {
    LessAt("someboolval", "somefloatvar", 4);
  }

  lemma SomefloatvarBeforeSomeintvar() ensures Less(SampleConfig[3].0, SampleConfig[4].0)
  {
    LessAt("somefloatvar", "someintvar", 4);
  }

  lemma SectionWellFormed()
    ensures WellFormed(Table(SectionEntries))
  {
    LessPrefix("nested", "nestedvar");
    assert WellFormed(Table(NestedEntries));
  }

  /** The sample document has the shape the parser produces. */
  lemma SampleWellFormed()
    ensures WellFormed(Table(SampleConfig))
  {
    RootSorted();
    SectionWellFormed();
    assert WellFormed(Table(Section2Entries));
  }

  const SampleVars: seq<Var> := [
    Var(["someboolval"], SBool(true)),
    Var(["somefloatvar"], SFloat("1.2")),
    Var(["someintvar"], SInt(1)),
    Var(["section2", "nestedvar"], SStr("value4")),
    Var(["section", "nestedvar"], SStr("value2")),
    Var(["section", "nested", "doublynestedvar"], SStr("value3"))
  ]

  /** `Flattener.LeavesUnfold` at index 0, for a table written as a first entry and the rest. */
  lemma LeavesCons(p: Path, e: Entry, rest: seq<Entry>)
    ensures Leaves(p, [e] + rest) == VarOf(p, e) + Leaves(p, rest)
  {
    LeavesUnfold(p, [e] + rest, 0);
    assert ([e] + rest)[0..] == [e] + rest;
    assert ([e] + rest)[1..] == rest;
  }

  /** `Flattener.SubFramesUnfold` at index 0, for a table written as a first entry and the rest. */
  lemma SubFramesCons(p: Path, e: Entry, rest: seq<Entry>)
    ensures SubFrames(p, [e] + rest) == FrameOf(p, e) + SubFrames(p, rest)
  {
    SubFramesUnfold(p, [e] + rest, 0);
    assert ([e] + rest)[0..] == [e] + rest;
    assert ([e] + rest)[1..] == rest;
  }

  /** A table holding one scalar entry yields exactly that entry's variable. */
  lemma FlattenOneScalar(p: Path, e: Entry)
    requires AsScalar(e.1).Some?
    ensures FlattenEntries(p, [e]) == [EntryVar(p, e)]
  {
    LeavesCons(p, e, []);
    SubFramesCons(p, e, []);
    assert [e] + [] == [e];
  }

  const SectionFrame: Frame := Frame(["section"], SectionEntries)

  const Section2Frame: Frame := Frame(["section2"], Section2Entries)

  const NestedFrame: Frame := Frame(["section", "nested"], NestedEntries)

  /** The root's own scalars, in key order. */
  lemma RootLeaves()
    ensures Leaves([], SampleConfig) == SampleVars[..3]
  {
    var e0, e1, e2, e3, e4 := SampleConfig[0], SampleConfig[1], SampleConfig[2], SampleConfig[3], SampleConfig[4];
    var tail3, tail2, tail1 := [e3] + [e4], [e2] + ([e3] + [e4]), [e1] + ([e2] + ([e3] + [e4]));
    assert SampleConfig == [e0] + tail1;
    assert EntryVar([], e2) == SampleVars[0];
    assert EntryVar([], e3) == SampleVars[1];
    assert EntryVar([], e4) == SampleVars[2];
    LeavesCons([], e4, []);
    assert [e4] + [] == [e4];
    LeavesCons([], e3, [e4]);
    LeavesCons([], e2, tail3);
    LeavesCons([], e1, tail2);
    LeavesCons([], e0, tail1);
  }

  /** The root's sub-tables, pushed in key order: `section2` ends on top. */
  lemma RootFrames()
    ensures SubFrames([], SampleConfig) == [SectionFrame, Section2Frame]
  {
    var e0, e1, e2, e3, e4 := SampleConfig[0], SampleConfig[1], SampleConfig[2], SampleConfig[3], SampleConfig[4];
    var tail3, tail2, tail1 := [e3] + [e4], [e2] + ([e3] + [e4]), [e1] + ([e2] + ([e3] + [e4]));
    assert SampleConfig == [e0] + tail1;
    assert EntryFrame([], e0) == SectionFrame;
    assert EntryFrame([], e1) == Section2Frame;
    SubFramesCons([], e4, []);
    assert [e4] + [] == [e4];
    SubFramesCons([], e3, [e4]);
    SubFramesCons([], e2, tail3);
    SubFramesCons([], e1, tail2);
    SubFramesCons([], e0, tail1);
  }

  lemma Section2Out()
    ensures FlattenEntries(Section2Frame.prefix, Section2Frame.entries) == [SampleVars[3]]
  {
    FlattenOneScalar(["section2"], Section2Entries[0]);
    assert Section2Entries == [Section2Entries[0]];
    assert EntryVar(["section2"], Section2Entries[0]) == SampleVars[3];
  }

  lemma NestedOut()
    ensures FlattenEntries(NestedFrame.prefix, NestedFrame.entries) == [SampleVars[5]]
  {
    FlattenOneScalar(["section", "nested"], NestedEntries[0]);
    assert NestedEntries == [NestedEntries[0]];
    assert EntryVar(["section", "nested"], NestedEntries[0]) == SampleVars[5];
  }

  /** `section`: its own scalar first, then its `nested` sub-table. */
  lemma SectionOut()
    ensures FlattenEntries(SectionFrame.prefix, SectionFrame.entries) == [SampleVars[4], SampleVars[5]]
  {
    var s0, s1 := SectionEntries[0], SectionEntries[1];
    assert SectionEntries == [s0] + [s1];
    LeavesCons(["section"], s1, []);
    LeavesCons(["section"], s0, [s1]);
    SubFramesCons(["section"], s1, []);
    SubFramesCons(["section"], s0, [s1]);
    assert [s1] + [] == [s1];
    assert EntryVar(["section"], s1) == SampleVars[4];
    assert EntryFrame(["section"], s0) == NestedFrame;
    assert Leaves(["section"], SectionEntries) == [SampleVars[4]];
    assert SubFrames(["section"], SectionEntries) == [NestedFrame];
    assert [NestedFrame][1..] == [];
    NestedOut();
  }

  /**
    The variables of the sample document, in order: the root's scalars in
    key order, then `section2` (pushed last, popped first), then `section`,
    whose own scalar precedes its `nested` sub-table.
   */
  lemma SampleVarsInOrder()
    ensures Flatten(SampleConfig) == SampleVars
  {
    RootLeaves();
    RootFrames();
    var frames := [SectionFrame, Section2Frame];
    assert frames[1..] == [Section2Frame] && [Section2Frame][1..] == [];
    Section2Out();
    SectionOut();
    assert DrainStack(frames) == [SampleVars[3]] + [SampleVars[4], SampleVars[5]];
    assert SampleVars == SampleVars[..3] + ([SampleVars[3]] + [SampleVars[4], SampleVars[5]]);
  }

  lemma SampleLine0() ensures FormatPosix(SampleVars[0]) == SampleLines[0]
  {
    LineOf(SampleVars[0], "someboolval", "SOMEBOOLVAL", "true");
  }

  lemma SampleLine1() ensures FormatPosix(SampleVars[1]) == SampleLines[1]
  {
    LineOf(SampleVars[1], "somefloatvar", "SOMEFLOATVAR", "1.2");
  }

  lemma SampleLine2() ensures FormatPosix(SampleVars[2]) == SampleLines[2]
  {
    LineOf(SampleVars[2], "someintvar", "SOMEINTVAR", "1");
  }

  lemma SampleLine3() ensures FormatPosix(SampleVars[3]) == SampleLines[3]
  {
    LineOf(SampleVars[3], "section2_nestedvar", "SECTION2_NESTEDVAR", "value4");
  }

  lemma SampleLine4() ensures FormatPosix(SampleVars[4]) == SampleLines[4]
  {
    LineOf(SampleVars[4], "section_nestedvar", "SECTION_NESTEDVAR", "value2");
  }

  lemma SampleLine5() ensures FormatPosix(SampleVars[5]) == SampleLines[5]
  {
    var v := SampleVars[5];
    assert Join(v.key, "_") == "section_nested_" + "doublynestedvar";
    ToUpperPointwise("section_nested_", "SECTION_NESTED_");
    ToUpperPointwise("doublynestedvar", "DOUBLYNESTEDVAR");
    ToUpperAppend("section_nested_", "doublynestedvar");
    LongName();
  }

  /** A literal-only fact, kept apart so that `SampleLine5` stays small. */
  lemma LongName()
    ensures "SECTION_NESTED_" + "DOUBLYNESTEDVAR" == "SECTION_NESTED_DOUBLYNESTEDVAR"
  {
    var name := "SECTION_NESTED_DOUBLYNESTEDVAR";
    assert name == name[..15] + name[15..];
    assert name[..15] == "SECTION_NESTED_";
    assert name[15..] == "DOUBLYNESTEDVAR";
  }

  /** The exact lines of the `test` unit test, in order. */
  lemma SampleOutput()
    ensures FormatVars(Flatten(SampleConfig)) == SampleLines
  {
    SampleVarsInOrder();
    forall i | 0 <= i < |SampleVars|
      ensures SampleLines[i] == FormatPosix(SampleVars[i])
    {
      if i == 0 {
        SampleLine0();
      } else if i == 1 {
        SampleLine1();
      } else if i == 2 {
        SampleLine2();
      } else if i == 3 {
        SampleLine3();
      } else if i == 4 {
        SampleLine4();
      } else {
        SampleLine5();
      }
    }
    FormatVarsPointwise(SampleVars, SampleLines);
  }

  /** The `test` unit test: `walk` then `format_vars` on the sample document. */
  method WalkSample() returns (lines: seq<string>)
    ensures lines == SampleLines
  {
    var vars := Walk(SampleConfig);
    lines := FormatVars(vars);
    SampleOutput();
  }
}
