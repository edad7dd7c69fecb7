/**
 * The working-copy status model behind the status panel (svn/svn.go):
 * five fixed sections of paths, their expansion flags, the routing of
 * `svn status` entries into sections and the per-path cache of diff lines.
 *
 * Running the `svn` binary and decoding its XML are not modelled: the
 * operations that did so take the decoded records, or the command's
 * output, as a parameter.
 */
module Svn {
  import opened Wrappers
  import opened Text

  // ---------------------------------------------------------------------
  // Sections

  const SectionUnversioned: int := 0
  const SectionUnstaged: int := 1
  const SectionStaged: int := 2
  const SectionIgnored: int := 3
  const SectionIssues: int := 4
  const NumSections: int := 5

  const SectionTitles: seq<string> := ["Unversioned", "Unstaged", "Staged", "Ignored", "Issues"]

  predicate InSectionRange(si: int) {
    0 <= si < NumSections
  }

  datatype PathStatus = PathStatus(path: string, status: char, expanded: bool)

  datatype Section = Section(title: string, paths: seq<PathStatus>, expanded: bool)

  /** The errors the service reports. `SectionOutOfBounds` and
      `PathIndexOutOfBounds` are the messages GetPathStatus and
      TogglePathExpand give; ToggleSectionExpand has its own message.
      `CommandFailed` and `DecodeFailed` stand for a failing `svn`
      invocation and for output that did not decode. */
  datatype SvnError =
    | SectionOutOfBounds
    | ToggleSectionOutOfBounds
    | PathIndexOutOfBounds
    | InvalidStatus(status: string, path: string)
    | EmptyDiffPath
    | DiffSeparatorNotFound
    | CommandFailed
    | DecodeFailed

  // ---------------------------------------------------------------------
  // Status words

  /** The closed set of `wc-status` words, and the rune each one shows as. */
  const StatusWords: seq<string> :=
    ["added", "conflicted", "deleted", "ignored", "modified",
     "replaced", "external", "unversioned", "missing", "obstructed"]
  const StatusRunes: seq<char> := ['A', 'C', 'D', 'I', 'M', 'R', 'X', '?', '!', '~']

  predicate ValidStatus(status: string) {
    status in StatusWords
  }

  /** The one-letter code of a status word, and whether the word is known. */
  function StatusToRune(status: string): (r: (char, bool))
    ensures r.1 <==> ValidStatus(status)
    ensures forall i :: 0 <= i < |StatusWords| && StatusWords[i] == status ==> r.0 == StatusRunes[i]
    ensures !r.1 ==> r.0 == ' '
  {
    match status
    case "added" => ('A', true)
    case "conflicted" => ('C', true)
    case "deleted" => ('D', true)
    case "ignored" => ('I', true)
    case "modified" => ('M', true)
    case "replaced" => ('R', true)
    case "external" => ('X', true)
    case "unversioned" => ('?', true)
    case "missing" => ('!', true)
    case "obstructed" => ('~', true)
    case _ => (' ', false)
  }

  /** The word a rune stands for: the inverse of StatusToRune on known words. */
  ghost function WordOfRune(c: char): string {
    match c
    case 'A' => "added"
    case 'C' => "conflicted"
    case 'D' => "deleted"
    case 'I' => "ignored"
    case 'M' => "modified"
    case 'R' => "replaced"
    case 'X' => "external"
    case '?' => "unversioned"
    case '!' => "missing"
    case '~' => "obstructed"
    case _ => ""
  }

  lemma WordOfRuneOfWord(a: string)
    requires ValidStatus(a)
    ensures WordOfRune(StatusToRune(a).0) == a
  {
  }

  /** Two different known words never share a rune, so the rune identifies the word. */
  lemma StatusRuneInjective(a: string, b: string)
    requires ValidStatus(a) && ValidStatus(b) && a != b
    ensures StatusToRune(a).0 != StatusToRune(b).0
  {
    WordOfRuneOfWord(a);
    WordOfRuneOfWord(b);
  }

  // ---------------------------------------------------------------------
  // Decoded `svn status --xml` records

  /** An `<entry>`: its `path` attribute and its `wc-status` `item` word. */
  datatype StatusEntry = StatusEntry(path: string, status: string)

  /** A `<changelist>` with its `name` attribute. */
  datatype ChangeList = ChangeList(name: string, entries: seq<StatusEntry>)

  /** A decoded `<status>` document: the target's entries, then the change lists. */
  datatype StatusDoc = StatusDoc(target: seq<StatusEntry>, changeLists: seq<ChangeList>)

  /** The path status an entry with a known word becomes (collapsed). */
  function ToPathStatus(e: StatusEntry): PathStatus {
    PathStatus(e.path, StatusToRune(e.status).0, false)
  }

  /** `entryToPathStatus`: an entry with an unknown word is an error. */
  function EntryToPathStatus(e: StatusEntry): (r: Result<PathStatus, SvnError>)
    ensures r.Success? <==> ValidStatus(e.status)
    ensures r.Success? ==> r.value.path == e.path && !r.value.expanded
    ensures r.Success? ==> exists i :: 0 <= i < |StatusWords| && StatusWords[i] == e.status && r.value.status == StatusRunes[i]
    ensures r.Failure? ==> r.error == InvalidStatus(e.status, e.path)
  {
    var (rune, ok) := StatusToRune(e.status);
    if !ok then Failure(InvalidStatus(e.status, e.path))
    else Success(PathStatus(e.path, rune, false))
  }

  // ---------------------------------------------------------------------
  // Routing of status entries into sections (the body of FetchStatus)

  /** The section the `switch` in FetchStatus sends a target entry to. */
  function TargetSection(status: string): Option<int> {
    if status == "unversioned" then Some(SectionUnversioned)
    else if status in ["added", "deleted", "modified", "missing", "replaced"] then Some(SectionUnstaged)
    else if status in ["conflicted", "external", "obstructed"] then Some(SectionIssues)
    else if status == "ignored" then Some(SectionIgnored)
    else None
  }

  /** The switch covers exactly the known words, and never picks Staged. */
  lemma TargetSectionCoversKnownWords(status: string)
    ensures TargetSection(status).Some? <==> ValidStatus(status)
    ensures TargetSection(status).Some? ==>
      InSectionRange(TargetSection(status).value) && TargetSection(status).value != SectionStaged
  {
  }

  /** The switch agrees with the runes: the section of a word is fixed by
      the rune it shows as. */
  lemma TargetSectionByRune(status: string)
    ensures TargetSection(status) == Some(SectionUnversioned) <==> StatusToRune(status).0 == '?'
    ensures TargetSection(status) == Some(SectionUnstaged) <==> StatusToRune(status).0 in "ADMR!"
    ensures TargetSection(status) == Some(SectionIssues) <==> StatusToRune(status).0 in "CX~"
    ensures TargetSection(status) == Some(SectionIgnored) <==> StatusToRune(status).0 == 'I'
  {
  }


  /** The position of the first entry whose word is unknown, or `|es|`. */
  function FirstInvalid(es: seq<StatusEntry>): (k: nat)
    ensures k <= |es|
    ensures forall i :: 0 <= i < k ==> ValidStatus(es[i].status)
    ensures k < |es| ==> !ValidStatus(es[k].status)
    decreases |es|
  {
    if es == [] then 0
    else if !ValidStatus(es[0].status) then 0
    else 1 + FirstInvalid(es[1..])
  }

  /** The path statuses routed to section `si`, in the entries' order. */
  function Routed(es: seq<StatusEntry>, si: int): seq<PathStatus>
    decreases |es|
  {
    if es == [] then []
    else
      var last := es[|es| - 1];
      Routed(es[..|es| - 1], si) + (if TargetSection(last.status) == Some(si) then [ToPathStatus(last)] else [])
  }

  /** The path statuses of `es`, in order. */
  function Converted(es: seq<StatusEntry>): (r: seq<PathStatus>)
    ensures |r| == |es|
    ensures forall i :: 0 <= i < |es| ==> r[i] == ToPathStatus(es[i])
  {
    seq(|es|, i requires 0 <= i < |es| => ToPathStatus(es[i]))
  }

  /** The entries of every change list named "staged", list by list. */
  function StagedEntries(cls: seq<ChangeList>): (r: seq<StatusEntry>)
    ensures forall e :: e in r <==> exists c :: c in cls && c.name == "staged" && e in c.entries
    decreases |cls|
  {
    if cls == [] then []
    else
      var last := cls[|cls| - 1];
      StagedEntries(cls[..|cls| - 1]) + (if last.name == "staged" then last.entries else [])
  }

  /** The error for the first entry with an unknown word, if there is one. */
  function FirstError(es: seq<StatusEntry>): Option<SvnError> {
    var k := FirstInvalid(es);
    if k < |es| then Some(InvalidStatus(es[k].status, es[k].path)) else None
  }

  /** The sections with each entry of `es` appended to the section its word routes it to. */
  function RoutedInto(ss: seq<Section>, es: seq<StatusEntry>): (r: seq<Section>)
    requires |ss| == NumSections
    ensures |r| == NumSections
    ensures forall si :: 0 <= si < NumSections ==>
      r[si].paths == ss[si].paths + Routed(es, si) && r[si].title == ss[si].title && r[si].expanded == ss[si].expanded
  {
    seq(NumSections, si requires 0 <= si < NumSections => ss[si].(paths := ss[si].paths + Routed(es, si)))
  }

  /** The sections with the entries `st` appended to Staged. */
  function StagedInto(ss: seq<Section>, st: seq<StatusEntry>): (r: seq<Section>)
    requires |ss| == NumSections
    ensures |r| == NumSections
    ensures r[SectionStaged].paths == ss[SectionStaged].paths + Converted(st)
    ensures forall si :: 0 <= si < NumSections ==> r[si].title == ss[si].title && r[si].expanded == ss[si].expanded
    ensures forall si :: 0 <= si < NumSections && si != SectionStaged ==> r[si] == ss[si]
  {
    ss[SectionStaged := ss[SectionStaged].(paths := ss[SectionStaged].paths + Converted(st))]
  }

  /** What FetchStatus leaves in the sections, and the error it returns, given
      the sections before and the decoded document (or the failure to get it).
      Paths are cleared first; target entries are routed up to the first one
      with an unknown word; only if all of them are known are the entries of
      the "staged" change lists appended to Staged, again up to the first
      unknown word. */
  function Refreshed(ss: seq<Section>, fetched: Result<StatusDoc, SvnError>): (r: (seq<Section>, Option<SvnError>))
    requires |ss| == NumSections
    ensures |r.0| == NumSections
    ensures forall si :: 0 <= si < NumSections ==> r.0[si].title == ss[si].title && r.0[si].expanded == ss[si].expanded
  {
    match fetched
    case Failure(e) => (Cleared(ss), Some(e))
    case Success(doc) =>
      var es := doc.target;
      var k := FirstInvalid(es);
      var routed := RoutedInto(Cleared(ss), es[..k]);
      if k < |es| then (routed, FirstError(es))
      else
        var st := StagedEntries(doc.changeLists);
        (StagedInto(routed, st[..FirstInvalid(st)]), FirstError(st))
  }

  lemma RoutedIntoStep(ss: seq<Section>, es: seq<StatusEntry>, e: StatusEntry)
    requires |ss| == NumSections && ValidStatus(e.status)
    ensures TargetSection(e.status).Some? && InSectionRange(TargetSection(e.status).value)
    ensures RoutedInto(ss, es + [e]) == Appended(RoutedInto(ss, es), TargetSection(e.status).value, ToPathStatus(e))
  {
    TargetSectionCoversKnownWords(e.status);
    var t := TargetSection(e.status).value;
    assert (es + [e])[..|es|] == es;
    var a := RoutedInto(ss, es + [e]);
    var b := Appended(RoutedInto(ss, es), t, ToPathStatus(e));
    forall si | 0 <= si < NumSections ensures a[si] == b[si] {
      if si == t {
        assert a[si].paths == ss[si].paths + Routed(es, si) + [ToPathStatus(e)];
      } else {
        assert a[si].paths == ss[si].paths + Routed(es, si);
      }
    }
  }

  lemma RoutedIntoNothing(ss: seq<Section>)
    requires |ss| == NumSections
    ensures RoutedInto(ss, []) == ss
  {
    var a := RoutedInto(ss, []);
    forall si | 0 <= si < NumSections ensures a[si] == ss[si] {
      assert ss[si].paths + [] == ss[si].paths;
    }
  }

  lemma StagedIntoStep(ss: seq<Section>, st: seq<StatusEntry>, e: StatusEntry)
    requires |ss| == NumSections
    ensures StagedInto(ss, st + [e]) == Appended(StagedInto(ss, st), SectionStaged, ToPathStatus(e))
  {
    assert Converted(st + [e]) == Converted(st) + [ToPathStatus(e)];
    var a := StagedInto(ss, st + [e]);
    var b := Appended(StagedInto(ss, st), SectionStaged, ToPathStatus(e));
    forall si | 0 <= si < NumSections ensures a[si] == b[si] {
    }
  }

  lemma StagedIntoNext(ss: seq<Section>, done: seq<StatusEntry>, es: seq<StatusEntry>, j: nat)
    requires |ss| == NumSections && j < |es|
    ensures StagedInto(ss, done + es[..j + 1]) ==
      Appended(StagedInto(ss, done + es[..j]), SectionStaged, ToPathStatus(es[j]))
  {
    assert done + es[..j + 1] == (done + es[..j]) + [es[j]];
    StagedIntoStep(ss, done + es[..j], es[j]);
  }

  lemma {:induction false} StagedPrefix(cls: seq<ChangeList>, c: int)
    requires 0 <= c <= |cls|
    ensures StagedEntries(cls[..c]) <= StagedEntries(cls)
    decreases |cls|
  {
    if c < |cls| {
      var init := cls[..|cls| - 1];
      assert init[..c] == cls[..c];
      StagedPrefix(init, c);
    } else {
      assert cls[..c] == cls;
    }
  }

  /** Every known target entry lands in exactly one section, Staged gets none
      of them, and none is lost: the routed lists add up to the entries. */
  lemma {:induction false} RoutedPartition(es: seq<StatusEntry>)
    requires FirstInvalid(es) == |es|
    ensures Routed(es, SectionStaged) == []
    ensures |Routed(es, SectionUnversioned)| + |Routed(es, SectionUnstaged)| + |Routed(es, SectionIgnored)|
            + |Routed(es, SectionIssues)| == |es|
    decreases |es|
  {
    if es != [] {
      var init := es[..|es| - 1];
      var last := es[|es| - 1];
      forall i | 0 <= i < |init| ensures ValidStatus(init[i].status) {
        assert init[i] == es[i];
      }
      ValidPrefix(init);
      RoutedPartition(init);
      TargetSectionCoversKnownWords(last.status);
    }
  }

  lemma StagedEntriesNext(cls: seq<ChangeList>, c: int)
    requires 0 <= c < |cls|
    ensures StagedEntries(cls[..c + 1]) ==
              StagedEntries(cls[..c]) + (if cls[c].name == "staged" then cls[c].entries else [])
  {
    assert cls[..c + 1][..c] == cls[..c];
  }

  /** Two runs of entries with known words make one. */
  lemma AllKnownConcat(done: seq<StatusEntry>, es: seq<StatusEntry>)
    requires FirstInvalid(done) == |done| && FirstInvalid(es) == |es|
    ensures FirstInvalid(done + es) == |done + es|
  {
    var all := done + es;
    forall i | 0 <= i < |all| ensures ValidStatus(all[i].status) {
      if i < |done| { assert all[i] == done[i]; } else { assert all[i] == es[i - |done|]; }
    }
    ValidPrefix(all);
  }

  /** An unknown word in the "staged" list `c`, after only known words in
      the lists before it, is the first unknown word of all staged entries. */
  lemma StagedStops(cls: seq<ChangeList>, c: int)
    requires 0 <= c < |cls| && cls[c].name == "staged"
    requires FirstInvalid(StagedEntries(cls[..c])) == |StagedEntries(cls[..c])|
    requires FirstInvalid(cls[c].entries) < |cls[c].entries|
    ensures FirstError(StagedEntries(cls)) == FirstError(cls[c].entries)
    ensures StagedEntries(cls)[..FirstInvalid(StagedEntries(cls))] ==
              StagedEntries(cls[..c]) + cls[c].entries[..FirstInvalid(cls[c].entries)]
  {
    var done := StagedEntries(cls[..c]);
    var es := cls[c].entries;
    var all := StagedEntries(cls);
    var k := FirstInvalid(es);
    StagedEntriesNext(cls, c);
    StagedPrefix(cls, c + 1);
    FirstInvalidConcat(done, es);
    FirstInvalidExtended(done + es, all);
    ExtendedAt(done, es, all, k);
  }

  /** What a sequence that extends `done + es` holds at and before position
      `k` of `es`. */
  lemma ExtendedAt<T>(done: seq<T>, es: seq<T>, all: seq<T>, k: nat)
    requires done + es <= all && k < |es|
    ensures all[|done| + k] == es[k]
    ensures all[..|done| + k] == done + es[..k]
  {
    assert all[|done| + k] == (done + es)[|done| + k];
    assert all[..|done| + k] == (done + es)[..|done| + k];
  }

  /** After a run of known words, the first unknown word is the first one
      of what follows. */
  lemma FirstInvalidConcat(done: seq<StatusEntry>, es: seq<StatusEntry>)
    requires FirstInvalid(done) == |done|
    ensures FirstInvalid(done + es) == |done| + FirstInvalid(es)
  {
    var all := done + es;
    var k := FirstInvalid(es);
    forall i | 0 <= i < |done| + k ensures ValidStatus(all[i].status) {
      if i < |done| { assert all[i] == done[i]; } else { assert all[i] == es[i - |done|]; }
    }
    if k < |es| {
      assert all[|done| + k] == es[k];
    }
    FirstInvalidIs(all, |done| + k);
  }

  /** Extending a sequence past its first unknown word keeps that word first. */
  lemma FirstInvalidExtended(p: seq<StatusEntry>, q: seq<StatusEntry>)
    requires p <= q && FirstInvalid(p) < |p|
    ensures FirstInvalid(q) == FirstInvalid(p)
  {
    FirstInvalidIs(q, FirstInvalid(p));
  }

  /** The index of the first unknown word is fixed by the words before it
      and the word at it. */
  lemma FirstInvalidIs(es: seq<StatusEntry>, k: nat)
    requires k <= |es|
    requires forall i :: 0 <= i < k ==> ValidStatus(es[i].status)
    requires k < |es| ==> !ValidStatus(es[k].status)
    ensures FirstInvalid(es) == k
  {
  }

  lemma ValidPrefix(es: seq<StatusEntry>)
    requires forall i :: 0 <= i < |es| ==> ValidStatus(es[i].status)
    ensures FirstInvalid(es) == |es|
  {
  }

  /** An entry is routed to the section its word names, at the position given
      by the entries before it that go to the same section. */
  lemma {:induction false} RoutedContains(es: seq<StatusEntry>, i: int)
    requires 0 <= i < |es| && ValidStatus(es[i].status)
    ensures TargetSection(es[i].status).Some?
    ensures ToPathStatus(es[i]) in Routed(es, TargetSection(es[i].status).value)
    decreases |es|
  {
    TargetSectionCoversKnownWords(es[i].status);
    var si := TargetSection(es[i].status).value;
    if i < |es| - 1 {
      var init := es[..|es| - 1];
      assert init[i] == es[i];
      RoutedContains(init, i);
    }
  }

  /** With no change list named "staged", a successful refresh leaves Staged empty. */
  lemma NoStagedListLeavesStagedEmpty(ss: seq<Section>, doc: StatusDoc)
    requires |ss| == NumSections
    requires forall c :: 0 <= c < |doc.changeLists| ==> doc.changeLists[c].name != "staged"
    requires FirstInvalid(doc.target) == |doc.target|
    ensures Refreshed(ss, Success(doc)).0[SectionStaged].paths == []
  {
    NoStagedList(doc.changeLists);
    RoutedPartition(doc.target);
    assert doc.target[..|doc.target|] == doc.target;
  }

  lemma {:induction false} NoStagedList(cls: seq<ChangeList>)
    requires forall c :: 0 <= c < |cls| ==> cls[c].name != "staged"
    ensures StagedEntries(cls) == []
    decreases |cls|
  {
    if cls != [] {
      NoStagedList(cls[..|cls| - 1]);
    }
  }

  /** An unknown word in the target stops the refresh with that entry's
      error; the entries before it stay routed, and Staged stays empty. */
  lemma InvalidTargetStops(ss: seq<Section>, doc: StatusDoc, k: int)
    requires |ss| == NumSections
    requires 0 <= k < |doc.target| && !ValidStatus(doc.target[k].status)
    requires forall i :: 0 <= i < k ==> ValidStatus(doc.target[i].status)
    ensures Refreshed(ss, Success(doc)).1 == Some(InvalidStatus(doc.target[k].status, doc.target[k].path))
    ensures forall si :: 0 <= si < NumSections ==> Refreshed(ss, Success(doc)).0[si].paths == Routed(doc.target[..k], si)
    ensures Refreshed(ss, Success(doc)).0[SectionStaged].paths == []
  {
    var es := doc.target;
    assert FirstInvalid(es) == k;
    var pre := es[..k];
    forall i | 0 <= i < |pre| ensures ValidStatus(pre[i].status) { assert pre[i] == es[i]; }
    ValidPrefix(pre);
    RoutedPartition(pre);
  }

  // ---------------------------------------------------------------------
  // Snapshot transitions: what the in-place updates do to the five sections

  /** The zero value of the sections array. */
  function ZeroSections(): (ss: seq<Section>)
    ensures |ss| == NumSections
    ensures forall si :: 0 <= si < |ss| ==> ss[si].title == "" && ss[si].paths == [] && !ss[si].expanded
  {
    seq(NumSections, _ => Section("", [], false))
  }

  /** `Clear`: every section loses its paths and keeps its title and flag. */
  function Cleared(ss: seq<Section>): (r: seq<Section>)
    ensures |r| == |ss|
    ensures forall si :: 0 <= si < |ss| ==>
      r[si].paths == [] && r[si].title == ss[si].title && r[si].expanded == ss[si].expanded
  {
    seq(|ss|, si requires 0 <= si < |ss| => ss[si].(paths := []))
  }

  /** `Append`: one path more at the end of one section, nothing else changes. */
  function Appended(ss: seq<Section>, si: int, ps: PathStatus): (r: seq<Section>)
    requires 0 <= si < |ss|
    ensures |r| == |ss|
    ensures r[si].paths == ss[si].paths + [ps]
    ensures r[si].title == ss[si].title && r[si].expanded == ss[si].expanded
    ensures forall sj :: 0 <= sj < |ss| && sj != si ==> r[sj] == ss[sj]
  {
    ss[si := ss[si].(paths := ss[si].paths + [ps])]
  }

  /** `Init`: every section titled from SectionTitles and expanded, except
      Unversioned, which is collapsed; paths are kept. */
  function Initialized(ss: seq<Section>): (r: seq<Section>)
    requires |ss| == NumSections
    ensures |r| == NumSections
    ensures forall si :: 0 <= si < NumSections ==>
      r[si].title == SectionTitles[si] && r[si].paths == ss[si].paths
      && (r[si].expanded <==> si != SectionUnversioned)
  {
    seq(NumSections, si requires 0 <= si < NumSections =>
      Section(SectionTitles[si], ss[si].paths, si != SectionUnversioned))
  }

  /** `ToggleSectionExpand` in range: the flag of one section flips and
      nothing else changes. */
  function SectionToggled(ss: seq<Section>, si: int): (r: seq<Section>)
    requires 0 <= si < |ss|
    ensures |r| == |ss|
    ensures r[si].expanded == !ss[si].expanded
    ensures r[si].paths == ss[si].paths && r[si].title == ss[si].title
    ensures forall sj :: 0 <= sj < |ss| && sj != si ==> r[sj] == ss[sj]
  {
    ss[si := ss[si].(expanded := !ss[si].expanded)]
  }

  /** `TogglePathExpand` in range: the flag of one path flips, and no other
      path, section flag or title changes. */
  function PathToggled(ss: seq<Section>, si: int, pi: int): (r: seq<Section>)
    requires 0 <= si < |ss| && 0 <= pi < |ss[si].paths|
    ensures |r| == |ss|
    ensures |r[si].paths| == |ss[si].paths|
    ensures r[si].paths[pi].expanded == !ss[si].paths[pi].expanded
    ensures r[si].paths[pi].path == ss[si].paths[pi].path && r[si].paths[pi].status == ss[si].paths[pi].status
    ensures forall pj :: 0 <= pj < |ss[si].paths| && pj != pi ==> r[si].paths[pj] == ss[si].paths[pj]
    ensures r[si].title == ss[si].title && r[si].expanded == ss[si].expanded
    ensures forall sj :: 0 <= sj < |ss| && sj != si ==> r[sj] == ss[sj]
  {
    var p := ss[si].paths[pi];
    ss[si := ss[si].(paths := ss[si].paths[pi := p.(expanded := !p.expanded)])]
  }

  /** Toggling a section twice restores the sections. */
  lemma SectionToggleTwice(ss: seq<Section>, si: int)
    requires 0 <= si < |ss|
    ensures SectionToggled(SectionToggled(ss, si), si) == ss
  {
    var once := SectionToggled(ss, si);
    assert once[si].(expanded := !once[si].expanded) == ss[si];
  }

  /** Toggling a path twice restores the sections. */
  lemma PathToggleTwice(ss: seq<Section>, si: int, pi: int)
    requires 0 <= si < |ss| && 0 <= pi < |ss[si].paths|
    ensures PathToggled(PathToggled(ss, si, pi), si, pi) == ss
  {
    var once := PathToggled(ss, si, pi);
    var p := once[si].paths[pi];
    assert once[si].paths[pi := p.(expanded := !p.expanded)] == ss[si].paths;
  }

  // ---------------------------------------------------------------------
  // Diff text

  /** The cache entry `svn diff` output becomes, or the error: line endings
      normalised, a "====\n" separator required, then the lines from the
      first "@@" that starts a line, without one trailing empty line; `[""]`
      when there is no hunk, so that the path can still be expanded. */
  function DiffLines(output: string): (r: Result<seq<string>, SvnError>)
    ensures r.Failure? <==> Index(ReplaceCRLF(output), "====\n") < 0
    ensures r.Failure? ==> r.error == DiffSeparatorNotFound
    ensures r.Success? ==> |r.value| >= 1 && AllNoNewline(r.value)
    ensures r.Success? && Index(ReplaceCRLF(output), "\n@@") < 0 ==> r.value == [""]
  {
    var out := ReplaceCRLF(output);
    if Index(out, "====\n") < 0 then Failure(DiffSeparatorNotFound)
    else if Index(out, "\n@@") < 0 then Success([""])
    else Success(HunkLines(HunkText(output)))
  }

  /** The text from the first "@@" that starts a line to the end. */
  function HunkText(output: string): (r: string)
    requires Index(ReplaceCRLF(output), "\n@@") >= 0
    ensures |r| >= 2 && r[..2] == "@@"
    ensures var out := ReplaceCRLF(output);
            |r| < |out| && r == out[|out| - |r|..] && Index(out, "\n@@") == |out| - |r| - 1
  {
    var out := ReplaceCRLF(output);
    var idx := Index(out, "\n@@");
    assert out[idx + 1..][..2] == out[idx..idx + 3][1..];
    out[idx + 1..]
  }

  /** The lines of a hunk text, without the empty line after a final
      newline. They start with the "@@" line and, joined again, give back
      the text, up to that one final newline. */
  function HunkLines(text: string): (r: seq<string>)
    requires |text| >= 2 && text[..2] == "@@"
    ensures |r| >= 1 && AllNoNewline(r)
    ensures |r[0]| >= 2 && r[0][..2] == "@@"
    ensures text[|text| - 1] == '\n' ==> text == JoinLines(r) + "\n"
    ensures text[|text| - 1] != '\n' ==> text == JoinLines(r)
  {
    var lines := Split(text);
    SplitHead(text, 2);
    TrailingLine(text);
    if lines[|lines| - 1] == "" then
      assert lines[..|lines| - 1][0] == lines[0];
      lines[..|lines| - 1]
    else lines
  }

  /** The first piece of a split keeps a newline-free prefix of the text. */
  lemma {:induction false} SplitHead(s: string, k: nat)
    requires k <= |s| && NoNewline(s[..k])
    ensures |Split(s)[0]| >= k && Split(s)[0][..k] == s[..k]
    decreases k
  {
    if k > 0 {
      assert s[0] == s[..k][0];
      assert s[1..][..k - 1] == s[..k][1..];
      SplitHead(s[1..], k - 1);
    }
  }

  /** The last piece of a split is empty exactly when the text ends in a
      newline; dropping it leaves lines that join to the text without it. */
  lemma TrailingLine(text: string)
    requires |text| >= 1
    ensures var lines := Split(text);
            text[|text| - 1] == '\n' ==>
              |lines| >= 2 && lines[|lines| - 1] == "" && text == JoinLines(lines[..|lines| - 1]) + "\n"
    ensures var lines := Split(text);
            text[|text| - 1] != '\n' ==> lines[|lines| - 1] != "" && text == JoinLines(lines)
  {
    var lines := Split(text);
    var last := lines[|lines| - 1];
    JoinSplit(text);
    assert lines == lines[..|lines| - 1] + [last];
    SeparatedThenLine(lines[..|lines| - 1], last);
    if last == "" {
      assert |lines| >= 2;
      DropEmptyLast(lines);
    } else {
      assert text[|text| - 1] == last[|last| - 1];
      assert NoNewline(last);
    }
  }

  /** A hunk is kept whole: its lines start with the "@@" line and, joined
      again, give back the hunk text; a hunk text that ends in a newline has
      exactly that one final newline dropped (the empty line after it). */
  lemma DiffLinesKeepHunk(output: string)
    requires DiffLines(output).Success?
    requires Index(ReplaceCRLF(output), "\n@@") >= 0
    ensures |DiffLines(output).value[0]| >= 2 && DiffLines(output).value[0][..2] == "@@"
    ensures var t := HunkText(output);
            t[|t| - 1] == '\n' ==> t == JoinLines(DiffLines(output).value) + "\n"
    ensures var t := HunkText(output);
            t[|t| - 1] != '\n' ==> t == JoinLines(DiffLines(output).value)
  {
    assert DiffLines(output).value == HunkLines(HunkText(output));
  }

  lemma DropEmptyLast(lines: seq<string>)
    requires |lines| >= 2 && lines[|lines| - 1] == ""
    ensures JoinLines(lines) == JoinLines(lines[..|lines| - 1]) + "\n"
    ensures lines[..|lines| - 1][0] == lines[0]
  {
    var init := lines[..|lines| - 1];
    assert init + [""] == lines;
    JoinLinesSnoc(init, "");
  }

  /** What FetchDiff does to the cache and returns, given the cache before,
      the path and the output of `svn diff` (or its failure). */
  function DiffFetched(cache: map<string, seq<string>>, path: string, output: Result<string, SvnError>)
    : (r: (map<string, seq<string>>, Option<SvnError>))
    ensures r.1.Some? ==> r.0 == cache
    ensures r.1.None? ==> path in r.0 && r.0.Keys == cache.Keys + {path}
    ensures forall p :: p in cache ==> p in r.0 && r.0[p] == cache[p]
  {
    if path == "" then (cache, Some(EmptyDiffPath))
    else if path in cache then (cache, None)
    else match output
      case Failure(e) => (cache, Some(e))
      case Success(text) =>
        match DiffLines(text)
        case Failure(e) => (cache, Some(e))
        case Success(lines) => (cache[path := lines], None)
  }

  /** An empty path is an error, and a cached path is served without
      running the command again. */
  lemma DiffFetchedGuards(cache: map<string, seq<string>>, path: string, output: Result<string, SvnError>)
    ensures path == "" ==> DiffFetched(cache, path, output) == (cache, Some(EmptyDiffPath))
    ensures path != "" && path in cache ==> DiffFetched(cache, path, output) == (cache, None)
    ensures path != "" && path !in cache && output.Failure? ==>
      DiffFetched(cache, path, output) == (cache, Some(output.error))
    ensures path != "" && path !in cache && output.Success? && DiffLines(output.value).Failure? ==>
      DiffFetched(cache, path, output) == (cache, Some(DiffSeparatorNotFound))
    ensures path != "" && path !in cache && output.Success? && DiffLines(output.value).Success? ==>
      DiffFetched(cache, path, output).0[path] == DiffLines(output.value).value
  {
  }

  /** `GetDiff` on the cache: the cached lines, or none for an unknown path. */
  function CachedDiff(cache: Option<map<string, seq<string>>>, path: string): (r: seq<string>)
    ensures cache.Some? && path in cache.value ==> r == cache.value[path]
    ensures !(cache.Some? && path in cache.value) ==> r == []
  {
    if cache.Some? && path in cache.value then cache.value[path] else []
  }

  /** A successful fetch makes the path's diff available, never as an empty list. */
  lemma FetchThenGet(cache: map<string, seq<string>>, path: string, output: Result<string, SvnError>)
    requires path != "" && path !in cache
    requires DiffFetched(cache, path, output).1.None?
    ensures |CachedDiff(Some(DiffFetched(cache, path, output).0), path)| >= 1
  {
  }

  // ---------------------------------------------------------------------
  // The state, updated in place

  /** `RepoStatus`: the fixed array of five sections. */
  class RepoStatus {
    const sections: array<Section>

    predicate Valid() {
      sections.Length == NumSections
    }

    function Snapshot(): (ss: seq<Section>)
      reads sections
      ensures |ss| == sections.Length
    {
      sections[..]
    }

    /** The zero value: five untitled, empty, collapsed sections. */
    constructor ()
      ensures Valid() && fresh(sections)
      ensures Snapshot() == ZeroSections()
    {
      sections := new Section[NumSections](_ => Section("", [], false));
    }

    /** `NewRepoStatus`: the five sections titled from SectionTitles, empty
        and collapsed. */
    constructor Titled()
      ensures Valid() && fresh(sections)
      ensures forall si :: 0 <= si < NumSections ==> Snapshot()[si] == Section(SectionTitles[si], [], false)
    {
      sections := new Section[NumSections](i requires 0 <= i < NumSections => Section(SectionTitles[i], [], false));
    }

    /** The number of paths in a section, 0 for a section out of range. */
    function Len(si: int): (n: nat)
      requires Valid()
      reads sections
      ensures !InSectionRange(si) ==> n == 0
      ensures InSectionRange(si) ==> n == |Snapshot()[si].paths|
    {
      if 0 <= si < NumSections then |sections[si].paths| else 0
    }

    /** The first section after `curr` that has a path. */
    method NextNonEmptySection(curr: int) returns (next: int, found: bool)
      requires Valid()
      requires curr >= -1
      ensures found ==> curr < next < NumSections && |sections[next].paths| > 0
      ensures found ==> forall si :: curr < si < next ==> |sections[si].paths| == 0
      ensures !found ==> next == 0
      ensures !found ==> forall si :: curr < si < NumSections ==> |sections[si].paths| == 0
    {
      var sec := curr + 1;
      while sec < NumSections
        invariant curr < sec
        invariant forall si :: curr < si < sec && si < NumSections ==> |sections[si].paths| == 0
      {
        if |sections[sec].paths| > 0 {
          return sec, true;
        }
        sec := sec + 1;
      }
      return 0, false;
    }

    /** The last section before `curr` that has a path. */
    method PrevNonEmptySection(curr: int) returns (prev: int, found: bool)
      requires Valid()
      requires curr <= NumSections
      ensures found ==> 0 <= prev < curr && |sections[prev].paths| > 0
      ensures found ==> forall si :: prev < si < curr ==> |sections[si].paths| == 0
      ensures !found ==> prev == 0
      ensures !found ==> forall si :: 0 <= si < curr ==> |sections[si].paths| == 0
    {
      var sec := curr - 1;
      while sec >= 0
        invariant sec < curr
        invariant forall si :: sec < si < curr && 0 <= si ==> |sections[si].paths| == 0
      {
        if |sections[sec].paths| > 0 {
          return sec, true;
        }
        sec := sec - 1;
      }
      return 0, false;
    }

    method Append(si: int, ps: PathStatus)
      requires Valid() && InSectionRange(si)
      modifies sections
      ensures Snapshot() == Appended(old(Snapshot()), si, ps)
    {
      sections[si] := sections[si].(paths := sections[si].paths + [ps]);
    }

    method Clear()
      requires Valid()
      modifies sections
      ensures Snapshot() == Cleared(old(Snapshot()))
    {
      for i := 0 to NumSections
        invariant forall j :: 0 <= j < i ==> sections[j] == old(sections[j]).(paths := [])
        invariant forall j :: i <= j < NumSections ==> sections[j] == old(sections[j])
      {
        sections[i] := sections[i].(paths := []);
      }
    }
  }

  /** `RealService`: the status sections and the diff cache (`None` while
      the Go map is still nil). Repository info is not part of this model. */
  class RealService {
    const repoStatus: RepoStatus
    var diffCache: Option<map<string, seq<string>>>

    predicate Valid() {
      repoStatus.Valid()
    }

    /** The zero value of the service. */
    constructor ()
      ensures Valid() && fresh(repoStatus) && fresh(repoStatus.sections)
      ensures repoStatus.Snapshot() == ZeroSections()
      ensures diffCache == None
    {
      repoStatus := new RepoStatus();
      diffCache := None;
    }

    method Init()
      requires Valid()
      modifies repoStatus.sections, this`diffCache
      ensures repoStatus.Snapshot() == Initialized(old(repoStatus.Snapshot()))
      ensures diffCache == if old(diffCache).None? then Some(map[]) else old(diffCache)
    {
      var sections := repoStatus.sections;
      for i := 0 to NumSections
        modifies sections
        invariant forall j :: 0 <= j < i ==>
          sections[j] == old(sections[j]).(title := SectionTitles[j], expanded := true)
        invariant forall j :: i <= j < NumSections ==> sections[j] == old(sections[j])
      {
        sections[i] := sections[i].(title := SectionTitles[i], expanded := true);
      }
      sections[SectionUnversioned] := sections[SectionUnversioned].(expanded := false);
      if diffCache.None? {
        diffCache := Some(map[]);
      }
    }

    /** The path at (section, index), or which index was out of range. */
    function GetPathStatus(si: int, idx: int): (r: Result<PathStatus, SvnError>)
      requires Valid()
      reads repoStatus.sections
      ensures !InSectionRange(si) ==> r == Failure(SectionOutOfBounds)
      ensures InSectionRange(si) && !(0 <= idx < |repoStatus.Snapshot()[si].paths|) ==> r == Failure(PathIndexOutOfBounds)
      ensures r.Success? ==> InSectionRange(si) && 0 <= idx < |repoStatus.Snapshot()[si].paths|
                             && r.value == repoStatus.Snapshot()[si].paths[idx]
      ensures InSectionRange(si) && 0 <= idx < |repoStatus.Snapshot()[si].paths| ==>
        r == Success(repoStatus.Snapshot()[si].paths[idx])
    {
      if !(0 <= si < NumSections) then Failure(SectionOutOfBounds)
      else if !(0 <= idx < |repoStatus.sections[si].paths|) then Failure(PathIndexOutOfBounds)
      else Success(repoStatus.sections[si].paths[idx])
    }

    method ToggleSectionExpand(si: int) returns (err: Option<SvnError>)
      requires Valid()
      modifies repoStatus.sections
      ensures err == if InSectionRange(si) then None else Some(ToggleSectionOutOfBounds)
      ensures repoStatus.Snapshot() ==
        if InSectionRange(si) then SectionToggled(old(repoStatus.Snapshot()), si) else old(repoStatus.Snapshot())
    {
      if !(0 <= si < NumSections) {
        return Some(ToggleSectionOutOfBounds);
      }
      var sections := repoStatus.sections;
      sections[si] := sections[si].(expanded := !sections[si].expanded);
      return None;
    }

    method TogglePathExpand(si: int, pathIdx: int) returns (err: Option<SvnError>)
      requires Valid()
      modifies repoStatus.sections
      ensures !InSectionRange(si) ==> err == Some(SectionOutOfBounds)
      ensures InSectionRange(si) && !(0 <= pathIdx < |old(repoStatus.Snapshot())[si].paths|) ==>
        err == Some(PathIndexOutOfBounds)
      ensures InSectionRange(si) && 0 <= pathIdx < |old(repoStatus.Snapshot())[si].paths| ==> err == None
      ensures err.Some? ==> repoStatus.Snapshot() == old(repoStatus.Snapshot())
      ensures err.None? ==>
        (InSectionRange(si) && 0 <= pathIdx < |old(repoStatus.Snapshot())[si].paths|
         && repoStatus.Snapshot() == PathToggled(old(repoStatus.Snapshot()), si, pathIdx))
    {
      if !(0 <= si < NumSections) {
        return Some(SectionOutOfBounds);
      }
      var sections := repoStatus.sections;
      if !(0 <= pathIdx < |sections[si].paths|) {
        return Some(PathIndexOutOfBounds);
      }
      var p := sections[si].paths[pathIdx];
      sections[si] := sections[si].(paths := sections[si].paths[pathIdx := p.(expanded := !p.expanded)]);
      return None;
    }

    /** Refresh the sections from a decoded `svn status` document, or from
        the failure to run the command or decode its output. */
    method FetchStatus(fetched: Result<StatusDoc, SvnError>) returns (err: Option<SvnError>)
      requires Valid()
      modifies repoStatus.sections
      ensures (repoStatus.Snapshot(), err) == Refreshed(old(repoStatus.Snapshot()), fetched)
    {
      repoStatus.Clear();
      if fetched.Failure? {
        return Some(fetched.error);
      }
      var doc := fetched.value;
      err := RouteTargetEntries(doc.target);
      if err.Some? {
        return err;
      }
      err := AppendStagedEntries(doc.changeLists);
    }

    /** The first loop of FetchStatus: each target entry goes to the section
        its word names; an unknown word stops the loop with an error. */
    method RouteTargetEntries(es: seq<StatusEntry>) returns (err: Option<SvnError>)
      requires Valid()
      modifies repoStatus.sections
      ensures err == FirstError(es)
      ensures repoStatus.Snapshot() == RoutedInto(old(repoStatus.Snapshot()), es[..FirstInvalid(es)])
    {
      ghost var start := repoStatus.Snapshot();
      assert es[..0] == [];
      RoutedIntoNothing(start);
      for i := 0 to |es|
        invariant i <= FirstInvalid(es)
        invariant repoStatus.Snapshot() == RoutedInto(start, es[..i])
      {
        var r := EntryToPathStatus(es[i]);
        if r.Failure? {
          return Some(r.error);
        }
        RoutedIntoStep(start, es[..i], es[i]);
        assert es[..i + 1] == es[..i] + [es[i]];
        match TargetSection(es[i].status) {
          case Some(si) =>
            repoStatus.Append(si, r.value);
        }
      }
      assert es[..|es|] == es;
      return None;
    }

    /** The second loop of FetchStatus: the entries of every change list
        named "staged" go to Staged; an unknown word stops with an error. */
    method AppendStagedEntries(cls: seq<ChangeList>) returns (err: Option<SvnError>)
      requires Valid()
      modifies repoStatus.sections
      ensures err == FirstError(StagedEntries(cls))
      ensures repoStatus.Snapshot() ==
        StagedInto(old(repoStatus.Snapshot()), StagedEntries(cls)[..FirstInvalid(StagedEntries(cls))])
    {
      ghost var start := repoStatus.Snapshot();
      assert start[SectionStaged].paths + Converted([]) == start[SectionStaged].paths;
      assert StagedInto(start, []) == start;
      for c := 0 to |cls|
        invariant FirstInvalid(StagedEntries(cls[..c])) == |StagedEntries(cls[..c])|
        invariant repoStatus.Snapshot() == StagedInto(start, StagedEntries(cls[..c]))
      {
        ghost var done := StagedEntries(cls[..c]);
        StagedEntriesNext(cls, c);
        if cls[c].name == "staged" {
          var entries := cls[c].entries;
          err := AppendListEntries(entries, start, done);
          if err.Some? {
            StagedStops(cls, c);
            return err;
          }
          assert entries[..FirstInvalid(entries)] == entries;
          AllKnownConcat(done, entries);
          assert StagedEntries(cls[..c + 1]) == done + entries;
          assert repoStatus.Snapshot() == StagedInto(start, done + entries);
        } else {
          assert StagedEntries(cls[..c + 1]) == done;
        }
      }
      assert cls[..|cls|] == cls;
      assert StagedEntries(cls)[..|StagedEntries(cls)|] == StagedEntries(cls);
      return None;
    }

    /** The entries of one "staged" change list appended to Staged after the
        entries `done`, up to the first one with an unknown word. */
    method AppendListEntries(entries: seq<StatusEntry>, ghost start: seq<Section>, ghost done: seq<StatusEntry>)
        returns (err: Option<SvnError>)
      requires Valid() && |start| == NumSections
      requires repoStatus.Snapshot() == StagedInto(start, done)
      modifies repoStatus.sections
      ensures err == FirstError(entries)
      ensures repoStatus.Snapshot() == StagedInto(start, done + entries[..FirstInvalid(entries)])
    {
      assert done + entries[..0] == done;
      for j := 0 to |entries|
        invariant j <= FirstInvalid(entries)
        invariant repoStatus.Snapshot() == StagedInto(start, done + entries[..j])
      {
        var r := EntryToPathStatus(entries[j]);
        if r.Failure? {
          assert FirstInvalid(entries) == j;
          return Some(r.error);
        }
        StagedIntoNext(start, done, entries, j);
        repoStatus.Append(SectionStaged, r.value);
      }
      assert entries[..|entries|] == entries;
      return None;
    }

    /** Fetch the diff of a path into the cache. `output` is what running
        `svn diff` on the path gives. Init must have created the cache: Go
        panics when writing into a nil map. */
    method FetchDiff(path: string, output: Result<string, SvnError>) returns (err: Option<SvnError>)
      requires diffCache.Some?
      modifies this`diffCache
      ensures diffCache.Some?
      ensures (diffCache.value, err) == DiffFetched(old(diffCache.value), path, output)
    {
      if path == "" {
        return Some(EmptyDiffPath);
      }
      if path in diffCache.value {
        return None;
      }
      if output.Failure? {
        return Some(output.error);
      }
      var out := ReplaceCRLF(output.value);
      var sepIdx := Index(out, "====\n");
      if sepIdx < 0 {
        return Some(DiffSeparatorNotFound);
      }
      var idx := Index(out, "\n@@");
      if idx < 0 {
        diffCache := Some(diffCache.value[path := [""]]);
        return None;
      }
      var text := out[idx + 1..];
      assert text == HunkText(output.value);
      var lines := Split(text);
      if lines[|lines| - 1] == "" {
        lines := lines[..|lines| - 1];
      }
      assert lines == HunkLines(text);
      diffCache := Some(diffCache.value[path := lines]);
      return None;
    }

    function GetDiff(path: string): (lines: seq<string>)
      reads this
      ensures lines == CachedDiff(diffCache, path)
    {
      CachedDiff(diffCache, path)
    }
  }
}
