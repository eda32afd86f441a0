/** The browser page that shows the extracted outline and lets the user pick
    segments and re-tag them before asking for the final spreadsheet.

    The selection is a list of entries, each naming a segment by its position
    (module index, block index, segment index). Checking a box toggles an
    entry, the two drop-downs rewrite an entry's learning type and video type,
    an upload response replaces the outline and clears the selection, and
    the final submission groups the entries into a pruned outline. */
module UploadPage {
  import opened Wrappers
  import opened Outline

  /** At most this many entries of one module may be selected as Video by
      checking boxes. */
  const MaxVideoSegmentsPerModule: nat := 7

  /** One selected segment: where it is, a copy of it, and the learning type
      and video type the user chose for it. */
  datatype Entry = Entry(
    moduleIdx: nat,
    blockIdx: nat,
    segmentIdx: nat,
    segment: Segment,
    customLearningType: string,
    customVideoType: string)

  /** The entry names the segment at (m, b, s). */
  predicate At(e: Entry, m: nat, b: nat, s: nat)
  {
    e.moduleIdx == m && e.blockIdx == b && e.segmentIdx == s
  }

  /** (m, b, s) names a segment of the outline. */
  predicate ValidCoord(modules: seq<Module>, m: nat, b: nat, s: nat)
  {
    m < |modules| && b < |modules[m].blocks| && s < |modules[m].blocks[b].segments|
  }

  /** Every entry names a segment of the outline and holds a copy of it. */
  ghost predicate EntriesValid(modules: seq<Module>, sel: seq<Entry>)
  {
    forall k :: 0 <= k < |sel| ==>
      ValidCoord(modules, sel[k].moduleIdx, sel[k].blockIdx, sel[k].segmentIdx) &&
      sel[k].segment == modules[sel[k].moduleIdx].blocks[sel[k].blockIdx].segments[sel[k].segmentIdx]
  }

  /** No two entries name the same segment. */
  ghost predicate Unique(sel: seq<Entry>)
  {
    forall i, j :: 0 <= i < j < |sel| ==>
      !At(sel[j], sel[i].moduleIdx, sel[i].blockIdx, sel[i].segmentIdx)
  }

  /** Every module has at most `MaxVideoSegmentsPerModule` entries whose
      chosen learning type is Video. */
  ghost predicate VideoCapHolds(sel: seq<Entry>)
  {
    forall m: nat :: VideoCount(sel, m) <= MaxVideoSegmentsPerModule
  }

  /** Some entry names (m, b, s) (the `some` test of the page). */
  function IsSelected(sel: seq<Entry>, m: nat, b: nat, s: nat): (r: bool)
    ensures r <==> exists k :: 0 <= k < |sel| && At(sel[k], m, b, s)
  {
    if sel == [] then false
    else At(sel[0], m, b, s) || IsSelected(sel[1..], m, b, s)
  }

  /** The number of entries of module `m` whose chosen type is Video. */
  function VideoCount(sel: seq<Entry>, m: nat): (n: nat)
    ensures n <= |sel|
  {
    if sel == [] then 0
    else
      var here := if sel[0].moduleIdx == m && sel[0].customLearningType == Video then 1 else 0;
      here + VideoCount(sel[1..], m)
  }

  /** The entries that do not name (m, b, s), in their order (the `filter`
      that unchecks a box). */
  function Deselect(sel: seq<Entry>, m: nat, b: nat, s: nat): (r: seq<Entry>)
    ensures |r| <= |sel|
  {
    if sel == [] then []
    else (if At(sel[0], m, b, s) then [] else [sel[0]]) + Deselect(sel[1..], m, b, s)
  }

  /** Unchecking keeps exactly the entries that do not name (m, b, s). */
  lemma {:induction false} DeselectMembers(sel: seq<Entry>, m: nat, b: nat, s: nat)
    ensures forall e :: e in Deselect(sel, m, b, s) <==> e in sel && !At(e, m, b, s)
    decreases |sel|
  {
    if sel != [] {
      DeselectMembers(sel[1..], m, b, s);
      assert sel == [sel[0]] + sel[1..];
    }
  }

  /** The entry a newly checked box adds: the segment's own learning type,
      and its video type or "" when it has none. */
  function NewEntry(m: nat, b: nat, s: nat, segment: Segment): (e: Entry)
    ensures At(e, m, b, s) && e.segment == segment
    ensures e.customLearningType == segment.learningType
    ensures e.customVideoType == (if segment.videoType.Some? then segment.videoType.value else "")
  {
    Entry(m, b, s, segment, segment.learningType, segment.videoType.GetOr(""))
  }

  /** What checking or unchecking a box does: the new selection, or the
      refusal shown when the module's Video limit is reached. */
  datatype ToggleOutcome = Toggled(entries: seq<Entry>) | VideoCapReached

  /** Checking or unchecking the box of segment (m, b, s). A selected segment
      is removed; an unselected one is added unless it is a Video segment and
      its module already has the maximum of Video entries. */
  function Toggle(modules: seq<Module>, sel: seq<Entry>, m: nat, b: nat, s: nat): ToggleOutcome
    requires ValidCoord(modules, m, b, s)
  {
    var segment := modules[m].blocks[b].segments[s];
    if IsSelected(sel, m, b, s) then
      Toggled(Deselect(sel, m, b, s))
    else if segment.learningType == Video && VideoCount(sel, m) >= MaxVideoSegmentsPerModule then
      VideoCapReached
    else
      Toggled(sel + [NewEntry(m, b, s, segment)])
  }

  /** The entry after its learning-type drop-down is set to `newType`. */
  function Retype(e: Entry, newType: string): (r: Entry)
    ensures r.customLearningType == newType
    ensures r.(customLearningType := e.customLearningType, customVideoType := e.customVideoType) == e
    ensures newType != Video ==> r.customVideoType == ""
    ensures newType == Video && e.customVideoType != "" ==> r.customVideoType == e.customVideoType
    ensures newType == Video && e.customVideoType == "" ==> r.customVideoType == VideoTypes[0]
    ensures r.customVideoType != "" <==> r.customLearningType == Video
  {
    e.(customLearningType := newType,
       customVideoType := if newType == Video then (if e.customVideoType != "" then e.customVideoType else VideoTypes[0]) else "")
  }

  /** The learning-type drop-down of segment (m, b, s): the entry naming it
      is retyped, every other entry is kept. */
  function SetLearningType(sel: seq<Entry>, m: nat, b: nat, s: nat, newType: string): (r: seq<Entry>)
    ensures |r| == |sel|
    ensures forall k :: 0 <= k < |sel| ==>
      r[k] == if At(sel[k], m, b, s) then Retype(sel[k], newType) else sel[k]
  {
    if sel == [] then []
    else
      var head := if At(sel[0], m, b, s) then Retype(sel[0], newType) else sel[0];
      [head] + SetLearningType(sel[1..], m, b, s, newType)
  }

  /** The video-type drop-down of segment (m, b, s): only the chosen video
      type of the entry naming it changes. */
  function SetVideoType(sel: seq<Entry>, m: nat, b: nat, s: nat, newVideo: string): (r: seq<Entry>)
    ensures |r| == |sel|
    ensures forall k :: 0 <= k < |sel| ==>
      r[k] == if At(sel[k], m, b, s) then sel[k].(customVideoType := newVideo) else sel[k]
  {
    if sel == [] then []
    else
      var head := if At(sel[0], m, b, s) then sel[0].(customVideoType := newVideo) else sel[0];
      [head] + SetVideoType(sel[1..], m, b, s, newVideo)
  }

  // ---------------------------------------------------------------------
  // Facts about the selection operations

  lemma {:induction false} VideoCountAppend(sel: seq<Entry>, e: Entry, m: nat)
    ensures VideoCount(sel + [e], m)
      == VideoCount(sel, m) + (if e.moduleIdx == m && e.customLearningType == Video then 1 else 0)
    decreases |sel|
  {
    if sel != [] {
      assert (sel + [e])[1..] == sel[1..] + [e];
      VideoCountAppend(sel[1..], e, m);
    }
  }

  lemma {:induction false} VideoCountDeselect(sel: seq<Entry>, m: nat, b: nat, s: nat, m': nat)
    ensures VideoCount(Deselect(sel, m, b, s), m') <= VideoCount(sel, m')
    decreases |sel|
  {
    if sel != [] {
      VideoCountDeselect(sel[1..], m, b, s, m');
      var rest := Deselect(sel[1..], m, b, s);
      if At(sel[0], m, b, s) {
        assert Deselect(sel, m, b, s) == rest;
      } else {
        var r := [sel[0]] + rest;
        assert Deselect(sel, m, b, s) == r;
        assert r[0] == sel[0] && r[1..] == rest;
      }
    }
  }

  /** Unchecking removes nothing when no entry names the segment. */
  lemma {:induction false} DeselectAbsent(sel: seq<Entry>, m: nat, b: nat, s: nat)
    requires !IsSelected(sel, m, b, s)
    ensures Deselect(sel, m, b, s) == sel
    decreases |sel|
  {
    if sel != [] {
      assert !At(sel[0], m, b, s);
      assert !IsSelected(sel[1..], m, b, s);
      DeselectAbsent(sel[1..], m, b, s);
      assert [sel[0]] + sel[1..] == sel;
    }
  }

  lemma {:induction false} DeselectAppend(sel: seq<Entry>, e: Entry, m: nat, b: nat, s: nat)
    ensures Deselect(sel + [e], m, b, s)
      == Deselect(sel, m, b, s) + (if At(e, m, b, s) then [] else [e])
    decreases |sel|
  {
    if sel == [] {
      assert Deselect([e], m, b, s) == (if At(e, m, b, s) then [] else [e]) + Deselect([], m, b, s);
    } else {
      assert (sel + [e])[1..] == sel[1..] + [e];
      DeselectAppend(sel[1..], e, m, b, s);
    }
  }

  /** In a selection without duplicates, unchecking removes exactly the one
      entry that names the segment. */
  lemma {:induction false} DeselectUnique(sel: seq<Entry>, k: nat)
    requires Unique(sel) && k < |sel|
    ensures Deselect(sel, sel[k].moduleIdx, sel[k].blockIdx, sel[k].segmentIdx) == sel[..k] + sel[k + 1..]
    decreases |sel|
  {
    var e := sel[k];
    if k == 0 {
      assert !IsSelected(sel[1..], e.moduleIdx, e.blockIdx, e.segmentIdx) by {
        forall j | 0 <= j < |sel[1..]|
          ensures !At(sel[1..][j], e.moduleIdx, e.blockIdx, e.segmentIdx)
        {
          assert sel[1..][j] == sel[j + 1];
        }
      }
      DeselectAbsent(sel[1..], e.moduleIdx, e.blockIdx, e.segmentIdx);
    } else {
      assert !At(sel[0], e.moduleIdx, e.blockIdx, e.segmentIdx);
      assert Unique(sel[1..]);
      assert sel[1..][k - 1] == e;
      DeselectUnique(sel[1..], k - 1);
      assert sel[1..][..k - 1] == sel[1..k];
      assert sel[1..][k..] == sel[k + 1..];
      assert [sel[0]] + sel[1..k] == sel[..k];
    }
  }

  /** Unchecking a selected segment removes exactly the entry that names it
      and keeps every other entry in its order. */
  lemma ToggleRemovesSelected(modules: seq<Module>, sel: seq<Entry>, m: nat, b: nat, s: nat, k: nat)
    requires ValidCoord(modules, m, b, s) && Unique(sel)
    requires k < |sel| && At(sel[k], m, b, s)
    ensures Toggle(modules, sel, m, b, s) == Toggled(sel[..k] + sel[k + 1..])
  {
    DeselectUnique(sel, k);
  }

  /** Checking an unselected Video segment of a module that already has the
      maximum of Video entries is refused and changes nothing. */
  lemma ToggleRefusesOverCap(modules: seq<Module>, sel: seq<Entry>, m: nat, b: nat, s: nat)
    requires ValidCoord(modules, m, b, s) && !IsSelected(sel, m, b, s)
    requires modules[m].blocks[b].segments[s].learningType == Video
    requires VideoCount(sel, m) >= MaxVideoSegmentsPerModule
    ensures Toggle(modules, sel, m, b, s) == VideoCapReached
  {
  }

  /** Checking any other unselected segment appends one entry seeded from
      the segment, keeps the existing entries and creates no duplicate. */
  lemma ToggleAddsUnselected(modules: seq<Module>, sel: seq<Entry>, m: nat, b: nat, s: nat)
    requires ValidCoord(modules, m, b, s) && !IsSelected(sel, m, b, s)
    requires modules[m].blocks[b].segments[s].learningType != Video
      || VideoCount(sel, m) < MaxVideoSegmentsPerModule
    ensures var segment := modules[m].blocks[b].segments[s];
      var e := Entry(m, b, s, segment, segment.learningType, segment.videoType.GetOr(""));
      Toggle(modules, sel, m, b, s) == Toggled(sel + [e])
    ensures Unique(sel) ==> Unique(Toggle(modules, sel, m, b, s).entries)
  {
    var r := Toggle(modules, sel, m, b, s).entries;
    if Unique(sel) {
      forall i, j | 0 <= i < j < |r|
        ensures !At(r[j], r[i].moduleIdx, r[i].blockIdx, r[i].segmentIdx)
      {
        if j == |sel| {
          assert !At(sel[i], m, b, s);
        }
      }
    }
  }

  /** Checking an unselected segment and unchecking it again restores the
      selection. */
  lemma ToggleTwiceFromAbsent(modules: seq<Module>, sel: seq<Entry>, m: nat, b: nat, s: nat)
    requires ValidCoord(modules, m, b, s) && !IsSelected(sel, m, b, s)
    requires Toggle(modules, sel, m, b, s).Toggled?
    ensures Toggle(modules, Toggle(modules, sel, m, b, s).entries, m, b, s) == Toggled(sel)
  {
    var e := NewEntry(m, b, s, modules[m].blocks[b].segments[s]);
    var t := sel + [e];
    assert t[|sel|] == e;
    assert IsSelected(t, m, b, s);
    DeselectAppend(sel, e, m, b, s);
    DeselectAbsent(sel, m, b, s);
  }

  /** Unchecking a selected segment and checking it again does not restore
      the selection: the entry comes back at the end, seeded afresh from the
      segment, or is refused when the module's Video limit is then reached. */
  lemma ToggleTwiceFromPresent(modules: seq<Module>, sel: seq<Entry>, m: nat, b: nat, s: nat, k: nat)
    requires ValidCoord(modules, m, b, s) && Unique(sel)
    requires k < |sel| && At(sel[k], m, b, s)
    ensures var segment := modules[m].blocks[b].segments[s];
      var rest := sel[..k] + sel[k + 1..];
      Toggle(modules, Toggle(modules, sel, m, b, s).entries, m, b, s)
        == if segment.learningType == Video && VideoCount(rest, m) >= MaxVideoSegmentsPerModule
           then VideoCapReached
           else Toggled(rest + [NewEntry(m, b, s, segment)])
  {
    DeselectUnique(sel, k);
    var rest := sel[..k] + sel[k + 1..];
    assert !IsSelected(rest, m, b, s) by {
      forall j | 0 <= j < |rest| ensures !At(rest[j], m, b, s) {
        if j < k { assert rest[j] == sel[j]; } else { assert rest[j] == sel[j + 1]; }
      }
    }
  }

  /** A concrete case of the above: a segment retyped by the user loses the
      chosen types and moves behind the other entry when unchecked and
      checked again. */
  lemma ToggleTwiceLosesOverride()
    ensures var seg0 := Segment("Intro", "Reading", None, ["Intro"]);
      var seg1 := Segment("Lab", "Quiz", None, ["Lab"]);
      var modules := [Module("M", [Block("B", [seg0, seg1])])];
      var sel := [Entry(0, 0, 0, seg0, "Video", "Screencast"), Entry(0, 0, 1, seg1, "Quiz", "")];
      var once := Toggle(modules, sel, 0, 0, 0);
      once.Toggled? && Toggle(modules, once.entries, 0, 0, 0) != Toggled(sel)
  {
    var seg0 := Segment("Intro", "Reading", None, ["Intro"]);
    var seg1 := Segment("Lab", "Quiz", None, ["Lab"]);
    var modules := [Module("M", [Block("B", [seg0, seg1])])];
    var sel := [Entry(0, 0, 0, seg0, "Video", "Screencast"), Entry(0, 0, 1, seg1, "Quiz", "")];
    assert Unique(sel);
    ToggleTwiceFromPresent(modules, sel, 0, 0, 0, 0);
    assert sel[..0] + sel[1..] == [sel[1]];
    var again := Toggle(modules, Toggle(modules, sel, 0, 0, 0).entries, 0, 0, 0);
    assert again == Toggled([sel[1], NewEntry(0, 0, 0, seg0)]);
    assert again.entries[0] != sel[0];
  }

  /** Checking and unchecking boxes never takes a module over the Video
      limit. */
  lemma ToggleKeepsVideoCap(modules: seq<Module>, sel: seq<Entry>, m: nat, b: nat, s: nat)
    requires ValidCoord(modules, m, b, s) && VideoCapHolds(sel)
    ensures Toggle(modules, sel, m, b, s) == VideoCapReached
      || VideoCapHolds(Toggle(modules, sel, m, b, s).entries)
  {
    var segment := modules[m].blocks[b].segments[s];
    if IsSelected(sel, m, b, s) {
      forall m': nat ensures VideoCount(Deselect(sel, m, b, s), m') <= MaxVideoSegmentsPerModule {
        VideoCountDeselect(sel, m, b, s, m');
      }
    } else if !(segment.learningType == Video && VideoCount(sel, m) >= MaxVideoSegmentsPerModule) {
      var e := NewEntry(m, b, s, segment);
      forall m': nat ensures VideoCount(sel + [e], m') <= MaxVideoSegmentsPerModule {
        VideoCountAppend(sel, e, m');
      }
    }
  }

  /** Toggling keeps every entry naming a segment of the outline, and keeps
      the selection free of duplicates. */
  lemma ToggleKeepsValid(modules: seq<Module>, sel: seq<Entry>, m: nat, b: nat, s: nat)
    requires ValidCoord(modules, m, b, s) && EntriesValid(modules, sel) && Unique(sel)
    ensures Toggle(modules, sel, m, b, s) == VideoCapReached
      || (EntriesValid(modules, Toggle(modules, sel, m, b, s).entries)
          && Unique(Toggle(modules, sel, m, b, s).entries))
  {
    if IsSelected(sel, m, b, s) {
      var k :| 0 <= k < |sel| && At(sel[k], m, b, s);
      DeselectUnique(sel, k);
      RemoveKeepsValid(modules, sel, k);
    } else if Toggle(modules, sel, m, b, s).Toggled? {
      ToggleAddsUnselected(modules, sel, m, b, s);
    }
  }

  lemma RemoveKeepsValid(modules: seq<Module>, sel: seq<Entry>, k: nat)
    requires EntriesValid(modules, sel) && Unique(sel) && k < |sel|
    ensures EntriesValid(modules, sel[..k] + sel[k + 1..]) && Unique(sel[..k] + sel[k + 1..])
  {
    var r := sel[..k] + sel[k + 1..];
    assert forall i :: 0 <= i < |r| ==> r[i] == sel[if i < k then i else i + 1];
  }

  /** The learning-type drop-down keeps the set of selected segments. */
  lemma SetLearningTypeKeepsSelection(modules: seq<Module>, sel: seq<Entry>, m: nat, b: nat, s: nat, newType: string)
    ensures var r := SetLearningType(sel, m, b, s, newType);
      forall k :: 0 <= k < |sel| ==>
        At(r[k], sel[k].moduleIdx, sel[k].blockIdx, sel[k].segmentIdx) && r[k].segment == sel[k].segment
    ensures EntriesValid(modules, sel) ==> EntriesValid(modules, SetLearningType(sel, m, b, s, newType))
    ensures Unique(sel) ==> Unique(SetLearningType(sel, m, b, s, newType))
  {
  }

  lemma {:induction false} SetLearningTypeAbsent(sel: seq<Entry>, m: nat, b: nat, s: nat, newType: string)
    requires !IsSelected(sel, m, b, s)
    ensures SetLearningType(sel, m, b, s, newType) == sel
    decreases |sel|
  {
    if sel != [] {
      assert !IsSelected(sel[1..], m, b, s);
      SetLearningTypeAbsent(sel[1..], m, b, s, newType);
      assert [sel[0]] + sel[1..] == sel;
    }
  }

  /** Retyping the entry `sel[k]` as Video raises its module's Video count by
      one when the entry was not Video already. */
  lemma {:induction false} RetypeToVideoCount(sel: seq<Entry>, k: nat)
    requires Unique(sel) && k < |sel|
    ensures var e := sel[k];
      VideoCount(SetLearningType(sel, e.moduleIdx, e.blockIdx, e.segmentIdx, Video), e.moduleIdx)
        == VideoCount(sel, e.moduleIdx) + (if e.customLearningType == Video then 0 else 1)
    decreases |sel|
  {
    var e := sel[k];
    var r := SetLearningType(sel, e.moduleIdx, e.blockIdx, e.segmentIdx, Video);
    assert r[1..] == SetLearningType(sel[1..], e.moduleIdx, e.blockIdx, e.segmentIdx, Video);
    if k == 0 {
      assert !IsSelected(sel[1..], e.moduleIdx, e.blockIdx, e.segmentIdx) by {
        forall j | 0 <= j < |sel[1..]|
          ensures !At(sel[1..][j], e.moduleIdx, e.blockIdx, e.segmentIdx)
        {
          assert sel[1..][j] == sel[j + 1];
        }
      }
      SetLearningTypeAbsent(sel[1..], e.moduleIdx, e.blockIdx, e.segmentIdx, Video);
    } else {
      assert Unique(sel[1..]);
      assert sel[1..][k - 1] == e;
      RetypeToVideoCount(sel[1..], k - 1);
    }
  }

  /** The learning-type drop-down does not check the Video limit: retyping a
      non-Video entry of a module that is at the limit takes the module over
      it, even when every module was within the limit before. */
  lemma SetLearningTypeBypassesCap(sel: seq<Entry>, k: nat)
    requires Unique(sel) && VideoCapHolds(sel) && k < |sel|
    requires sel[k].customLearningType != Video
    requires VideoCount(sel, sel[k].moduleIdx) == MaxVideoSegmentsPerModule
    ensures var e := sel[k];
      !VideoCapHolds(SetLearningType(sel, e.moduleIdx, e.blockIdx, e.segmentIdx, Video))
  {
    RetypeToVideoCount(sel, k);
  }

  lemma {:induction false} VideoCountSetVideoType(sel: seq<Entry>, m: nat, b: nat, s: nat, newVideo: string, m': nat)
    ensures VideoCount(SetVideoType(sel, m, b, s, newVideo), m') == VideoCount(sel, m')
    decreases |sel|
  {
    if sel != [] {
      var r := SetVideoType(sel, m, b, s, newVideo);
      assert r[1..] == SetVideoType(sel[1..], m, b, s, newVideo);
      VideoCountSetVideoType(sel[1..], m, b, s, newVideo, m');
    }
  }

  /** The video-type drop-down changes nothing but the chosen video type of
      the entry naming the segment, so it keeps the selection valid and keeps
      every module's Video count. */
  lemma SetVideoTypeKeepsSelection(modules: seq<Module>, sel: seq<Entry>, m: nat, b: nat, s: nat, newVideo: string)
    ensures var r := SetVideoType(sel, m, b, s, newVideo);
      forall k :: 0 <= k < |sel| ==> r[k].(customVideoType := sel[k].customVideoType) == sel[k]
    ensures EntriesValid(modules, sel) ==> EntriesValid(modules, SetVideoType(sel, m, b, s, newVideo))
    ensures Unique(sel) ==> Unique(SetVideoType(sel, m, b, s, newVideo))
    ensures VideoCapHolds(sel) ==> VideoCapHolds(SetVideoType(sel, m, b, s, newVideo))
  {
    forall m': nat ensures VideoCount(SetVideoType(sel, m, b, s, newVideo), m') == VideoCount(sel, m') {
      VideoCountSetVideoType(sel, m, b, s, newVideo, m');
    }
  }

  // ---------------------------------------------------------------------
  // The final submission: grouping the entries into a pruned outline

  /** The outgoing copy of a selected segment: the original segment with the
      chosen learning type, and with the chosen video type when that type is
      Video and "" otherwise. */
  function Project(e: Entry): (r: Segment)
    ensures r.segmentTitle == e.segment.segmentTitle && r.includes == e.segment.includes
    ensures r.learningType == e.customLearningType
    ensures r.learningType != Video ==> r.videoType == Some("")
    ensures r.learningType == Video ==> r.videoType == Some(e.customVideoType)
  {
    var videoType := if e.customLearningType == Video then e.customVideoType else "";
    e.segment.(learningType := e.customLearningType, videoType := Some(videoType))
  }

  predicate InBlock(e: Entry, m: nat, b: nat)
  {
    e.moduleIdx == m && e.blockIdx == b
  }

  /** Some entry belongs to module `m`. */
  ghost predicate HasModule(sel: seq<Entry>, m: nat)
  {
    exists k :: 0 <= k < |sel| && sel[k].moduleIdx == m
  }

  /** Some entry belongs to block `b` of module `m`. */
  ghost predicate HasBlock(sel: seq<Entry>, m: nat, b: nat)
  {
    exists k :: 0 <= k < |sel| && InBlock(sel[k], m, b)
  }

  /** The outgoing segments of block (m, b): one per entry of that block,
      in selection order. */
  function Bucket(sel: seq<Entry>, m: nat, b: nat): (r: seq<Segment>)
    ensures r == [] <==> !HasBlock(sel, m, b)
    ensures forall j :: 0 <= j < |r| ==> r[j].learningType != Video ==> r[j].videoType == Some("")
  {
    if sel == [] then []
    else
      var last := sel[|sel| - 1];
      assert forall k :: 0 <= k < |sel| - 1 ==> sel[..|sel| - 1][k] == sel[k];
      Bucket(sel[..|sel| - 1], m, b) + (if InBlock(last, m, b) then [Project(last)] else [])
  }

  /** The indices below `n` of the modules that have entries, ascending. */
  ghost function ModuleIndices(sel: seq<Entry>, n: nat): (r: seq<nat>)
    ensures forall i :: 0 <= i < |r| ==> r[i] < n
    ensures forall i, j :: 0 <= i < j < |r| ==> r[i] < r[j]
    ensures forall m: nat :: m in r <==> m < n && HasModule(sel, m)
  {
    if n == 0 then [] else ModuleIndices(sel, n - 1) + (if HasModule(sel, n - 1) then [n - 1] else [])
  }

  /** The indices below `n` of the blocks of module `m` that have entries,
      ascending. */
  ghost function BlockIndices(sel: seq<Entry>, m: nat, n: nat): (r: seq<nat>)
    ensures forall i :: 0 <= i < |r| ==> r[i] < n
    ensures forall i, j :: 0 <= i < j < |r| ==> r[i] < r[j]
    ensures forall b: nat :: b in r <==> b < n && HasBlock(sel, m, b)
  {
    if n == 0 then [] else BlockIndices(sel, m, n - 1) + (if HasBlock(sel, m, n - 1) then [n - 1] else [])
  }

  /** The pruned blocks of module `m` among its first `n` blocks: those that
      have entries, in ascending block order. */
  ghost function ReducedBlocks(modules: seq<Module>, sel: seq<Entry>, m: nat, n: nat): seq<Block>
    requires m < |modules| && n <= |modules[m].blocks|
  {
    if n == 0 then []
    else
      var here := if HasBlock(sel, m, n - 1)
        then [Block(modules[m].blocks[n - 1].blockTitle, Bucket(sel, m, n - 1))] else [];
      ReducedBlocks(modules, sel, m, n - 1) + here
  }

  /** The pruned modules among the first `n`: those that have entries, in
      ascending module order. */
  ghost function ReducedModules(modules: seq<Module>, sel: seq<Entry>, n: nat): seq<Module>
    requires n <= |modules|
  {
    if n == 0 then []
    else
      var m := n - 1;
      var here := if HasModule(sel, m)
        then [Module(modules[m].moduleTitle, ReducedBlocks(modules, sel, m, |modules[m].blocks|))] else [];
      ReducedModules(modules, sel, m) + here
  }

  /** The outline the final submission sends for the selection `sel`. */
  ghost function Reduced(modules: seq<Module>, sel: seq<Entry>): seq<Module>
  {
    ReducedModules(modules, sel, |modules|)
  }

  lemma {:induction false} ReducedBlocksShape(modules: seq<Module>, sel: seq<Entry>, m: nat, n: nat)
    requires m < |modules| && n <= |modules[m].blocks|
    ensures var bs := BlockIndices(sel, m, n);
      var r := ReducedBlocks(modules, sel, m, n);
      |r| == |bs| && forall j :: 0 <= j < |bs| ==>
        bs[j] < |modules[m].blocks| &&
        r[j] == Block(modules[m].blocks[bs[j]].blockTitle, Bucket(sel, m, bs[j]))
  {
    if n > 0 {
      ReducedBlocksShape(modules, sel, m, n - 1);
      var bs := BlockIndices(sel, m, n - 1);
      var r := ReducedBlocks(modules, sel, m, n - 1);
      if HasBlock(sel, m, n - 1) {
        var bs', r' := bs + [n - 1], r + [Block(modules[m].blocks[n - 1].blockTitle, Bucket(sel, m, n - 1))];
        assert BlockIndices(sel, m, n) == bs' && ReducedBlocks(modules, sel, m, n) == r';
        assert forall j :: 0 <= j < |bs| ==> bs'[j] == bs[j] && r'[j] == r[j];
      }
    }
  }

  lemma {:induction false} ReducedModulesShape(modules: seq<Module>, sel: seq<Entry>, n: nat)
    requires n <= |modules|
    ensures var ms := ModuleIndices(sel, n);
      var r := ReducedModules(modules, sel, n);
      |r| == |ms| && forall k :: 0 <= k < |ms| ==>
        ms[k] < |modules| &&
        r[k] == Module(modules[ms[k]].moduleTitle, ReducedBlocks(modules, sel, ms[k], |modules[ms[k]].blocks|))
  {
    if n > 0 {
      ReducedModulesShape(modules, sel, n - 1);
    }
  }

  /** The submitted outline has one module for each module index that has
      entries, in ascending index order; each module has one block for each
      of its block indices that has entries, in ascending index order; and
      each block holds the outgoing copies of its entries in selection
      order. */
  lemma ReducedShape(modules: seq<Module>, sel: seq<Entry>)
    ensures var ms := ModuleIndices(sel, |modules|);
      var r := Reduced(modules, sel);
      |r| == |ms| &&
      (forall k :: 0 <= k < |ms| ==>
        ms[k] < |modules| &&
        var bs := BlockIndices(sel, ms[k], |modules[ms[k]].blocks|);
        r[k].moduleTitle == modules[ms[k]].moduleTitle &&
        |r[k].blocks| == |bs| &&
        forall j :: 0 <= j < |bs| ==>
          bs[j] < |modules[ms[k]].blocks| &&
          r[k].blocks[j] == Block(modules[ms[k]].blocks[bs[j]].blockTitle, Bucket(sel, ms[k], bs[j])))
  {
    ReducedModulesShape(modules, sel, |modules|);
    var ms := ModuleIndices(sel, |modules|);
    forall k | 0 <= k < |ms|
      ensures ms[k] < |modules| &&
        var bs := BlockIndices(sel, ms[k], |modules[ms[k]].blocks|);
        var r := Reduced(modules, sel);
        |r[k].blocks| == |bs| &&
        forall j :: 0 <= j < |bs| ==>
          bs[j] < |modules[ms[k]].blocks| &&
          r[k].blocks[j] == Block(modules[ms[k]].blocks[bs[j]].blockTitle, Bucket(sel, ms[k], bs[j]))
    {
      ReducedBlocksShape(modules, sel, ms[k], |modules[ms[k]].blocks|);
    }
  }

  /** An empty selection reduces to an empty outline. */
  lemma ReducedEmpty(modules: seq<Module>)
    ensures Reduced(modules, []) == []
  {
    ReducedModulesEmpty(modules, |modules|);
  }

  lemma {:induction false} ReducedModulesEmpty(modules: seq<Module>, n: nat)
    requires n <= |modules|
    ensures ReducedModules(modules, [], n) == []
  {
    if n > 0 {
      ReducedModulesEmpty(modules, n - 1);
    }
  }

  /** In the submitted outline every segment whose learning type is not
      Video has the video type "". */
  lemma ReducedVideoTypes(modules: seq<Module>, sel: seq<Entry>)
    ensures var r := Reduced(modules, sel);
      forall k, j, i :: 0 <= k < |r| && 0 <= j < |r[k].blocks| && 0 <= i < |r[k].blocks[j].segments| ==>
        r[k].blocks[j].segments[i].learningType != Video ==> r[k].blocks[j].segments[i].videoType == Some("")
  {
    ReducedShape(modules, sel);
  }

  /** What the grouping object holds for one module while the entries are
      processed: its title and its blocks keyed by block index. */
  datatype PendingModule = PendingModule(moduleTitle: string, blocks: map<nat, Block>)

  /** `Object.values` of an object whose keys are the integer indices in
      `m`, all below `n`: integer keys are listed in ascending numeric order
      (section 10.1.11.1 of ECMA-262, OrdinaryOwnPropertyKeys). */
  function ValuesBelow<V>(m: map<nat, V>, n: nat): (r: seq<V>)
    ensures |r| <= n
  {
    if n == 0 then [] else ValuesBelow(m, n - 1) + (if n - 1 in m then [m[n - 1]] else [])
  }

  /** The values do not depend on the bound once it is above every key. */
  lemma {:induction false} ValuesBelowPastKeys<V>(m: map<nat, V>, n: nat, n': nat)
    requires n <= n' && forall k :: k in m ==> k < n
    ensures ValuesBelow(m, n') == ValuesBelow(m, n)
    decreases n'
  {
    if n' > n {
      ValuesBelowPastKeys(m, n, n' - 1);
    }
  }

  /** A bound above every block index of the outline. */
  function MaxBlockCount(modules: seq<Module>): (r: nat)
    ensures forall k :: 0 <= k < |modules| ==> |modules[k].blocks| <= r
  {
    if modules == [] then 0
    else
      var rest := MaxBlockCount(modules[1..]);
      assert forall k :: 1 <= k < |modules| ==> modules[k] == modules[1..][k - 1];
      if |modules[0].blocks| > rest then |modules[0].blocks| else rest
  }

  /** The `map` that turns each pending module into an outgoing module. */
  function Finish(pending: seq<PendingModule>, bound: nat): (r: seq<Module>)
    ensures |r| == |pending|
  {
    if pending == [] then []
    else
      var last := pending[|pending| - 1];
      Finish(pending[..|pending| - 1], bound) + [Module(last.moduleTitle, ValuesBelow(last.blocks, bound))]
  }

  /** The grouping object `groups` holds exactly the entries of `sel`: a
      module for each module index with entries, a block for each block
      with entries, and each block's outgoing segments in selection order. */
  ghost predicate Grouping(modules: seq<Module>, sel: seq<Entry>, groups: map<nat, PendingModule>)
  {
    (forall m :: m in groups <==> HasModule(sel, m)) &&
    (forall m :: m in groups ==>
      m < |modules| && groups[m].moduleTitle == modules[m].moduleTitle &&
      (forall b :: b in groups[m].blocks <==> HasBlock(sel, m, b)) &&
      (forall b :: b in groups[m].blocks ==>
        b < |modules[m].blocks| &&
        groups[m].blocks[b] == Block(modules[m].blocks[b].blockTitle, Bucket(sel, m, b))))
  }

  lemma HasSnoc(sel: seq<Entry>, e: Entry)
    ensures forall m :: HasModule(sel + [e], m) <==> HasModule(sel, m) || e.moduleIdx == m
    ensures forall m, b :: HasBlock(sel + [e], m, b) <==> HasBlock(sel, m, b) || InBlock(e, m, b)
  {
    var t := sel + [e];
    assert t[|sel|] == e;
    assert forall k :: 0 <= k < |sel| ==> t[k] == sel[k];
  }

  /** `after` is the grouping object `before` with the entry `e` added: its
      module is present with its title, its block is present and ends with
      the outgoing copy of `e`, and nothing else changed. */
  ghost predicate Added(modules: seq<Module>, before: map<nat, PendingModule>, after: map<nat, PendingModule>, e: Entry)
    requires ValidCoord(modules, e.moduleIdx, e.blockIdx, e.segmentIdx)
  {
    var m, b := e.moduleIdx, e.blockIdx;
    var title := if m in before then before[m].moduleTitle else modules[m].moduleTitle;
    var block := if m in before && b in before[m].blocks then before[m].blocks[b]
      else Block(modules[m].blocks[b].blockTitle, []);
    && (forall m' :: m' in after <==> m' in before || m' == m)
    && (forall m' :: m' in before && m' != m ==> after[m'] == before[m'])
    && m in after && after[m].moduleTitle == title
    && (forall b' :: b' in after[m].blocks <==> (m in before && b' in before[m].blocks) || b' == b)
    && (forall b' :: b' in after[m].blocks && b' != b ==> after[m].blocks[b'] == before[m].blocks[b'])
    && after[m].blocks[b] == block.(segments := block.segments + [Project(e)])
  }

  /** Adding one entry to the grouping object keeps it in step with the
      selection. */
  lemma GroupingStep(modules: seq<Module>, sel: seq<Entry>, e: Entry,
                     before: map<nat, PendingModule>, after: map<nat, PendingModule>)
    requires Grouping(modules, sel, before)
    requires ValidCoord(modules, e.moduleIdx, e.blockIdx, e.segmentIdx)
    requires Added(modules, before, after, e)
    ensures Grouping(modules, sel + [e], after)
  {
    HasSnoc(sel, e);
    var t := sel + [e];
    var m, b := e.moduleIdx, e.blockIdx;
    assert t[..|t| - 1] == sel;
    assert forall m', b' :: Bucket(t, m', b') == Bucket(sel, m', b') + (if InBlock(e, m', b') then [Project(e)] else []);
    forall m' | m' in after
      ensures m' < |modules| && after[m'].moduleTitle == modules[m'].moduleTitle
      ensures forall b' :: b' in after[m'].blocks <==> HasBlock(t, m', b')
    {
    }
    forall m', b' | m' in after && b' in after[m'].blocks
      ensures b' < |modules[m'].blocks|
      ensures after[m'].blocks[b'] == Block(modules[m'].blocks[b'].blockTitle, Bucket(t, m', b'))
    {
      if m' == m && b' == b {
      } else if m' == m {
        assert m in before && b' in before[m].blocks;
      }
    }
  }

  /** At the end of the loop the grouping object lists, module by module,
      the reduced outline. */
  lemma {:induction false} FinishBlocks(modules: seq<Module>, sel: seq<Entry>, groups: map<nat, PendingModule>, m: nat, n: nat)
    requires Grouping(modules, sel, groups) && m in groups && n <= |modules[m].blocks|
    ensures ValuesBelow(groups[m].blocks, n) == ReducedBlocks(modules, sel, m, n)
  {
    if n > 0 {
      FinishBlocks(modules, sel, groups, m, n - 1);
    }
  }

  /** What the final `map` needs of the grouping object: which modules it
      holds, their titles, and the blocks each lists within the bound. */
  ghost predicate ModulesGrouped(modules: seq<Module>, sel: seq<Entry>, groups: map<nat, PendingModule>)
  {
    forall m: nat ::
      (m in groups <==> HasModule(sel, m)) &&
      (m in groups ==>
        m < |modules| && groups[m].moduleTitle == modules[m].moduleTitle &&
        ValuesBelow(groups[m].blocks, MaxBlockCount(modules)) == ReducedBlocks(modules, sel, m, |modules[m].blocks|))
  }

  lemma GroupingFinished(modules: seq<Module>, sel: seq<Entry>, groups: map<nat, PendingModule>)
    requires Grouping(modules, sel, groups)
    ensures ModulesGrouped(modules, sel, groups)
  {
    forall m | m in groups
      ensures m < |modules| &&
        ValuesBelow(groups[m].blocks, MaxBlockCount(modules)) == ReducedBlocks(modules, sel, m, |modules[m].blocks|)
    {
      ValuesBelowPastKeys(groups[m].blocks, |modules[m].blocks|, MaxBlockCount(modules));
      FinishBlocks(modules, sel, groups, m, |modules[m].blocks|);
    }
  }

  lemma {:induction false} FinishModules(modules: seq<Module>, sel: seq<Entry>, groups: map<nat, PendingModule>, n: nat)
    requires ModulesGrouped(modules, sel, groups) && n <= |modules|
    ensures Finish(ValuesBelow(groups, n), MaxBlockCount(modules)) == ReducedModules(modules, sel, n)
  {
    if n > 0 {
      FinishModules(modules, sel, groups, n - 1);
      var prev := ValuesBelow(groups, n - 1);
      var m := n - 1;
      if m in groups {
        var all := prev + [groups[m]];
        assert all[..|all| - 1] == prev;
      } else {
        assert ValuesBelow(groups, n) == prev;
      }
    }
  }

  /** The body of the `forEach` of `submitFinal`: creates the entry's module
      and block in the grouping object when they are missing, then appends
      the outgoing copy of the entry to the block. */
  method AddEntry(modules: seq<Module>, groups: map<nat, PendingModule>, e: Entry)
    returns (after: map<nat, PendingModule>)
    requires ValidCoord(modules, e.moduleIdx, e.blockIdx, e.segmentIdx)
    ensures Added(modules, groups, after, e)
  {
    var m, b := e.moduleIdx, e.blockIdx;
    after := groups;
    if m !in after {
      after := after[m := PendingModule(modules[m].moduleTitle, map[])];
    }
    if b !in after[m].blocks {
      after := after[m := after[m].(blocks := after[m].blocks[b := Block(modules[m].blocks[b].blockTitle, [])])];
    }
    var block := after[m].blocks[b];
    after := after[m := after[m].(blocks := after[m].blocks[b := block.(segments := block.segments + [Project(e)])])];
  }

  /** The grouping of `submitFinal`: every entry is added to its module and
      block in the grouping object, then the modules and their blocks are
      listed in key order. The result is the reduced outline. */
  method ReduceSelection(modules: seq<Module>, sel: seq<Entry>) returns (selectedModules: seq<Module>)
    requires EntriesValid(modules, sel)
    ensures selectedModules == Reduced(modules, sel)
  {
    var groups: map<nat, PendingModule> := map[];
    var i := 0;
    while i < |sel|
      invariant 0 <= i <= |sel|
      invariant Grouping(modules, sel[..i], groups)
    {
      var e := sel[i];
      ghost var before := groups;
      groups := AddEntry(modules, groups, e);
      GroupingStep(modules, sel[..i], e, before, groups);
      assert sel[..i + 1] == sel[..i] + [e];
      i := i + 1;
    }
    assert sel[..i] == sel;
    var pending := ValuesBelow(groups, |modules|);
    selectedModules := Finish(pending, MaxBlockCount(modules));
    GroupingFinished(modules, sel, groups);
    FinishModules(modules, sel, groups, |modules|);
  }

  // ---------------------------------------------------------------------
  // Every selected segment is submitted exactly once

  /** The number of entries of module `m` whose block index is below `n`. */
  function CountBlocksBelow(sel: seq<Entry>, m: nat, n: nat): nat
  {
    if sel == [] then 0
    else
      var e := sel[|sel| - 1];
      CountBlocksBelow(sel[..|sel| - 1], m, n) + (if e.moduleIdx == m && e.blockIdx < n then 1 else 0)
  }

  /** The number of entries whose module index is below `n`. */
  function CountModulesBelow(sel: seq<Entry>, n: nat): nat
  {
    if sel == [] then 0
    else CountModulesBelow(sel[..|sel| - 1], n) + (if sel[|sel| - 1].moduleIdx < n then 1 else 0)
  }

  lemma {:induction false} CountBlocksBelowStep(sel: seq<Entry>, m: nat, n: nat)
    ensures CountBlocksBelow(sel, m, n + 1) == CountBlocksBelow(sel, m, n) + |Bucket(sel, m, n)|
    decreases |sel|
  {
    if sel != [] {
      CountBlocksBelowStep(sel[..|sel| - 1], m, n);
    }
  }

  lemma {:induction false} BlockSegmentCountReduced(modules: seq<Module>, sel: seq<Entry>, m: nat, n: nat)
    requires m < |modules| && n <= |modules[m].blocks|
    ensures BlockSegmentCount(ReducedBlocks(modules, sel, m, n)) == CountBlocksBelow(sel, m, n)
  {
    if n == 0 {
      CountBlocksBelowNone(sel, m);
    } else {
      BlockSegmentCountReduced(modules, sel, m, n - 1);
      CountBlocksBelowStep(sel, m, n - 1);
      var prev := ReducedBlocks(modules, sel, m, n - 1);
      var all := ReducedBlocks(modules, sel, m, n);
      if HasBlock(sel, m, n - 1) {
        assert all[..|all| - 1] == prev;
        assert all[|all| - 1].segments == Bucket(sel, m, n - 1);
      } else {
        assert all == prev;
      }
    }
  }

  lemma {:induction false} CountBlocksBelowNone(sel: seq<Entry>, m: nat)
    ensures CountBlocksBelow(sel, m, 0) == 0
    decreases |sel|
  {
    if sel != [] {
      CountBlocksBelowNone(sel[..|sel| - 1], m);
    }
  }

  /** When the entries of module `n` all have block indices below `nb`, the
      entries below module `n + 1` are those below `n` and those of `n`. */
  lemma {:induction false} CountModulesBelowStep(sel: seq<Entry>, n: nat, nb: nat)
    requires forall k :: 0 <= k < |sel| && sel[k].moduleIdx == n ==> sel[k].blockIdx < nb
    ensures CountModulesBelow(sel, n + 1) == CountModulesBelow(sel, n) + CountBlocksBelow(sel, n, nb)
    decreases |sel|
  {
    if sel != [] {
      CountModulesBelowStep(sel[..|sel| - 1], n, nb);
    }
  }

  lemma {:induction false} SegmentCountReduced(modules: seq<Module>, sel: seq<Entry>, n: nat)
    requires EntriesValid(modules, sel) && n <= |modules|
    ensures SegmentCount(ReducedModules(modules, sel, n)) == CountModulesBelow(sel, n)
  {
    if n == 0 {
      CountModulesBelowNone(sel);
    } else {
      var m := n - 1;
      SegmentCountReduced(modules, sel, m);
      CountModulesBelowStep(sel, m, |modules[m].blocks|);
      BlockSegmentCountReduced(modules, sel, m, |modules[m].blocks|);
      var prev := ReducedModules(modules, sel, m);
      if HasModule(sel, m) {
        var all := ReducedModules(modules, sel, n);
        assert all[..|all| - 1] == prev;
      } else {
        assert ReducedModules(modules, sel, n) == prev;
        CountBlocksBelowAbsent(sel, m, |modules[m].blocks|);
      }
    }
  }

  lemma {:induction false} CountModulesBelowNone(sel: seq<Entry>)
    ensures CountModulesBelow(sel, 0) == 0
    decreases |sel|
  {
    if sel != [] {
      CountModulesBelowNone(sel[..|sel| - 1]);
    }
  }

  lemma {:induction false} CountBlocksBelowAbsent(sel: seq<Entry>, m: nat, n: nat)
    requires !HasModule(sel, m)
    ensures CountBlocksBelow(sel, m, n) == 0
    decreases |sel|
  {
    if sel != [] {
      assert sel[|sel| - 1].moduleIdx != m;
      var init := sel[..|sel| - 1];
      assert !HasModule(init, m) by {
        forall k | 0 <= k < |init| ensures init[k].moduleIdx != m {
          assert init[k] == sel[k];
        }
      }
      CountBlocksBelowAbsent(init, m, n);
    }
  }

  lemma {:induction false} CountModulesBelowAll(modules: seq<Module>, sel: seq<Entry>)
    requires EntriesValid(modules, sel)
    ensures CountModulesBelow(sel, |modules|) == |sel|
    decreases |sel|
  {
    if sel != [] {
      var init := sel[..|sel| - 1];
      assert forall k :: 0 <= k < |init| ==> init[k] == sel[k];
      CountModulesBelowAll(modules, init);
    }
  }

  /** The submitted outline holds exactly as many segments as there are
      selected entries: each entry is sent once. */
  lemma ReducedSegmentCount(modules: seq<Module>, sel: seq<Entry>)
    requires EntriesValid(modules, sel)
    ensures SegmentCount(Reduced(modules, sel)) == |sel|
  {
    SegmentCountReduced(modules, sel, |modules|);
    CountModulesBelowAll(modules, sel);
  }

  // ---------------------------------------------------------------------
  // The page state

  /** What the outline-extraction request brought back: the parsed response
      body, or a failure of the request or of reading its body. */
  datatype UploadReply =
    | Reply(error: Option<string>, modules: Option<seq<Module>>)
    | TransportFailure

  /** The response body carries an error message (a non-empty `error`
      field: an empty one counts as no error). */
  predicate ReportsError(reply: UploadReply)
  {
    reply.Reply? && reply.error.Some? && reply.error.value != ""
  }

  /** What the final submission does: refuse because nothing is selected,
      or send the pruned outline. */
  datatype Submission = NothingSelected | Request(payload: seq<Module>)

  /** The state the page keeps: the outline shown and the selection. */
  class Page {
    var modules: seq<Module>
    var selected: seq<Entry>

    /** Every entry names a segment of the outline shown, at most once. */
    ghost predicate Valid()
      reads this
    {
      EntriesValid(modules, selected) && Unique(selected)
    }

    constructor ()
      ensures Valid() && modules == [] && selected == []
    {
      modules := [];
      selected := [];
    }

    /** The check box of segment (m, b, s); `capReached` says that the
        Video-limit notice was shown instead. */
    method ToggleSegmentSelection(m: nat, b: nat, s: nat) returns (capReached: bool)
      requires Valid() && ValidCoord(modules, m, b, s)
      modifies this
      ensures Valid() && modules == old(modules)
      ensures capReached <==> Toggle(old(modules), old(selected), m, b, s) == VideoCapReached
      ensures capReached ==> selected == old(selected)
      ensures !capReached ==> Toggle(old(modules), old(selected), m, b, s) == Toggled(selected)
    {
      ToggleKeepsValid(modules, selected, m, b, s);
      match Toggle(modules, selected, m, b, s)
      case VideoCapReached =>
        capReached := true;
      case Toggled(entries) =>
        selected := entries;
        capReached := false;
    }

    /** The learning-type drop-down of segment (m, b, s). */
    method ChangeLearningType(m: nat, b: nat, s: nat, newType: string)
      requires Valid()
      modifies this
      ensures Valid() && modules == old(modules)
      ensures selected == SetLearningType(old(selected), m, b, s, newType)
    {
      SetLearningTypeKeepsSelection(modules, selected, m, b, s, newType);
      selected := SetLearningType(selected, m, b, s, newType);
    }

    /** The video-type drop-down of segment (m, b, s). */
    method ChangeVideoType(m: nat, b: nat, s: nat, newVideo: string)
      requires Valid()
      modifies this
      ensures Valid() && modules == old(modules)
      ensures selected == SetVideoType(old(selected), m, b, s, newVideo)
    {
      SetVideoTypeKeepsSelection(modules, selected, m, b, s, newVideo);
      selected := SetVideoType(selected, m, b, s, newVideo);
    }

    /** Handling the reply to the upload: an error or a failed request leaves
        the page as it was; otherwise the outline is replaced (by an empty
        one when the reply has none) and the selection is cleared, which is
        what keeps every entry pointing into the outline shown. */
    method HandleUploadResponse(reply: UploadReply)
      requires Valid()
      modifies this
      ensures Valid()
      ensures reply.TransportFailure? || ReportsError(reply) ==>
        modules == old(modules) && selected == old(selected)
      ensures reply.Reply? && !ReportsError(reply) ==>
        modules == reply.modules.GetOr([]) && selected == []
    {
      if reply.Reply? && !ReportsError(reply) {
        modules := reply.modules.GetOr([]);
        selected := [];
      }
    }

    /** The final submission: refused when nothing is selected, otherwise
        the pruned outline of the selection, holding one segment per
        selected entry. */
    method SubmitFinal() returns (r: Submission)
      requires Valid()
      ensures selected == [] <==> r == NothingSelected
      ensures r.Request? ==> r.payload == Reduced(modules, selected)
      ensures r.Request? ==> SegmentCount(r.payload) == |selected|
    {
      if |selected| == 0 {
        return NothingSelected;
      }
      var payload := ReduceSelection(modules, selected);
      ReducedSegmentCount(modules, selected);
      r := Request(payload);
    }
  }
}
