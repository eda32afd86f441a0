/** The outline service: how the per-block results of outline generation
    are grouped into modules for the page, and how the pruned outline the
    page sends back is flattened into the rows of the final spreadsheet. */
module OutlineService {
  import opened Wrappers
  import opened Outline
  import UploadPage

  /** The result of structuring one block: its module title, its block title
      and its structured segments. */
  datatype BlockOutput = BlockOutput(moduleTitle: string, blockTitle: string, structuredSegments: seq<Segment>)

  // ---------------------------------------------------------------------
  // Grouping the block results into modules

  /** The distinct module titles of `outputs`, in first-seen order. */
  function ModuleTitles(outputs: seq<BlockOutput>): (r: seq<string>)
    ensures |r| <= |outputs|
  {
    if outputs == [] then []
    else
      var prev := ModuleTitles(outputs[..|outputs| - 1]);
      var t := outputs[|outputs| - 1].moduleTitle;
      if t in prev then prev else prev + [t]
  }

  /** Some block result belongs to module `t`. */
  ghost predicate HasTitle(outputs: seq<BlockOutput>, t: string)
  {
    exists k :: 0 <= k < |outputs| && outputs[k].moduleTitle == t
  }

  /** The module titles are distinct and are exactly those of the results. */
  lemma {:induction false} ModuleTitlesFacts(outputs: seq<BlockOutput>)
    ensures forall i, j :: 0 <= i < j < |ModuleTitles(outputs)| ==> ModuleTitles(outputs)[i] != ModuleTitles(outputs)[j]
    ensures forall t :: t in ModuleTitles(outputs) <==> HasTitle(outputs, t)
  {
    if outputs != [] {
      var init := outputs[..|outputs| - 1];
      ModuleTitlesFacts(init);
      assert forall k :: 0 <= k < |init| ==> init[k] == outputs[k];
      var last := outputs[|outputs| - 1].moduleTitle;
      var prev := ModuleTitles(init);
      if last !in prev {
        var r := prev + [last];
        forall i, j | 0 <= i < j < |r|
          ensures r[i] != r[j]
        {
          if j == |prev| {
            assert r[i] == prev[i] && prev[i] in prev;
          }
        }
      }
      forall t
        ensures t in ModuleTitles(outputs) <==> HasTitle(outputs, t)
      {
        if HasTitle(outputs, t) && t != last {
          var k :| 0 <= k < |outputs| && outputs[k].moduleTitle == t;
          assert k < |init| && init[k].moduleTitle == t;
        }
        if HasTitle(init, t) {
          var k :| 0 <= k < |init| && init[k].moduleTitle == t;
          assert outputs[k].moduleTitle == t;
        }
        if t == last {
          assert outputs[|outputs| - 1].moduleTitle == t;
        }
      }
    }
  }

  /** The blocks of the outputs whose module title is `t`, in input order,
      each with its structured segments. */
  function BlocksOf(outputs: seq<BlockOutput>, t: string): (r: seq<Block>)
    ensures |r| <= |outputs|
  {
    if outputs == [] then []
    else
      var e := outputs[|outputs| - 1];
      BlocksOf(outputs[..|outputs| - 1], t)
        + (if e.moduleTitle == t then [Block(e.blockTitle, e.structuredSegments)] else [])
  }

  /** The grouped outline: one module per distinct module title, in
      first-seen order, holding the blocks of that title in input order. */
  function Grouped(outputs: seq<BlockOutput>): seq<Module>
  {
    var ts := ModuleTitles(outputs);
    seq(|ts|, k requires 0 <= k < |ts| => Module(ts[k], BlocksOf(outputs, ts[k])))
  }

  /** The first module titled `t`, if any (the `next(..., None)` lookup). */
  function FindModule(mods: seq<Module>, t: string): (r: Option<nat>)
    ensures r.Some? ==> r.value < |mods| && mods[r.value].moduleTitle == t
    ensures r.Some? ==> forall j :: 0 <= j < r.value ==> mods[j].moduleTitle != t
    ensures r.None? ==> forall j :: 0 <= j < |mods| ==> mods[j].moduleTitle != t
  {
    if mods == [] then None
    else if mods[0].moduleTitle == t then Some(0)
    else
      match FindModule(mods[1..], t)
      case None => None
      case Some(j) => Some(j + 1)
  }

  /** How one more block result changes the grouped outline: its block is
      appended to the module of its title, or a new module is appended. */
  lemma GroupedSnoc(outputs: seq<BlockOutput>, e: BlockOutput)
    ensures var p := Grouped(outputs);
      var blk := Block(e.blockTitle, e.structuredSegments);
      Grouped(outputs + [e]) ==
        match FindModule(p, e.moduleTitle)
        case Some(k) => p[k := p[k].(blocks := p[k].blocks + [blk])]
        case None => p + [Module(e.moduleTitle, [blk])]
  {
    var all := outputs + [e];
    assert all[..|all| - 1] == outputs;
    ModuleTitlesFacts(outputs);
    var ts := ModuleTitles(outputs);
    var p := Grouped(outputs);
    var blk := Block(e.blockTitle, e.structuredSegments);
    match FindModule(p, e.moduleTitle)
    case Some(k) =>
      assert ts[k] == e.moduleTitle;
      var q := p[k := p[k].(blocks := p[k].blocks + [blk])];
      assert Grouped(all) == q by {
        forall j | 0 <= j < |ts| ensures Grouped(all)[j] == q[j] {
          if j != k {
            assert ts[j] != e.moduleTitle;
          }
        }
      }
    case None =>
      assert e.moduleTitle !in ts by {
        forall j | 0 <= j < |ts| ensures ts[j] != e.moduleTitle {
          assert p[j].moduleTitle == ts[j];
        }
      }
      BlocksOfAbsent(outputs, e.moduleTitle);
      var q := p + [Module(e.moduleTitle, [blk])];
      assert ModuleTitles(all) == ts + [e.moduleTitle];
      assert Grouped(all) == q by {
        forall j | 0 <= j < |q| ensures Grouped(all)[j] == q[j] {
        }
      }
  }

  lemma {:induction false} BlocksOfAbsent(outputs: seq<BlockOutput>, t: string)
    requires forall k :: 0 <= k < |outputs| ==> outputs[k].moduleTitle != t
    ensures BlocksOf(outputs, t) == []
    decreases |outputs|
  {
    if outputs != [] {
      var init := outputs[..|outputs| - 1];
      assert forall k :: 0 <= k < |init| ==> init[k] == outputs[k];
      BlocksOfAbsent(init, t);
    }
  }

  lemma BlockCountSnoc(mods: seq<Module>, m: Module)
    ensures BlockCount(mods + [m]) == BlockCount(mods) + |m.blocks|
  {
    var all := mods + [m];
    assert all[..|all| - 1] == mods;
  }

  lemma {:induction false} BlockCountUpdate(mods: seq<Module>, k: nat, blk: Block)
    requires k < |mods|
    ensures BlockCount(mods[k := mods[k].(blocks := mods[k].blocks + [blk])]) == BlockCount(mods) + 1
    decreases |mods|
  {
    var upd := mods[k := mods[k].(blocks := mods[k].blocks + [blk])];
    if k < |mods| - 1 {
      assert upd[..|upd| - 1] == mods[..|mods| - 1][k := mods[k].(blocks := mods[k].blocks + [blk])];
      BlockCountUpdate(mods[..|mods| - 1], k, blk);
    } else {
      assert upd[..|upd| - 1] == mods[..|mods| - 1];
    }
  }

  /** One turn of the grouping loop: the block is appended to the module
      found by title, or to a module newly appended at the end. */
  lemma GroupStep(outputs: seq<BlockOutput>, e: BlockOutput, p: seq<Module>, found: Option<nat>, q: seq<Module>)
    requires p == Grouped(outputs) && found == FindModule(p, e.moduleTitle)
    requires var blk := Block(e.blockTitle, e.structuredSegments);
      if found.None? then
        var extended := p + [Module(e.moduleTitle, [])];
        q == extended[|p| := extended[|p|].(blocks := extended[|p|].blocks + [blk])]
      else
        q == p[found.value := p[found.value].(blocks := p[found.value].blocks + [blk])]
    ensures q == Grouped(outputs + [e])
    ensures BlockCount(q) == BlockCount(p) + 1
  {
    GroupedSnoc(outputs, e);
    var blk := Block(e.blockTitle, e.structuredSegments);
    if found.None? {
      var extended := p + [Module(e.moduleTitle, [])];
      assert q == p + [Module(e.moduleTitle, [blk])];
      BlockCountSnoc(p, Module(e.moduleTitle, [blk]));
    } else {
      BlockCountUpdate(p, found.value, blk);
    }
  }

  /** The grouping loop: each block result is added to the module of the same
      title, which is created at the end when missing. It builds the grouped
      outline and keeps every block, one per result. */
  method GroupModules(outputs: seq<BlockOutput>) returns (formatted: seq<Module>)
    ensures formatted == Grouped(outputs)
    ensures BlockCount(formatted) == |outputs|
  {
    formatted := [];
    var i := 0;
    while i < |outputs|
      invariant 0 <= i <= |outputs|
      invariant formatted == Grouped(outputs[..i])
      invariant BlockCount(formatted) == i
    {
      formatted := AddBlockOutput(formatted, outputs[i], outputs[..i]);
      assert outputs[..i + 1] == outputs[..i] + [outputs[i]];
      i := i + 1;
    }
    assert outputs[..i] == outputs;
  }

  /** One turn of the grouping loop: looks up the module of the entry's
      title, appends an empty one when there is none, and appends the
      entry's block to it. Adding to the grouping of `seen` gives the
      grouping of `seen` followed by the entry. */
  method AddBlockOutput(formatted: seq<Module>, entry: BlockOutput, ghost seen: seq<BlockOutput>)
    returns (updated: seq<Module>)
    requires formatted == Grouped(seen)
    ensures updated == Grouped(seen + [entry])
    ensures BlockCount(updated) == BlockCount(formatted) + 1
  {
    var blk := Block(entry.blockTitle, entry.structuredSegments);
    var found := FindModule(formatted, entry.moduleTitle);
    updated := formatted;
    var idx: nat;
    if found.None? {
      updated := updated + [Module(entry.moduleTitle, [])];
      idx := |updated| - 1;
    } else {
      idx := found.value;
    }
    updated := updated[idx := updated[idx].(blocks := updated[idx].blocks + [blk])];
    GroupStep(seen, entry, formatted, found, updated);
  }

  /** The position of the first block result of module `t`, or `|outputs|`
      when there is none. */
  function FirstOccurrence(outputs: seq<BlockOutput>, t: string): (r: nat)
    ensures r <= |outputs|
    ensures r < |outputs| <==> exists k :: 0 <= k < |outputs| && outputs[k].moduleTitle == t
    ensures r < |outputs| ==> outputs[r].moduleTitle == t
    ensures forall k :: 0 <= k < r ==> outputs[k].moduleTitle != t
  {
    if outputs == [] then 0
    else if outputs[0].moduleTitle == t then 0
    else 1 + FirstOccurrence(outputs[1..], t)
  }

  lemma {:induction false} FirstOccurrenceSnoc(outputs: seq<BlockOutput>, e: BlockOutput, t: string)
    ensures FirstOccurrence(outputs + [e], t) ==
      if FirstOccurrence(outputs, t) < |outputs| then FirstOccurrence(outputs, t)
      else if e.moduleTitle == t then |outputs| else |outputs| + 1
  {
    var all := outputs + [e];
    assert forall k :: 0 <= k < |outputs| ==> all[k] == outputs[k];
    assert all[|outputs|] == e;
  }

  lemma FirstOccurrenceKept(init: seq<BlockOutput>, e: BlockOutput, t: string)
    requires t in ModuleTitles(init)
    ensures FirstOccurrence(init + [e], t) == FirstOccurrence(init, t) < |init|
  {
    ModuleTitlesFacts(init);
    FirstOccurrenceSnoc(init, e, t);
  }

  lemma FirstOccurrenceNew(init: seq<BlockOutput>, e: BlockOutput)
    requires e.moduleTitle !in ModuleTitles(init)
    ensures FirstOccurrence(init + [e], e.moduleTitle) == |init|
  {
    ModuleTitlesFacts(init);
    FirstOccurrenceSnoc(init, e, e.moduleTitle);
  }

  /** The modules of the grouped outline appear in the order in which their
      titles first occur among the block results. */
  lemma {:induction false} ModuleTitlesFirstSeen(outputs: seq<BlockOutput>)
    ensures forall i, j :: 0 <= i < j < |ModuleTitles(outputs)| ==>
      FirstOccurrence(outputs, ModuleTitles(outputs)[i]) < FirstOccurrence(outputs, ModuleTitles(outputs)[j])
    decreases |outputs|
  {
    if outputs != [] {
      var init := outputs[..|outputs| - 1];
      var e := outputs[|outputs| - 1];
      assert init + [e] == outputs;
      ModuleTitlesFirstSeen(init);
      var prev := ModuleTitles(init);
      var r := ModuleTitles(outputs);
      forall i | 0 <= i < |prev|
        ensures FirstOccurrence(outputs, prev[i]) == FirstOccurrence(init, prev[i]) < |init|
      {
        FirstOccurrenceKept(init, e, prev[i]);
      }
      if e.moduleTitle !in prev {
        FirstOccurrenceNew(init, e);
      }
    }
  }

  /** The grouped outline has one module per title: no title twice, and
      each module holds the blocks of its title in input order with their
      structured segments. */
  lemma GroupedDistinct(outputs: seq<BlockOutput>)
    ensures var g := Grouped(outputs);
      (forall i, j :: 0 <= i < j < |g| ==> g[i].moduleTitle != g[j].moduleTitle) &&
      (forall k :: 0 <= k < |g| ==> g[k].blocks == BlocksOf(outputs, g[k].moduleTitle))
  {
    ModuleTitlesFacts(outputs);
    var ts := ModuleTitles(outputs);
    var g := Grouped(outputs);
    assert forall k :: 0 <= k < |g| ==> g[k].moduleTitle == ts[k];
  }

  /** Every module title of a block result has a module in the grouped
      outline, and no other module is there. */
  lemma GroupedCovers(outputs: seq<BlockOutput>)
    ensures var g := Grouped(outputs);
      (forall k :: 0 <= k < |g| ==> exists j :: 0 <= j < |outputs| && outputs[j].moduleTitle == g[k].moduleTitle) &&
      (forall j :: 0 <= j < |outputs| ==> exists k :: 0 <= k < |g| && g[k].moduleTitle == outputs[j].moduleTitle)
  {
    ModuleTitlesFacts(outputs);
    var ts := ModuleTitles(outputs);
    var g := Grouped(outputs);
    forall k | 0 <= k < |g|
      ensures exists j :: 0 <= j < |outputs| && outputs[j].moduleTitle == g[k].moduleTitle
    {
      assert ts[k] in ts;
    }
    forall j | 0 <= j < |outputs|
      ensures exists k :: 0 <= k < |g| && g[k].moduleTitle == outputs[j].moduleTitle
    {
      var t := outputs[j].moduleTitle;
      assert t in ts;
      var k :| 0 <= k < |ts| && ts[k] == t;
      assert g[k].moduleTitle == t;
    }
  }

  /** The modules of the grouped outline are ordered by the first occurrence
      of their titles among the block results. */
  lemma GroupedOrder(outputs: seq<BlockOutput>)
    ensures var g := Grouped(outputs);
      forall i, j :: 0 <= i < j < |g| ==>
        FirstOccurrence(outputs, g[i].moduleTitle) < FirstOccurrence(outputs, g[j].moduleTitle)
  {
    ModuleTitlesFirstSeen(outputs);
    var ts := ModuleTitles(outputs);
    var g := Grouped(outputs);
    forall i, j | 0 <= i < j < |g|
      ensures FirstOccurrence(outputs, g[i].moduleTitle) < FirstOccurrence(outputs, g[j].moduleTitle)
    {
      assert g[i].moduleTitle == ts[i] && g[j].moduleTitle == ts[j];
      assert FirstOccurrence(outputs, ts[i]) < FirstOccurrence(outputs, ts[j]);
    }
  }

  // ---------------------------------------------------------------------
  // Flattening the final outline into spreadsheet rows

  /** The row for one segment: its module and block titles, its title and
      learning type, its video type or "" when it has none, and an empty
      video link. */
  function FinalizeRow(moduleTitle: string, blockTitle: string, seg: Segment): (r: FinalRow)
    ensures r.moduleTitle == moduleTitle && r.blockTitle == blockTitle
    ensures r.segmentTitle == seg.segmentTitle && r.segmentType == seg.learningType
    ensures r.videoType == (if seg.videoType.Some? then seg.videoType.value else "")
    ensures r.videoLink == ""
  {
    FinalRow(moduleTitle, blockTitle, seg.segmentTitle, seg.learningType, seg.videoType.GetOr(""), "")
  }

  function SegmentRows(moduleTitle: string, blockTitle: string, segs: seq<Segment>): seq<FinalRow>
  {
    if segs == [] then []
    else SegmentRows(moduleTitle, blockTitle, segs[..|segs| - 1]) + [FinalizeRow(moduleTitle, blockTitle, segs[|segs| - 1])]
  }

  function BlockRows(moduleTitle: string, blocks: seq<Block>): seq<FinalRow>
  {
    if blocks == [] then []
    else
      var b := blocks[|blocks| - 1];
      BlockRows(moduleTitle, blocks[..|blocks| - 1]) + SegmentRows(moduleTitle, b.blockTitle, b.segments)
  }

  /** The rows of the final spreadsheet: module by module, block by block,
      segment by segment. */
  function FinalizeRowsOf(mods: seq<Module>): seq<FinalRow>
  {
    if mods == [] then []
    else
      var m := mods[|mods| - 1];
      FinalizeRowsOf(mods[..|mods| - 1]) + BlockRows(m.moduleTitle, m.blocks)
  }

  lemma SegmentRowsSnoc(mt: string, bt: string, segs: seq<Segment>, k: nat)
    requires k < |segs|
    ensures SegmentRows(mt, bt, segs[..k + 1]) == SegmentRows(mt, bt, segs[..k]) + [FinalizeRow(mt, bt, segs[k])]
  {
    assert segs[..k + 1][..k] == segs[..k];
  }

  lemma BlockRowsSnoc(mt: string, blocks: seq<Block>, j: nat)
    requires j < |blocks|
    ensures BlockRows(mt, blocks[..j + 1]) == BlockRows(mt, blocks[..j]) + SegmentRows(mt, blocks[j].blockTitle, blocks[j].segments)
  {
    assert blocks[..j + 1][..j] == blocks[..j];
  }

  lemma FinalizeRowsSnoc(mods: seq<Module>, i: nat)
    requires i < |mods|
    ensures FinalizeRowsOf(mods[..i + 1]) == FinalizeRowsOf(mods[..i]) + BlockRows(mods[i].moduleTitle, mods[i].blocks)
  {
    assert mods[..i + 1][..i] == mods[..i];
  }

  /** The rows loop of finalisation, module by module. */
  method FinalizeRows(selectedModules: seq<Module>) returns (rows: seq<FinalRow>)
    ensures rows == FinalizeRowsOf(selectedModules)
  {
    rows := [];
    var i := 0;
    while i < |selectedModules|
      invariant 0 <= i <= |selectedModules|
      invariant rows == FinalizeRowsOf(selectedModules[..i])
    {
      rows := AppendModuleRows(rows, selectedModules[i].moduleTitle, selectedModules[i].blocks);
      FinalizeRowsSnoc(selectedModules, i);
      i := i + 1;
    }
    assert selectedModules[..i] == selectedModules;
  }

  /** The loop over the blocks of one module. */
  method AppendModuleRows(rows: seq<FinalRow>, moduleTitle: string, blocks: seq<Block>) returns (extended: seq<FinalRow>)
    ensures extended == rows + BlockRows(moduleTitle, blocks)
  {
    extended := rows;
    var j := 0;
    while j < |blocks|
      invariant 0 <= j <= |blocks|
      invariant extended == rows + BlockRows(moduleTitle, blocks[..j])
    {
      extended := AppendBlockRows(extended, moduleTitle, blocks[j].blockTitle, blocks[j].segments);
      BlockRowsSnoc(moduleTitle, blocks, j);
      j := j + 1;
    }
    assert blocks[..j] == blocks;
  }

  /** The loop over the segments of one block. */
  method AppendBlockRows(rows: seq<FinalRow>, moduleTitle: string, blockTitle: string, segs: seq<Segment>)
    returns (extended: seq<FinalRow>)
    ensures extended == rows + SegmentRows(moduleTitle, blockTitle, segs)
  {
    extended := rows;
    var k := 0;
    while k < |segs|
      invariant 0 <= k <= |segs|
      invariant extended == rows + SegmentRows(moduleTitle, blockTitle, segs[..k])
    {
      extended := extended + [FinalizeRow(moduleTitle, blockTitle, segs[k])];
      SegmentRowsSnoc(moduleTitle, blockTitle, segs, k);
      k := k + 1;
    }
    assert segs[..k] == segs;
  }

  lemma {:induction false} SegmentRowsFacts(mt: string, bt: string, segs: seq<Segment>)
    ensures var r := SegmentRows(mt, bt, segs);
      |r| == |segs| && forall k :: 0 <= k < |r| ==> r[k] == FinalizeRow(mt, bt, segs[k])
  {
    if segs != [] {
      SegmentRowsFacts(mt, bt, segs[..|segs| - 1]);
    }
  }

  lemma {:induction false} BlockRowsFacts(mt: string, blocks: seq<Block>)
    ensures var r := BlockRows(mt, blocks);
      |r| == BlockSegmentCount(blocks) && forall k :: 0 <= k < |r| ==> r[k].videoLink == ""
  {
    if blocks != [] {
      var b := blocks[|blocks| - 1];
      BlockRowsFacts(mt, blocks[..|blocks| - 1]);
      SegmentRowsFacts(mt, b.blockTitle, b.segments);
    }
  }

  /** The final spreadsheet has one row per segment of the outline, and no
      row has a video link. */
  lemma {:induction false} FinalizeRowsFacts(mods: seq<Module>)
    ensures var r := FinalizeRowsOf(mods);
      |r| == SegmentCount(mods) && forall k :: 0 <= k < |r| ==> r[k].videoLink == ""
  {
    if mods != [] {
      FinalizeRowsFacts(mods[..|mods| - 1]);
      BlockRowsFacts(mods[|mods| - 1].moduleTitle, mods[|mods| - 1].blocks);
    }
  }

  /** The rows keep module order: the rows of two lists of modules are the
      rows of the first followed by the rows of the second. */
  lemma {:induction false} FinalizeRowsAppend(a: seq<Module>, b: seq<Module>)
    ensures FinalizeRowsOf(a + b) == FinalizeRowsOf(a) + FinalizeRowsOf(b)
    decreases |b|
  {
    if b != [] {
      var ab := a + b;
      assert ab[..|ab| - 1] == a + b[..|b| - 1];
      assert ab[|ab| - 1] == b[|b| - 1];
      FinalizeRowsAppend(a, b[..|b| - 1]);
      var last := BlockRows(b[|b| - 1].moduleTitle, b[|b| - 1].blocks);
      assert FinalizeRowsOf(ab) == FinalizeRowsOf(a + b[..|b| - 1]) + last;
      assert FinalizeRowsOf(b) == FinalizeRowsOf(b[..|b| - 1]) + last;
    } else {
      assert a + b == a;
    }
  }

  /** The rows of one module list its blocks in order, and the rows of one
      block list its segments in order. */
  lemma FinalizeRowsOfOneBlock(moduleTitle: string, blk: Block)
    ensures var r := FinalizeRowsOf([Module(moduleTitle, [blk])]);
      |r| == |blk.segments| &&
      forall k :: 0 <= k < |r| ==> r[k] == FinalizeRow(moduleTitle, blk.blockTitle, blk.segments[k])
  {
    var mods := [Module(moduleTitle, [blk])];
    assert mods[..|mods| - 1] == [];
    assert [blk][..|[blk]| - 1] == [];
    assert FinalizeRowsOf(mods) == BlockRows(moduleTitle, [blk]);
    assert BlockRows(moduleTitle, [blk]) == SegmentRows(moduleTitle, blk.blockTitle, blk.segments);
    SegmentRowsFacts(moduleTitle, blk.blockTitle, blk.segments);
  }

  /** End to end: the final spreadsheet built from what the page submits has
      one row per selected segment. */
  lemma SubmittedRows(modules: seq<Module>, sel: seq<UploadPage.Entry>)
    requires UploadPage.EntriesValid(modules, sel)
    ensures |FinalizeRowsOf(UploadPage.Reduced(modules, sel))| == |sel|
  {
    UploadPage.ReducedSegmentCount(modules, sel);
    FinalizeRowsFacts(UploadPage.Reduced(modules, sel));
  }
}
