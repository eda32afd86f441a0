/** The structuring of the segments chosen for one block into learning
    segments, and the rows of the review spreadsheet of one block and of
    the final spreadsheet built from all block results. */
module Structuring {
  import opened Wrappers
  import opened Outline
  import opened Parsers
  import opened OutlineService

  /** At most this many segments are structured per block. */
  const MaxSegmentsPerBlock: nat := 7

  function Min(a: nat, b: nat): nat
  {
    if a <= b then a else b
  }

  /** The number of Video entries in `segs`. */
  function VideoEntries(segs: seq<Segment>): (r: nat)
    ensures r <= |segs|
  {
    if segs == [] then 0
    else VideoEntries(segs[..|segs| - 1]) + (if segs[|segs| - 1].learningType == Video then 1 else 0)
  }

  // ---------------------------------------------------------------------
  // Structuring the segments of a block

  /** The structuring loop: the first seven segments, in order, take the
      learning types in turn; each Video takes the video types in turn,
      counted among the Videos, so the Video at position `5 * k` takes video
      type `k` (modulo four); every entry includes its own title. With seven
      entries at most, only positions 0 and 5 are Videos. */
  method StructureBlockSegments(blockTitle: string, segments: seq<Record>) returns (result: seq<Segment>)
    ensures |result| == Min(|segments|, MaxSegmentsPerBlock)
    ensures forall i :: 0 <= i < |result| ==>
      result[i].segmentTitle == segments[i].title &&
      result[i].includes == [segments[i].title] &&
      result[i].learningType == LearningTypes[i % |LearningTypes|]
    ensures forall i :: 0 <= i < |result| ==>
      result[i].videoType == if i % 5 == 0 then Some(VideoTypes[(i / 5) % |VideoTypes|]) else None
    ensures forall i :: 0 <= i < |result| ==>
      (result[i].videoType.Some? <==> result[i].learningType == Video)
    ensures forall i :: 0 <= i < |result| && result[i].learningType == Video ==>
      (i == 0 && result[i].videoType == Some("Talking head")) ||
      (i == 5 && result[i].videoType == Some("Light Board"))
  {
    var types := LearningTypes;
    var videoTypes := VideoTypes;
    result := [];
    var videoCount := 0;
    var top := segments[..Min(|segments|, MaxSegmentsPerBlock)];
    var i := 0;
    while i < |top|
      invariant 0 <= i <= |top|
      invariant |result| == i
      invariant videoCount == (i + 4) / 5
      invariant forall k :: 0 <= k < i ==>
        result[k].segmentTitle == segments[k].title &&
        result[k].includes == [segments[k].title] &&
        result[k].learningType == types[k % 5] &&
        result[k].videoType == if k % 5 == 0 then Some(videoTypes[(k / 5) % 4]) else None
    {
      var seg := top[i];
      var t := types[i % |types|];
      var entry := Segment(seg.title, t, None, [seg.title]);
      if t == Video {
        assert i % 5 == 0 && videoCount == i / 5;
        entry := entry.(videoType := Some(videoTypes[videoCount % |videoTypes|]));
        videoCount := videoCount + 1;
      }
      result := result + [entry];
      i := i + 1;
    }
  }

  /** Under the round-robin assignment of learning types, the number of
      Videos before position `i` is `i / 5` rounded up; so the Video at
      position `5 * k` is preceded by exactly `k` Videos. */
  lemma {:induction false} VideoEntriesRoundRobin(segs: seq<Segment>, i: nat)
    requires i <= |segs|
    requires forall k :: 0 <= k < |segs| ==> segs[k].learningType == LearningTypes[k % 5]
    ensures VideoEntries(segs[..i]) == (i + 4) / 5
  {
    if i > 0 {
      VideoEntriesRoundRobin(segs, i - 1);
      assert segs[..i][..i - 1] == segs[..i - 1];
      assert segs[..i][i - 1] == segs[i - 1];
      if (i - 1) % 5 == 0 {
        assert LearningTypes[0] == Video;
      } else {
        assert LearningTypes[(i - 1) % 5] != Video;
      }
    }
  }

  // ---------------------------------------------------------------------
  // The review spreadsheet of one block

  /** One row of a block's review spreadsheet, with the columns "Module",
      "Block", "Learning Segment Title", "Learning Type" and "Video Type". */
  datatype ReviewRow = ReviewRow(
    moduleTitle: string,
    blockTitle: string,
    segmentTitle: string,
    learningType: string,
    videoType: string)

  /** The number of included items across `segs`. */
  function IncludesCount(segs: seq<Segment>): nat
  {
    if segs == [] then 0 else IncludesCount(segs[..|segs| - 1]) + |segs[|segs| - 1].includes|
  }

  /** The review rows of the segment at position `i`: one per included item;
      only the first item of the first segment names the module and block. */
  function SegmentReviewRows(moduleTitle: string, blockTitle: string, seg: Segment, i: nat): seq<ReviewRow>
  {
    seq(|seg.includes|, j requires 0 <= j < |seg.includes| =>
      ReviewRow(
        if i == 0 && j == 0 then moduleTitle else "",
        if i == 0 && j == 0 then blockTitle else "",
        seg.includes[j], seg.learningType, seg.videoType.GetOr("")))
  }

  /** The review rows of a block: segment by segment, item by item. */
  function ReviewRowsOf(moduleTitle: string, blockTitle: string, segs: seq<Segment>): seq<ReviewRow>
  {
    if segs == [] then []
    else
      var n := |segs| - 1;
      ReviewRowsOf(moduleTitle, blockTitle, segs[..n]) + SegmentReviewRows(moduleTitle, blockTitle, segs[n], n)
  }

  /** The row loops of the review spreadsheet. */
  method BlockExcelRows(moduleTitle: string, blockTitle: string, structured: seq<Segment>) returns (rows: seq<ReviewRow>)
    ensures rows == ReviewRowsOf(moduleTitle, blockTitle, structured)
  {
    rows := [];
    var i := 0;
    while i < |structured|
      invariant 0 <= i <= |structured|
      invariant rows == ReviewRowsOf(moduleTitle, blockTitle, structured[..i])
    {
      var seg := structured[i];
      ghost var done := rows;
      ghost var segRows := SegmentReviewRows(moduleTitle, blockTitle, seg, i);
      var j := 0;
      while j < |seg.includes|
        invariant 0 <= j <= |seg.includes|
        invariant rows == done + segRows[..j]
      {
        var item := seg.includes[j];
        rows := rows + [ReviewRow(
          if i == 0 && j == 0 then moduleTitle else "",
          if i == 0 && j == 0 then blockTitle else "",
          item, seg.learningType, seg.videoType.GetOr(""))];
        assert segRows[..j + 1] == segRows[..j] + [segRows[j]];
        j := j + 1;
      }
      assert segRows[..j] == segRows;
      assert structured[..i + 1][..i] == structured[..i];
      i := i + 1;
    }
    assert structured[..i] == structured;
  }

  /** Whether row `k` is the very first row of the block, which exists only
      when the first segment includes an item. */
  predicate LeadRow(segs: seq<Segment>, k: nat)
  {
    k == 0 && segs != [] && segs[0].includes != []
  }

  lemma {:induction false} IncludesCountZero(segs: seq<Segment>)
    requires IncludesCount(segs) == 0
    ensures forall k :: 0 <= k < |segs| ==> segs[k].includes == []
  {
    if segs != [] {
      var init := segs[..|segs| - 1];
      IncludesCountZero(init);
      assert forall k :: 0 <= k < |init| ==> init[k] == segs[k];
    }
  }

  /** There is one review row per included item, and only the very first row
      names the module and the block; all others leave them empty. */
  lemma {:induction false} ReviewRowsShape(moduleTitle: string, blockTitle: string, segs: seq<Segment>)
    ensures var r := ReviewRowsOf(moduleTitle, blockTitle, segs);
      |r| == IncludesCount(segs) &&
      forall k :: 0 <= k < |r| ==>
        r[k].moduleTitle == (if LeadRow(segs, k) then moduleTitle else "") &&
        r[k].blockTitle == (if LeadRow(segs, k) then blockTitle else "")
    decreases |segs|
  {
    if segs != [] {
      var n := |segs| - 1;
      var init := segs[..n];
      ReviewRowsShape(moduleTitle, blockTitle, init);
      var prev := ReviewRowsOf(moduleTitle, blockTitle, init);
      var r := ReviewRowsOf(moduleTitle, blockTitle, segs);
      var last := SegmentReviewRows(moduleTitle, blockTitle, segs[n], n);
      assert r == prev + last;
      if n > 0 {
        assert init[0] == segs[0];
        if |prev| == 0 {
          IncludesCountZero(init);
          assert segs[0].includes == [];
        }
      }
      forall k | 0 <= k < |r|
        ensures r[k].moduleTitle == (if LeadRow(segs, k) then moduleTitle else "")
        ensures r[k].blockTitle == (if LeadRow(segs, k) then blockTitle else "")
      {
        if k < |prev| {
          assert r[k] == prev[k];
          assert LeadRow(segs, k) == LeadRow(init, k);
        } else {
          assert r[k] == last[k - |prev|];
        }
      }
    }
  }

  /** For structured segments, which include only their own title, the
      review rows list the segments in order with their types. */
  lemma {:induction false} ReviewRowsOfStructured(moduleTitle: string, blockTitle: string, segs: seq<Segment>)
    requires forall k :: 0 <= k < |segs| ==> segs[k].includes == [segs[k].segmentTitle]
    ensures var r := ReviewRowsOf(moduleTitle, blockTitle, segs);
      |r| == |segs| &&
      forall k :: 0 <= k < |r| ==>
        r[k].segmentTitle == segs[k].segmentTitle && r[k].learningType == segs[k].learningType &&
        r[k].videoType == segs[k].videoType.GetOr("")
    decreases |segs|
  {
    if segs != [] {
      var n := |segs| - 1;
      var init := segs[..n];
      assert forall k :: 0 <= k < |init| ==> init[k] == segs[k];
      ReviewRowsOfStructured(moduleTitle, blockTitle, init);
    }
  }

  // ---------------------------------------------------------------------
  // The final spreadsheet of all block results

  /** The final rows of one segment list: one per included item. */
  function IncludeRows(moduleTitle: string, blockTitle: string, segs: seq<Segment>): seq<FinalRow>
  {
    if segs == [] then []
    else
      var seg := segs[|segs| - 1];
      IncludeRows(moduleTitle, blockTitle, segs[..|segs| - 1]) +
        seq(|seg.includes|, j requires 0 <= j < |seg.includes| =>
          FinalRow(moduleTitle, blockTitle, seg.includes[j], seg.learningType, seg.videoType.GetOr(""), ""))
  }

  /** The final rows of all block results, entry by entry. */
  function FinalExcelRowsOf(data: seq<BlockOutput>): seq<FinalRow>
  {
    if data == [] then []
    else
      var d := data[|data| - 1];
      FinalExcelRowsOf(data[..|data| - 1]) + IncludeRows(d.moduleTitle, d.blockTitle, d.structuredSegments)
  }

  /** The number of included items across all block results. */
  function OutputIncludesCount(data: seq<BlockOutput>): nat
  {
    if data == [] then 0
    else OutputIncludesCount(data[..|data| - 1]) + IncludesCount(data[|data| - 1].structuredSegments)
  }

  /** The row loops of the final spreadsheet, entry by entry. */
  method FinalExcelRows(data: seq<BlockOutput>) returns (rows: seq<FinalRow>)
    ensures rows == FinalExcelRowsOf(data)
  {
    rows := [];
    var i := 0;
    while i < |data|
      invariant 0 <= i <= |data|
      invariant rows == FinalExcelRowsOf(data[..i])
    {
      rows := AppendIncludeRows(rows, data[i].moduleTitle, data[i].blockTitle, data[i].structuredSegments);
      assert data[..i + 1][..i] == data[..i];
      i := i + 1;
    }
    assert data[..i] == data;
  }

  /** The loops over the segments of one entry and the items of a segment. */
  method AppendIncludeRows(rows: seq<FinalRow>, moduleTitle: string, blockTitle: string, segs: seq<Segment>)
    returns (extended: seq<FinalRow>)
    ensures extended == rows + IncludeRows(moduleTitle, blockTitle, segs)
  {
    extended := rows;
    var k := 0;
    while k < |segs|
      invariant 0 <= k <= |segs|
      invariant extended == rows + IncludeRows(moduleTitle, blockTitle, segs[..k])
    {
      var seg := segs[k];
      ghost var done := extended;
      ghost var segRows := seq(|seg.includes|, j requires 0 <= j < |seg.includes| =>
        FinalRow(moduleTitle, blockTitle, seg.includes[j], seg.learningType, seg.videoType.GetOr(""), ""));
      var j := 0;
      while j < |seg.includes|
        invariant 0 <= j <= |seg.includes|
        invariant extended == done + segRows[..j]
      {
        extended := extended + [FinalRow(moduleTitle, blockTitle, seg.includes[j], seg.learningType, seg.videoType.GetOr(""), "")];
        assert segRows[..j + 1] == segRows[..j] + [segRows[j]];
        j := j + 1;
      }
      assert segRows[..j] == segRows;
      assert segs[..k + 1][..k] == segs[..k];
      k := k + 1;
    }
    assert segs[..k] == segs;
  }

  lemma {:induction false} IncludeRowsFacts(moduleTitle: string, blockTitle: string, segs: seq<Segment>)
    ensures var r := IncludeRows(moduleTitle, blockTitle, segs);
      |r| == IncludesCount(segs) &&
      forall k :: 0 <= k < |r| ==> r[k].moduleTitle == moduleTitle && r[k].blockTitle == blockTitle && r[k].videoLink == ""
    decreases |segs|
  {
    if segs != [] {
      IncludeRowsFacts(moduleTitle, blockTitle, segs[..|segs| - 1]);
    }
  }

  /** The final spreadsheet has one row per included item of every block
      result, and no row has a video link. */
  lemma {:induction false} FinalExcelRowsFacts(data: seq<BlockOutput>)
    ensures var r := FinalExcelRowsOf(data);
      |r| == OutputIncludesCount(data) && forall k :: 0 <= k < |r| ==> r[k].videoLink == ""
    decreases |data|
  {
    if data != [] {
      var d := data[|data| - 1];
      FinalExcelRowsFacts(data[..|data| - 1]);
      IncludeRowsFacts(d.moduleTitle, d.blockTitle, d.structuredSegments);
    }
  }

  /** For structured segments, which include only their own title, the final
      rows of a block are exactly the rows the finalisation builds for it. */
  lemma {:induction false} IncludeRowsOfStructured(moduleTitle: string, blockTitle: string, segs: seq<Segment>)
    requires forall k :: 0 <= k < |segs| ==> segs[k].includes == [segs[k].segmentTitle]
    ensures IncludeRows(moduleTitle, blockTitle, segs) == SegmentRows(moduleTitle, blockTitle, segs)
    decreases |segs|
  {
    if segs != [] {
      var init := segs[..|segs| - 1];
      var seg := segs[|segs| - 1];
      assert forall k :: 0 <= k < |init| ==> init[k] == segs[k];
      IncludeRowsOfStructured(moduleTitle, blockTitle, init);
      var items := seq(|seg.includes|, j requires 0 <= j < |seg.includes| =>
        FinalRow(moduleTitle, blockTitle, seg.includes[j], seg.learningType, seg.videoType.GetOr(""), ""));
      assert items == [FinalizeRow(moduleTitle, blockTitle, seg)];
    }
  }
}
