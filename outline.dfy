/** The course outline exchanged between the backend and the browser page:
    modules hold blocks, blocks hold segments. The same records carry the
    structured segments the backend builds and the pruned selection the page
    sends back for finalisation. */
module Outline {
  import opened Wrappers

  /** A learning segment: `segment_title`, `learning_type`, the optional
      `video_type` key and the `includes` list. */
  datatype Segment = Segment(
    segmentTitle: string,
    learningType: string,
    videoType: Option<string>,
    includes: seq<string>)

  /** A block: `block_title` and its `segments`. */
  datatype Block = Block(blockTitle: string, segments: seq<Segment>)

  /** A module: `module_title` and its `blocks`. */
  datatype Module = Module(moduleTitle: string, blocks: seq<Block>)

  /** One row of the final spreadsheet, with the columns "Module (LOs)",
      "Blocks (Learning Weeks)", "Learning Segment Title",
      "Learning Segment Type", "Video Type" and "Video Link". */
  datatype FinalRow = FinalRow(
    moduleTitle: string,
    blockTitle: string,
    segmentTitle: string,
    segmentType: string,
    videoType: string,
    videoLink: string)

  const Video: string := "Video"

  /** The learning types, in the order the program lists them. */
  const LearningTypes: seq<string> := ["Video", "Reading", "Assignment", "Quiz", "Discussion"]

  /** The video sub-types, in the order the program lists them. */
  const VideoTypes: seq<string> := ["Talking head", "Light Board", "Screencast", "Lab Interview"]

  /** The number of segments across all blocks of `blocks`. */
  function BlockSegmentCount(blocks: seq<Block>): nat
  {
    if blocks == [] then 0
    else BlockSegmentCount(blocks[..|blocks| - 1]) + |blocks[|blocks| - 1].segments|
  }

  /** The number of segments across all blocks of all modules of `mods`. */
  function SegmentCount(mods: seq<Module>): nat
  {
    if mods == [] then 0
    else SegmentCount(mods[..|mods| - 1]) + BlockSegmentCount(mods[|mods| - 1].blocks)
  }

  /** The number of blocks across all modules of `mods`. */
  function BlockCount(mods: seq<Module>): nat
  {
    if mods == [] then 0 else BlockCount(mods[..|mods| - 1]) + |mods[|mods| - 1].blocks|
  }
}
