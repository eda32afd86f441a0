/** The segmentation of uploaded documents into titled records, over the
    text the document libraries extract: the shapes of each slide of a
    presentation, the lines of each page of a PDF, the paragraphs of a word
    document with their style names, and the cell texts of the tables of
    the course plan. */
module Parsers {
  import opened Wrappers
  import opened Text
  import opened Seqs

  /** One parsed unit: its number from 1 ("slide"), its title and summary. */
  datatype Record = Record(slide: nat, title: string, summary: string)

  // ---------------------------------------------------------------------
  // Presentations

  /** A shape of a slide; only a shape with a text frame carries text. */
  datatype Shape = TextFrame(text: string) | NoTextFrame

  /** The stripped texts of the shapes that have a text frame, in order. */
  function FrameTexts(shapes: seq<Shape>): (r: seq<string>)
    ensures |r| <= |shapes|
  {
    if shapes == [] then []
    else
      var prev := FrameTexts(shapes[..|shapes| - 1]);
      match shapes[|shapes| - 1]
      case TextFrame(t) => prev + [Strip(t)]
      case NoTextFrame => prev
  }

  /** Every frame text is already stripped, and there is one per text frame. */
  lemma {:induction false} FrameTextsStripped(shapes: seq<Shape>)
    ensures var r := FrameTexts(shapes);
      forall k :: 0 <= k < |r| ==> Strip(r[k]) == r[k]
    ensures |FrameTexts(shapes)| == |set j | 0 <= j < |shapes| && shapes[j].TextFrame?|
  {
    if shapes != [] {
      var init := shapes[..|shapes| - 1];
      FrameTextsStripped(init);
      var last := shapes[|shapes| - 1];
      var before := set j | 0 <= j < |init| && init[j].TextFrame?;
      var all := set j | 0 <= j < |shapes| && shapes[j].TextFrame?;
      if last.TextFrame? {
        StripIdempotent(last.text);
        assert all == before + {|shapes| - 1};
      } else {
        assert all == before;
      }
    }
  }

  /** The position of the first non-empty text, or `|texts|` if there is none. */
  function FirstNonEmpty(texts: seq<string>): (r: nat)
    ensures r <= |texts|
    ensures r < |texts| ==> texts[r] != ""
    ensures forall k :: 0 <= k < r ==> texts[k] == ""
  {
    if texts == [] then 0 else if texts[0] != "" then 0 else 1 + FirstNonEmpty(texts[1..])
  }

  /** The title of a slide: its first non-empty text, or "" when all are empty. */
  function SlideTitle(texts: seq<string>): string
  {
    var k := FirstNonEmpty(texts);
    if k < |texts| then texts[k] else ""
  }

  /** The texts that go into the body of a slide: those after its title. */
  function SlideBodyTexts(texts: seq<string>): seq<string>
  {
    var k := FirstNonEmpty(texts);
    if k < |texts| then texts[k + 1..] else []
  }

  /** The first non-empty text becomes the title, every later text (empty or
      not) goes into the body, and no text before the title does. */
  lemma SlideTextsSplit(texts: seq<string>)
    ensures SlideTitle(texts) == "" <==> forall k :: 0 <= k < |texts| ==> texts[k] == ""
    ensures SlideTitle(texts) == "" ==> SlideBodyTexts(texts) == []
    ensures SlideTitle(texts) != "" ==>
      exists k :: 0 <= k < |texts| && texts == texts[..k] + [SlideTitle(texts)] + SlideBodyTexts(texts) &&
        forall j :: 0 <= j < k ==> texts[j] == ""
  {
    var k := FirstNonEmpty(texts);
    if k < |texts| {
      assert texts == texts[..k] + [texts[k]] + texts[k + 1..];
    }
  }

  lemma FirstNonEmptySnoc(texts: seq<string>, t: string)
    ensures FirstNonEmpty(texts + [t]) ==
      if FirstNonEmpty(texts) < |texts| then FirstNonEmpty(texts)
      else if t != "" then |texts| else |texts| + 1
  {
    var all := texts + [t];
    var k := FirstNonEmpty(texts);
    var r := FirstNonEmpty(all);
    assert forall j :: 0 <= j < |texts| ==> all[j] == texts[j];
    assert all[|texts|] == t;
  }

  /** How one more shape text changes the title and the body texts. */
  lemma SlideTextsSnoc(texts: seq<string>, t: string)
    ensures SlideTitle(texts + [t]) == if SlideTitle(texts) == "" then t else SlideTitle(texts)
    ensures SlideBodyTexts(texts + [t]) ==
      if SlideTitle(texts) == "" then [] else SlideBodyTexts(texts) + [t]
  {
    FirstNonEmptySnoc(texts, t);
    var all := texts + [t];
    var k := FirstNonEmpty(texts);
    if k < |texts| {
      assert all[k] == texts[k];
      assert all[k + 1..] == texts[k + 1..] + [t];
    } else {
      assert all[|texts|] == t;
    }
  }

  /** The record for slide `i` (counting from 0). */
  function PptxRecord(shapes: seq<Shape>, i: nat, maxLen: nat): Record
  {
    var texts := FrameTexts(shapes);
    Record(i + 1, Strip(SlideTitle(texts)), Truncate(Strip(SpacePrefixed(SlideBodyTexts(texts))), maxLen))
  }

  /** The presentation parser: one record per slide, numbered from 1, titled
      by the first non-empty shape text, summarised by the later texts joined
      with spaces, stripped and cut to `maxLen`. */
  method ParsePptx(slides: seq<seq<Shape>>, maxLen: nat) returns (results: seq<Record>)
    ensures |results| == |slides|
    ensures forall i :: 0 <= i < |slides| ==> results[i] == PptxRecord(slides[i], i, maxLen)
    ensures forall i :: 0 <= i < |slides| ==>
      results[i].slide == i + 1 &&
      results[i].title == SlideTitle(FrameTexts(slides[i])) &&
      |results[i].summary| <= maxLen
  {
    ghost var expected := seq(|slides|, k requires 0 <= k < |slides| => PptxRecord(slides[k], k, maxLen));
    results := [];
    var i := 0;
    while i < |slides|
      invariant 0 <= i <= |slides|
      invariant results == expected[..i]
    {
      var record := SlideRecord(slides[i], i, maxLen);
      assert expected[i] == record;
      TakeSnoc(expected, i);
      results := results + [record];
      i := i + 1;
    }
    assert results == expected;
    forall k | 0 <= k < |slides|
      ensures results[k].slide == k + 1
      ensures results[k].title == SlideTitle(FrameTexts(slides[k]))
      ensures |results[k].summary| <= maxLen
    {
      PptxRecordFacts(slides[k], k, maxLen);
    }
  }

  /** A slide's record carries its number, its title needs no further
      stripping, and its summary is at most `maxLen` long. */
  lemma PptxRecordFacts(shapes: seq<Shape>, i: nat, maxLen: nat)
    ensures PptxRecord(shapes, i, maxLen).slide == i + 1
    ensures PptxRecord(shapes, i, maxLen).title == SlideTitle(FrameTexts(shapes))
    ensures |PptxRecord(shapes, i, maxLen).summary| <= maxLen
  {
    FrameTextsStripped(shapes);
    SlideTitleStripped(FrameTexts(shapes));
  }

  /** The record of slide `i`, from its shape loop. */
  method SlideRecord(shapes: seq<Shape>, i: nat, maxLen: nat) returns (record: Record)
    ensures record == PptxRecord(shapes, i, maxLen)
  {
    var title, body := ParseSlide(shapes);
    record := Record(i + 1, Strip(title), Truncate(Strip(body), maxLen));
  }

  /** The shape loop of one slide: the first non-empty text becomes the
      title and each later text is appended to the body after a space. */
  method ParseSlide(shapes: seq<Shape>) returns (title: string, body: string)
    ensures title == SlideTitle(FrameTexts(shapes))
    ensures body == SpacePrefixed(SlideBodyTexts(FrameTexts(shapes)))
  {
    title, body := "", "";
    var j := 0;
    while j < |shapes|
      invariant 0 <= j <= |shapes|
      invariant SlideParsed(shapes, j, title, body)
    {
      ShapeStep(shapes, j, title, body);
      if shapes[j].TextFrame? {
        var text := Strip(shapes[j].text);
        if title == "" {
          title := text;
        } else {
          body := body + " " + text;
        }
      }
      j := j + 1;
    }
    assert shapes[..j] == shapes;
  }

  /** The title and body gathered from the first `j` shapes. */
  ghost predicate SlideParsed(shapes: seq<Shape>, j: nat, title: string, body: string)
    requires j <= |shapes|
  {
    var texts := FrameTexts(shapes[..j]);
    title == SlideTitle(texts) && body == SpacePrefixed(SlideBodyTexts(texts))
  }

  /** One turn of the shape loop. */
  lemma ShapeStep(shapes: seq<Shape>, j: nat, title: string, body: string)
    requires j < |shapes| && SlideParsed(shapes, j, title, body)
    ensures shapes[j].NoTextFrame? ==> SlideParsed(shapes, j + 1, title, body)
    ensures shapes[j].TextFrame? && title == "" ==> SlideParsed(shapes, j + 1, Strip(shapes[j].text), body)
    ensures shapes[j].TextFrame? && title != "" ==> SlideParsed(shapes, j + 1, title, body + " " + Strip(shapes[j].text))
  {
    FrameTextsSnoc(shapes, j);
    if shapes[j].TextFrame? {
      SlideTextsSnoc(FrameTexts(shapes[..j]), Strip(shapes[j].text));
    }
  }

  lemma FrameTextsSnoc(shapes: seq<Shape>, j: nat)
    requires j < |shapes|
    ensures FrameTexts(shapes[..j + 1]) ==
      if shapes[j].TextFrame? then FrameTexts(shapes[..j]) + [Strip(shapes[j].text)] else FrameTexts(shapes[..j])
  {
    assert shapes[..j + 1][..j] == shapes[..j];
  }

  lemma SlideTitleStripped(texts: seq<string>)
    requires forall k :: 0 <= k < |texts| ==> Strip(texts[k]) == texts[k]
    ensures Strip(SlideTitle(texts)) == SlideTitle(texts)
  {
    if SlideTitle(texts) == "" {
      assert Strip("") == "";
    }
  }

  // ---------------------------------------------------------------------
  // PDF documents

  /** The raw title of page `i` (counting from 0): its first line, or
      "Page n" with `n` the page number when it has no lines. */
  function PageTitle(lines: seq<string>, i: nat): string
  {
    if lines != [] then lines[0] else "Page " + NatToString(i + 1)
  }

  /** The lines after the first. */
  function LaterLines(lines: seq<string>): seq<string>
  {
    if lines == [] then [] else lines[1..]
  }

  /** The fallback title of an empty page needs no stripping. */
  lemma PageLabelClean(n: nat)
    ensures Strip("Page " + NatToString(n)) == "Page " + NatToString(n)
  {
    var s := "Page " + NatToString(n);
    assert s[0] == 'P';
    assert s[|s| - 1] == NatToString(n)[|NatToString(n)| - 1];
    StripClean(s);
  }

  /** The record for page `i` (counting from 0). */
  function PdfRecord(lines: seq<string>, i: nat, maxLen: nat): Record
  {
    Record(i + 1, Strip(PageTitle(lines, i)), Truncate(JoinWithSpace(LaterLines(lines)), maxLen))
  }

  /** A page's record carries its number, "Page n" for an empty page, and a
      summary at most `maxLen` long. */
  lemma PdfRecordFacts(lines: seq<string>, i: nat, maxLen: nat)
    ensures PdfRecord(lines, i, maxLen).slide == i + 1
    ensures lines == [] ==> PdfRecord(lines, i, maxLen).title == "Page " + NatToString(i + 1)
    ensures |PdfRecord(lines, i, maxLen).summary| <= maxLen
  {
    PageLabelClean(i + 1);
  }

  /** The PDF parser: one record per page, numbered from 1, titled by the
      stripped first line or "Page n", summarised by the later lines joined
      with spaces and cut to `maxLen` (not stripped). */
  method ParsePdf(pages: seq<seq<string>>, maxLen: nat) returns (results: seq<Record>)
    ensures |results| == |pages|
    ensures forall i :: 0 <= i < |pages| ==> results[i] == PdfRecord(pages[i], i, maxLen)
    ensures forall i :: 0 <= i < |pages| ==> results[i].slide == i + 1 && |results[i].summary| <= maxLen
    ensures forall i :: 0 <= i < |pages| && pages[i] == [] ==> results[i].title == "Page " + NatToString(i + 1)
  {
    ghost var expected := seq(|pages|, k requires 0 <= k < |pages| => PdfRecord(pages[k], k, maxLen));
    results := [];
    var i := 0;
    while i < |pages|
      invariant 0 <= i <= |pages|
      invariant results == expected[..i]
    {
      var lines := pages[i];
      var title := if lines != [] then lines[0] else "Page " + NatToString(i + 1);
      var summary := Truncate(JoinWithSpace(if lines == [] then [] else lines[1..]), maxLen);
      assert expected[i] == Record(i + 1, Strip(title), summary);
      TakeSnoc(expected, i);
      results := results + [Record(i + 1, Strip(title), summary)];
      i := i + 1;
    }
    assert results == expected;
    forall k | 0 <= k < |pages|
      ensures results[k].slide == k + 1 && |results[k].summary| <= maxLen
      ensures pages[k] == [] ==> results[k].title == "Page " + NatToString(k + 1)
    {
      PdfRecordFacts(pages[k], k, maxLen);
    }
  }

  // ---------------------------------------------------------------------
  // Word documents

  /** A paragraph: its text and the name of its style. */
  datatype Paragraph = Paragraph(text: string, style: string)

  /** A paragraph whose text is all whitespace; it is skipped. */
  predicate IsBlank(p: Paragraph)
  {
    Strip(p.text) == ""
  }

  /** A paragraph whose style name starts with "Heading". */
  predicate IsHeading(p: Paragraph)
  {
    StartsWith(p.style, "Heading")
  }

  /** A heading with the stripped texts of the body paragraphs under it. */
  datatype Section = Section(heading: string, texts: seq<string>)

  /** How one paragraph changes the sections read so far: a blank one
      changes nothing, a heading starts a new section, any other adds its
      stripped text to the current section, or is dropped before the first
      heading. */
  function AddParagraph(secs: seq<Section>, p: Paragraph): (r: seq<Section>)
    ensures |r| <= |secs| + 1
  {
    if IsBlank(p) then secs
    else if IsHeading(p) then secs + [Section(Strip(p.text), [])]
    else if secs == [] then secs
    else
      var last := secs[|secs| - 1];
      secs[..|secs| - 1] + [last.(texts := last.texts + [Strip(p.text)])]
  }

  /** The sections of a document, paragraph by paragraph. */
  function Sections(ps: seq<Paragraph>): (r: seq<Section>)
    ensures |r| <= |ps|
  {
    if ps == [] then [] else AddParagraph(Sections(ps[..|ps| - 1]), ps[|ps| - 1])
  }

  /** `h` is the stripped text of some heading paragraph of `ps`. */
  ghost predicate HeadingOf(ps: seq<Paragraph>, h: string)
  {
    exists j :: 0 <= j < |ps| && IsHeading(ps[j]) && h == Strip(ps[j].text)
  }

  /** Every section starts at a heading paragraph and has a non-empty
      heading. */
  lemma {:induction false} SectionsHeadings(ps: seq<Paragraph>)
    ensures forall k :: 0 <= k < |Sections(ps)| ==> Sections(ps)[k].heading != ""
    ensures forall k :: 0 <= k < |Sections(ps)| ==> HeadingOf(ps, Sections(ps)[k].heading)
  {
    if ps != [] {
      var init := ps[..|ps| - 1];
      SectionsHeadings(init);
      var p := ps[|ps| - 1];
      var secs := Sections(init);
      var r := Sections(ps);
      assert forall k :: 0 <= k < |secs| ==> r[k].heading == secs[k].heading;
      forall k | 0 <= k < |r|
        ensures r[k].heading != "" && HeadingOf(ps, r[k].heading)
      {
        if k < |secs| {
          assert HeadingOf(init, secs[k].heading);
          var j :| 0 <= j < |init| && IsHeading(init[j]) && secs[k].heading == Strip(init[j].text);
          assert ps[j] == init[j];
        } else {
          assert r[k].heading == Strip(p.text);
          assert ps[|ps| - 1] == p;
        }
      }
    }
  }

  /** The records of a list of sections: one per section with a body, in
      order, numbered from 1, the summary being the body texts joined with
      spaces, stripped and cut to `maxLen`. */
  function SectionRecords(secs: seq<Section>, maxLen: nat): (r: seq<Record>)
    ensures |r| <= |secs|
  {
    if secs == [] then []
    else
      var init := secs[..|secs| - 1];
      var prev := SectionRecords(init, maxLen);
      var s := secs[|secs| - 1];
      if s.texts == [] then prev
      else prev + [Record(|prev| + 1, s.heading, Truncate(Strip(SpacePrefixed(s.texts)), maxLen))]
  }

  /** `t` is the heading of a section of `secs` that has a body. */
  ghost predicate BodiedHeading(secs: seq<Section>, t: string)
  {
    exists j :: 0 <= j < |secs| && secs[j].texts != [] && t == secs[j].heading
  }

  /** Every record is titled by the heading of a section with a body, and
      exactly the sections with a body give a record. */
  lemma {:induction false} SectionRecordsTitles(secs: seq<Section>, maxLen: nat)
    ensures forall k :: 0 <= k < |SectionRecords(secs, maxLen)| ==>
      BodiedHeading(secs, SectionRecords(secs, maxLen)[k].title)
  {
    if secs != [] {
      var init := secs[..|secs| - 1];
      SectionRecordsTitles(init, maxLen);
      var prev := SectionRecords(init, maxLen);
      var r := SectionRecords(secs, maxLen);
      forall k | 0 <= k < |r|
        ensures BodiedHeading(secs, r[k].title)
      {
        if k < |prev| {
          assert BodiedHeading(init, prev[k].title);
          var j :| 0 <= j < |init| && init[j].texts != [] && prev[k].title == init[j].heading;
          assert secs[j] == init[j];
        } else {
          assert r[k].title == secs[|secs| - 1].heading;
        }
      }
    }
  }

  /** The records are numbered 1, 2, ... and no summary is longer than
      `maxLen`. */
  lemma {:induction false} SectionRecordsNumbered(secs: seq<Section>, maxLen: nat)
    ensures forall k :: 0 <= k < |SectionRecords(secs, maxLen)| ==>
      SectionRecords(secs, maxLen)[k].slide == k + 1 && |SectionRecords(secs, maxLen)[k].summary| <= maxLen
  {
    if secs != [] {
      var init := secs[..|secs| - 1];
      SectionRecordsNumbered(init, maxLen);
      var prev := SectionRecords(init, maxLen);
      var r := SectionRecords(secs, maxLen);
      assert forall k :: 0 <= k < |prev| ==> r[k] == prev[k];
    }
  }

  /** Exactly the sections with a body give a record. */
  lemma {:induction false} SectionRecordsCount(secs: seq<Section>, maxLen: nat)
    ensures |SectionRecords(secs, maxLen)| == |set j | 0 <= j < |secs| && secs[j].texts != []|
  {
    if secs != [] {
      var init := secs[..|secs| - 1];
      SectionRecordsCount(init, maxLen);
      var before := set j | 0 <= j < |init| && init[j].texts != [];
      var all := set j | 0 <= j < |secs| && secs[j].texts != [];
      assert forall j :: 0 <= j < |init| ==> init[j] == secs[j];
      if secs[|secs| - 1].texts == [] {
        assert all == before;
      } else {
        assert all == before + {|secs| - 1};
      }
    }
  }

  /** The records of a word document. */
  function DocxRecords(ps: seq<Paragraph>, maxLen: nat): seq<Record>
  {
    SectionRecords(Sections(ps), maxLen)
  }

  /** What the parser's variables hold once the sections `secs` are read: no
      title and no record before the first heading; otherwise the title is
      the last heading, the body holds the texts under it, and the records
      are those of the earlier sections. */
  ghost predicate DocxState(secs: seq<Section>, title: Option<string>, body: string, results: seq<Record>, maxLen: nat)
  {
    (forall k :: 0 <= k < |secs| ==> secs[k].heading != "") &&
    if secs == [] then title == None && results == []
    else
      title == Some(secs[|secs| - 1].heading) &&
      body == SpacePrefixed(secs[|secs| - 1].texts) &&
      results == SectionRecords(secs[..|secs| - 1], maxLen)
  }

  /** The record a pending title and body flush into, if both are non-empty. */
  function Flush(results: seq<Record>, title: Option<string>, body: string, maxLen: nat): seq<Record>
  {
    if title.Some? && title.value != "" && body != "" then
      results + [Record(|results| + 1, title.value, Truncate(Strip(body), maxLen))]
    else results
  }

  /** Flushing at the end yields the records of all sections. */
  lemma FlushAll(secs: seq<Section>, title: Option<string>, body: string, results: seq<Record>, maxLen: nat)
    requires DocxState(secs, title, body, results, maxLen)
    ensures Flush(results, title, body, maxLen) == SectionRecords(secs, maxLen)
  {
    if secs != [] {
      assert secs[..|secs| - 1] + [secs[|secs| - 1]] == secs;
    }
  }

  lemma HeadingStep(secs: seq<Section>, title: Option<string>, body: string, results: seq<Record>, maxLen: nat, p: Paragraph)
    requires DocxState(secs, title, body, results, maxLen)
    requires !IsBlank(p) && IsHeading(p)
    ensures DocxState(AddParagraph(secs, p), Some(Strip(p.text)), "", Flush(results, title, body, maxLen), maxLen)
  {
    var next := AddParagraph(secs, p);
    assert next[..|next| - 1] == secs;
    FlushAll(secs, title, body, results, maxLen);
  }

  lemma BodyStep(secs: seq<Section>, title: Option<string>, body: string, results: seq<Record>, maxLen: nat, p: Paragraph)
    requires DocxState(secs, title, body, results, maxLen)
    requires !IsBlank(p) && !IsHeading(p)
    ensures DocxState(AddParagraph(secs, p), title, body + " " + Strip(p.text), results, maxLen)
  {
    if secs != [] {
      var next := AddParagraph(secs, p);
      assert next[..|next| - 1] == secs[..|secs| - 1];
    }
  }

  lemma SectionsSnoc(ps: seq<Paragraph>, i: nat)
    requires i < |ps|
    ensures Sections(ps[..i + 1]) == AddParagraph(Sections(ps[..i]), ps[i])
  {
    assert ps[..i + 1][..i] == ps[..i];
  }

  /** The word document parser: a pending title and body are flushed into a
      record when the next heading arrives and at the end, provided both are
      non-empty; the count numbers the records. */
  method ParseDocx(ps: seq<Paragraph>, maxLen: nat) returns (results: seq<Record>)
    ensures results == DocxRecords(ps, maxLen)
    ensures forall k :: 0 <= k < |results| ==> results[k].slide == k + 1 && |results[k].summary| <= maxLen
  {
    results := [];
    var title: Option<string> := None;
    var body := "";
    var count := 0;
    var i := 0;
    while i < |ps|
      invariant 0 <= i <= |ps|
      invariant count == |results|
      invariant DocxState(Sections(ps[..i]), title, body, results, maxLen)
    {
      SectionsSnoc(ps, i);
      title, body, results, count := ReadParagraph(ps[i], title, body, results, count, maxLen, Sections(ps[..i]));
      i := i + 1;
    }
    assert ps[..i] == ps;
    FlushAll(Sections(ps), title, body, results, maxLen);
    if title.Some? && title.value != "" && body != "" {
      results := results + [Record(count + 1, title.value, Truncate(Strip(body), maxLen))];
    }
    SectionRecordsNumbered(Sections(ps), maxLen);
  }

  /** One turn of the paragraph loop: a blank paragraph is skipped, a
      heading flushes the pending title and body and starts a new one, any
      other paragraph is appended to the body. The variables go from the
      state of the sections `secs` to that of `secs` with `p` added. */
  method ReadParagraph(p: Paragraph, title: Option<string>, body: string, results: seq<Record>, count: nat,
                       maxLen: nat, ghost secs: seq<Section>)
    returns (title': Option<string>, body': string, results': seq<Record>, count': nat)
    requires count == |results| && DocxState(secs, title, body, results, maxLen)
    ensures count' == |results'| && DocxState(AddParagraph(secs, p), title', body', results', maxLen)
  {
    title', body', results', count' := title, body, results, count;
    if Strip(p.text) == "" {
    } else if StartsWith(p.style, "Heading") {
      HeadingStep(secs, title, body, results, maxLen, p);
      if title.Some? && title.value != "" && body != "" {
        results' := results + [Record(count + 1, title.value, Truncate(Strip(body), maxLen))];
        count' := count + 1;
      }
      title' := Some(Strip(p.text));
      body' := "";
    } else {
      BodyStep(secs, title, body, results, maxLen, p);
      body' := body + " " + Strip(p.text);
    }
  }

  /** Paragraphs before the first heading are discarded: a lead-in without
      headings changes no section. */
  lemma {:induction false} PreambleDiscarded(pre: seq<Paragraph>, rest: seq<Paragraph>)
    requires forall k :: 0 <= k < |pre| ==> IsBlank(pre[k]) || !IsHeading(pre[k])
    ensures Sections(pre + rest) == Sections(rest)
    decreases |rest|
  {
    if rest == [] {
      assert pre + rest == pre;
      PreambleHasNoSections(pre);
    } else {
      var all := pre + rest;
      assert all[..|all| - 1] == pre + rest[..|rest| - 1];
      assert all[|all| - 1] == rest[|rest| - 1];
      PreambleDiscarded(pre, rest[..|rest| - 1]);
    }
  }

  lemma {:induction false} PreambleHasNoSections(pre: seq<Paragraph>)
    requires forall k :: 0 <= k < |pre| ==> IsBlank(pre[k]) || !IsHeading(pre[k])
    ensures Sections(pre) == []
    decreases |pre|
  {
    if pre != [] {
      var init := pre[..|pre| - 1];
      assert forall k :: 0 <= k < |init| ==> init[k] == pre[k];
      PreambleHasNoSections(init);
    }
  }

  /** A blank paragraph anywhere changes nothing. */
  lemma {:induction false} BlankSkipped(a: seq<Paragraph>, p: Paragraph, b: seq<Paragraph>)
    requires IsBlank(p)
    ensures Sections(a + [p] + b) == Sections(a + b)
    decreases |b|
  {
    if b == [] {
      var all := a + [p];
      assert all[..|all| - 1] == a;
      assert a + [p] + b == all && a + b == a;
    } else {
      var x := a + [p] + b;
      var y := a + b;
      assert x[..|x| - 1] == a + [p] + b[..|b| - 1];
      assert y[..|y| - 1] == a + b[..|b| - 1];
      assert x[|x| - 1] == b[|b| - 1] == y[|y| - 1];
      BlankSkipped(a, p, b[..|b| - 1]);
    }
  }

  /** A heading emits nothing by itself: the records of the document so far
      are only flushed, never extended, by it. */
  lemma HeadingAddsNoRecord(ps: seq<Paragraph>, h: Paragraph, maxLen: nat)
    requires IsHeading(h) && !IsBlank(h)
    ensures DocxRecords(ps + [h], maxLen) == DocxRecords(ps, maxLen)
  {
    var all := ps + [h];
    assert all[..|all| - 1] == ps;
    var secs := Sections(all);
    assert secs[..|secs| - 1] == Sections(ps);
  }

  // ---------------------------------------------------------------------
  // The course plan

  /** A table as the texts of its cells, row by row. */
  type Table = seq<seq<string>>

  /** One row of the plan table: the module title and its block titles. */
  datatype PlanEntry = PlanEntry(moduleTitle: string, blocks: seq<string>)

  /** The ways reading the plan tables fails (an index past the end). */
  datatype TableError = NoRows | NoHeaderCells | NoSecondHeaderCell | NoRowCells

  /** The header texts of a table: each cell stripped and lower-cased. */
  function HeaderCells(cells: seq<string>): (r: seq<string>)
    ensures |r| == |cells|
    ensures forall k :: 0 <= k < |r| ==> r[k] == Lower(Strip(cells[k]))
  {
    seq(|cells|, k requires 0 <= k < |cells| => Lower(Strip(cells[k])))
  }

  /** Whether a table is the module/block table: its first header contains
      "module" and its second, lower-cased again, contains "mvasc". The second
      header is only looked at when the first matches. */
  function HeaderMatch(table: Table): (r: Result<bool, TableError>)
    ensures r.Err? <==>
      table == [] || table[0] == [] || (|table[0]| == 1 && Contains(Lower(Strip(table[0][0])), "module"))
    ensures r == Ok(true) <==>
      (|table| > 0 && |table[0]| >= 2 &&
       Contains(Lower(Strip(table[0][0])), "module") && Contains(Lower(Lower(Strip(table[0][1]))), "mvasc"))
    ensures |table| > 0 && |table[0]| > 0 && !Contains(Lower(Strip(table[0][0])), "module") ==> r == Ok(false)
  {
    if table == [] then Err(NoRows)
    else
      var headers := HeaderCells(table[0]);
      if headers == [] then Err(NoHeaderCells)
      else if !Contains(headers[0], "module") then Ok(false)
      else if |headers| < 2 then Err(NoSecondHeaderCell)
      else Ok(Contains(Lower(headers[1]), "mvasc"))
  }

  /** The stripped non-empty texts of `cells`, in order. */
  function BlockCells(cells: seq<string>): (r: seq<string>)
    ensures |r| <= |cells|
  {
    if cells == [] then []
    else
      var t := Strip(cells[|cells| - 1]);
      BlockCells(cells[..|cells| - 1]) + (if t != "" then [t] else [])
  }

  /** The block titles are exactly the non-empty stripped cells. */
  lemma {:induction false} BlockCellsMembers(cells: seq<string>)
    ensures forall k :: 0 <= k < |BlockCells(cells)| ==> BlockCells(cells)[k] != ""
    ensures forall k :: 0 <= k < |cells| && Strip(cells[k]) != "" ==> Strip(cells[k]) in BlockCells(cells)
    ensures forall x :: x in BlockCells(cells) ==> StrippedCell(cells, x)
  {
    if cells != [] {
      var init := cells[..|cells| - 1];
      BlockCellsMembers(init);
      var prev := BlockCells(init);
      var t := Strip(cells[|cells| - 1]);
      var r := BlockCells(cells);
      assert r == prev + (if t != "" then [t] else []);
      assert forall k :: 0 <= k < |init| ==> init[k] == cells[k];
      forall x | x in r
        ensures StrippedCell(cells, x)
      {
        if x in prev {
          var k :| 0 <= k < |init| && Strip(init[k]) == x;
          assert cells[k] == init[k];
        } else {
          assert Strip(cells[|cells| - 1]) == x;
        }
      }
    }
  }

  /** `x` is the stripped text of some cell. */
  ghost predicate StrippedCell(cells: seq<string>, x: string)
  {
    exists k :: 0 <= k < |cells| && Strip(cells[k]) == x
  }

  /** The plan entries of the data rows of the matching table: one per row,
      the module title from its first cell and the blocks from the rest. */
  function RowsPlan(rows: seq<seq<string>>): Result<seq<PlanEntry>, TableError>
  {
    if rows == [] then Ok([])
    else
      var row := rows[|rows| - 1];
      match RowsPlan(rows[..|rows| - 1])
      case Err(e) => Err(e)
      case Ok(prev) =>
        if row == [] then Err(NoRowCells)
        else Ok(prev + [PlanEntry(Strip(row[0]), BlockCells(row[1..]))])
  }

  /** A row without cells makes reading fail; otherwise there is one entry
      per row, its module title from the first cell and its blocks from the
      others. */
  lemma {:induction false} RowsPlanFacts(rows: seq<seq<string>>)
    ensures RowsPlan(rows).Err? <==> HasEmptyRow(rows)
  {
    if rows != [] {
      var init := rows[..|rows| - 1];
      RowsPlanFacts(init);
      if HasEmptyRow(init) {
        var k :| 0 <= k < |init| && init[k] == [];
        assert rows[k] == [];
      }
      if HasEmptyRow(rows) && rows[|rows| - 1] != [] {
        var k :| 0 <= k < |rows| && rows[k] == [];
        assert init[k] == [];
      }
    }
  }

  /** When no row is empty there is one entry per row, its module title
      from the first cell and its blocks from the others. */
  lemma {:induction false} RowsPlanEntries(rows: seq<seq<string>>)
    ensures RowsPlan(rows).Ok? ==>
      (|RowsPlan(rows).value| == |rows| &&
       forall k :: 0 <= k < |rows| ==>
         |rows[k]| > 0 && RowsPlan(rows).value[k] == PlanEntry(Strip(rows[k][0]), BlockCells(rows[k][1..])))
  {
    if rows != [] {
      var init := rows[..|rows| - 1];
      RowsPlanEntries(init);
      assert forall k :: 0 <= k < |init| ==> init[k] == rows[k];
    }
  }

  /** Some row of `rows` has no cells. */
  ghost predicate HasEmptyRow(rows: seq<seq<string>>)
  {
    exists k :: 0 <= k < |rows| && rows[k] == []
  }

  /** The plan read from the tables of a document: the rows of the first
      matching table, or nothing when no table matches. */
  function PlanFromTables(tables: seq<Table>): Result<seq<PlanEntry>, TableError>
  {
    if tables == [] then Ok([])
    else
      match HeaderMatch(tables[0])
      case Err(e) => Err(e)
      case Ok(matched) => if matched then RowsPlan(tables[0][1..]) else PlanFromTables(tables[1..])
  }

  /** The table loop: stops at the first matching table. */
  method ExtractModulesBlocks(tables: seq<Table>) returns (r: Result<seq<PlanEntry>, TableError>)
    ensures r == PlanFromTables(tables)
  {
    var i := 0;
    while i < |tables|
      invariant 0 <= i <= |tables|
      invariant PlanFromTables(tables[i..]) == PlanFromTables(tables)
    {
      var table := tables[i];
      assert tables[i..][0] == table && tables[i..][1..] == tables[i + 1..];
      if table == [] {
        return Err(NoRows);
      }
      var headers := HeaderCells(table[0]);
      if headers == [] {
        return Err(NoHeaderCells);
      }
      if Contains(headers[0], "module") {
        if |headers| < 2 {
          return Err(NoSecondHeaderCell);
        }
        if Contains(Lower(headers[1]), "mvasc") {
          r := ReadRows(table[1..]);
          return;
        }
      }
      i := i + 1;
    }
    r := Ok([]);
  }

  /** The row loop of the matching table: one entry per row, failing at the
      first row without cells. The entries are returned at the `break` that
      follows the loop. */
  method ReadRows(rows: seq<seq<string>>) returns (r: Result<seq<PlanEntry>, TableError>)
    ensures r == RowsPlan(rows)
  {
    var entries: seq<PlanEntry> := [];
    var k := 0;
    while k < |rows|
      invariant 0 <= k <= |rows|
      invariant RowsPlan(rows[..k]) == Ok(entries)
    {
      var row := rows[k];
      assert rows[..k + 1][..k] == rows[..k];
      if row == [] {
        assert RowsPlan(rows[..k + 1]).Err?;
        RowsPlanErrExtends(rows, k + 1);
        return Err(NoRowCells);
      }
      entries := entries + [PlanEntry(Strip(row[0]), BlockCells(row[1..]))];
      k := k + 1;
    }
    assert rows[..k] == rows;
    r := Ok(entries);
  }

  /** A failing prefix of the rows makes the whole table fail. */
  lemma RowsPlanErrExtends(rows: seq<seq<string>>, n: nat)
    requires n <= |rows| && RowsPlan(rows[..n]).Err?
    ensures RowsPlan(rows) == Err(NoRowCells)
  {
    RowsPlanFacts(rows[..n]);
    var k :| 0 <= k < n && rows[..n][k] == [];
    assert HasEmptyRow(rows) by {
      assert rows[k] == [];
    }
    RowsPlanFacts(rows);
    assert rows[k] == [];
    RowsPlanErrIsNoRowCells(rows);
  }

  lemma {:induction false} RowsPlanErrIsNoRowCells(rows: seq<seq<string>>)
    ensures RowsPlan(rows).Err? ==> RowsPlan(rows) == Err(NoRowCells)
    decreases |rows|
  {
    if rows != [] {
      RowsPlanErrIsNoRowCells(rows[..|rows| - 1]);
    }
  }

  /** Only the first matching table is read: the tables before it are
      passed over and the tables after it are never looked at. */
  lemma {:induction false} FirstMatchOnly(tables: seq<Table>, k: nat)
    requires k < |tables|
    requires forall j :: 0 <= j < k ==> HeaderMatch(tables[j]) == Ok(false)
    requires HeaderMatch(tables[k]) == Ok(true)
    ensures PlanFromTables(tables) == RowsPlan(tables[k][1..])
    decreases k
  {
    if k > 0 {
      assert HeaderMatch(tables[0]) == Ok(false);
      var rest := tables[1..];
      assert forall j :: 0 <= j < k - 1 ==> rest[j] == tables[j + 1];
      FirstMatchOnly(rest, k - 1);
    }
  }

  /** Without a matching table the plan is empty. */
  lemma {:induction false} NoMatchEmpty(tables: seq<Table>)
    requires forall j :: 0 <= j < |tables| ==> HeaderMatch(tables[j]) == Ok(false)
    ensures PlanFromTables(tables) == Ok([])
    decreases |tables|
  {
    if tables != [] {
      var rest := tables[1..];
      assert forall j :: 0 <= j < |rest| ==> rest[j] == tables[j + 1];
      NoMatchEmpty(rest);
    }
  }
}
