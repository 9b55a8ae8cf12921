/** `generate_pdf_report` and `run_report_generation`: the report's file
    name, derived from the topic, and the sequence of flowables the report
    is built from, with each analysis section either parsed or replaced by
    a note that it is missing. The PDF rendering itself is a parameter:
    `built` says whether `doc.build` went through. A `Paragraph` whose
    markup reportlab cannot parse raises while the story is assembled,
    before `doc.build`; the exception reaches the handler of
    `run_report_generation`, so that case also has `built == false`: no
    file is written and nothing is returned. */
module ReportGeneration {
  import opened Text
  import opened Values
  import opened Filenames
  import opened ReportItems
  import opened MarkdownTable
  import opened StructuredText
  import Analyses

  const ReportsDir: string := "reports"
  const SlugLength: nat := 50
  const DefaultSlug: string := "report"
  const ReportSuffix: string := "_research_report.pdf"

  // The fixed texts of the report.
  const ReportTitle: string := "AI-Generated Research Report"
  const TopicLabel: string := "Topic: "
  const StampLabel: string := "Generated on: "
  const SurveyMissing: string := "Literature survey data not found."
  const SurveyUnparsed: string := "Could not parse literature survey table. Displaying raw content:"
  const SurveyTitle: string := "1. Enhanced Literature Survey"
  const GapTitle: string := "2. Research Gap Analysis"
  const GapMissing: string := "Research gap analysis not generated or found."
  const GapCheckTitle: string := "3. Verification Report (Gap Analysis)"
  const GapCheckMissing: string := "Verification report for Gap Analysis not generated or found."
  const ProposalTitle: string := "4. Future Research Proposal"
  const ProposalMissing: string := "Future research proposal not generated or found."
  const ProposalCheckTitle: string := "5. Verification Report (Future Proposal)"
  const ProposalCheckMissing: string := "Verification report for Future Proposal not generated or found."

  // ---------------------------------------------------------------------
  // The file name (lines 109-111).

  /** The `re.sub` of line 109: the characters `sanitize_filename` would
      replace are removed instead. */
  function RemoveUnsafe(s: string): (r: string)
    ensures |r| <= |s|
    ensures forall i :: 0 <= i < |r| ==> !Unsafe(r[i])
    decreases |s|
  {
    if s == [] then []
    else (if Unsafe(s[0]) then [] else [s[0]]) + RemoveUnsafe(s[1..])
  }

  /** `safe_topic`: the topic without unsafe characters, cut to 50
      characters, stripped, with every space turned into `_`; `report` when
      nothing is left. */
  function Slug(topic: string): string {
    var cut := Strip(Prefix(RemoveUnsafe(topic), SlugLength));
    var slug := Replace(cut, " ", "_");
    if slug == "" then DefaultSlug else slug
  }

  /** `os.path.join(REPORTS_DIR, f"{safe_topic}_research_report.pdf")`. */
  function ReportPath(topic: string): string {
    ReportsDir + "/" + Slug(topic) + ReportSuffix
  }

  // ---------------------------------------------------------------------
  // The report (lines 117-190).

  /** The five analyses read from the database: `None` when there is no
      row. */
  datatype Sections = Sections(
    survey: Option<string>,
    gap: Option<string>,
    gapCheck: Option<string>,
    proposal: Option<string>,
    proposalCheck: Option<string>)

  /** Lines 209-214: the latest row of each analysis type. */
  function SectionsOf(t: Analyses.Table): Sections {
    Sections(Analyses.Latest(t, Analyses.Survey), Analyses.Latest(t, Analyses.Gap),
             Analyses.Latest(t, Analyses.GapCheck), Analyses.Latest(t, Analyses.Proposal),
             Analyses.Latest(t, Analyses.ProposalCheck))
  }

  /** A section heading and the spacer under it. */
  function Heading(title: string): seq<Item> {
    [Para(Heading2, title), Spacer]
  }

  /** The title page; `titled` stands for `topic.title()` and `stamp` for
      the formatted clock. */
  function TitlePage(titled: string, stamp: string): seq<Item> {
    [Para(Heading1, ReportTitle), Spacer,
     Para(Heading2, TopicLabel + titled), Spacer,
     Para(Normal, StampLabel + stamp), PageBreak]
  }

  /** Lines 130-158: the survey as a table when it parses to one with a
      header cell, otherwise a note and the survey as structured text. */
  function SurveyBody(survey: Option<string>): seq<Item> {
    if !TruthyText(survey) then [Para(Italic, SurveyMissing)]
    else
      var table := ParsedTable(survey);
      if |table| > 0 && |table[0]| > 0 then [Table(table)]
      else [Para(Italic, SurveyUnparsed)] + Story(survey)
  }

  /** A section that is either parsed as structured text or replaced by
      the note that it is missing. */
  function TextBody(text: Option<string>, missing: string): seq<Item> {
    if TruthyText(text) then Story(text) else [Para(Italic, missing)]
  }

  /** The survey section: its heading and its body. */
  function SurveySection(survey: Option<string>): seq<Item> {
    Heading(SurveyTitle) + SurveyBody(survey)
  }

  /** One of the four sections of structured text. */
  function TextSection(title: string, text: Option<string>, missing: string): seq<Item> {
    Heading(title) + TextBody(text, missing)
  }

  /** The flowables of the report, in order. */
  function ReportStory(titled: string, stamp: string, s: Sections): seq<Item> {
    TitlePage(titled, stamp)
    + SurveySection(s.survey) + [PageBreak]
    + TextSection(GapTitle, s.gap, GapMissing) + [PageBreak]
    + TextSection(GapCheckTitle, s.gapCheck, GapCheckMissing) + [PageBreak]
    + TextSection(ProposalTitle, s.proposal, ProposalMissing) + [PageBreak]
    + TextSection(ProposalCheckTitle, s.proposalCheck, ProposalCheckMissing)
  }

  /** What `generate_pdf_report` built and returned. */
  datatype Report = Report(path: string, story: seq<Item>, returned: Option<string>)

  function GeneratePdfReport(topic: string, titled: string, stamp: string, s: Sections, built: bool): Report {
    var path := ReportPath(topic);
    Report(path, ReportStory(titled, stamp, s), if built then Some(path) else None)
  }

  /** How `run_report_generation` ended: no database connection, none of
      the three essential analyses found, or a report generated. */
  datatype ReportRun = NoConnection | Skipped | Generated(report: Report)

  /** `run_report_generation(topic)` over the analyses table `t`. */
  function RunReportGeneration(connected: bool, topic: string, titled: string, stamp: string,
                               t: Analyses.Table, built: bool): ReportRun {
    var s := SectionsOf(t);
    if !connected then NoConnection
    else if TruthyText(s.survey) || TruthyText(s.gap) || TruthyText(s.proposal) then
      Generated(GeneratePdfReport(topic, titled, stamp, s, built))
    else Skipped
  }

  // ---------------------------------------------------------------------
  // Properties of the file name.

  /** Removing unsafe characters works piece by piece: the result for two
      pieces is the results for each, in order. */
  lemma {:induction false} RemoveUnsafeAppend(a: string, b: string)
    ensures RemoveUnsafe(a + b) == RemoveUnsafe(a) + RemoveUnsafe(b)
    decreases |a|
  {
    if a == [] {
      assert a + b == b;
    } else {
      var head := if Unsafe(a[0]) then [] else [a[0]];
      assert (a + b)[1..] == a[1..] + b;
      assert RemoveUnsafe(a + b) == head + RemoveUnsafe(a[1..] + b);
      RemoveUnsafeAppend(a[1..], b);
      assert RemoveUnsafe(a) == head + RemoveUnsafe(a[1..]);
    }
  }

  /** A string without unsafe characters is left as it is, and only
      such a string is. */
  lemma {:induction false} RemoveUnsafeKeepsSafe(s: string)
    ensures RemoveUnsafe(s) == s <==> forall i :: 0 <= i < |s| ==> !Unsafe(s[i])
    decreases |s|
  {
    if s != [] {
      RemoveUnsafeKeepsSafe(s[1..]);
      if Unsafe(s[0]) {
        assert |RemoveUnsafe(s)| < |s|;
      } else {
        assert forall i :: 1 <= i < |s| ==> s[i] == s[1..][i - 1];
      }
    }
  }

  /** The slug is never empty, has at most 50 characters, no unsafe
      character, no space, and no white space at either end. */
  lemma SlugShape(topic: string)
    ensures var slug := Slug(topic);
      && slug != []
      && |slug| <= SlugLength
      && (forall i :: 0 <= i < |slug| ==> !Unsafe(slug[i]) && slug[i] != ' ')
      && !IsSpace(slug[0]) && !IsSpace(slug[|slug| - 1])
  {
    var cut := Strip(Prefix(RemoveUnsafe(topic), SlugLength));
    CutShape(topic);
    ReplaceCharPointwise(cut, ' ', '_');
    var slug := Replace(cut, [' '], ['_']);
    if slug != [] {
      assert slug[0] == '_' || slug[0] == cut[0];
      assert slug[|slug| - 1] == '_' || slug[|slug| - 1] == cut[|cut| - 1];
    }
  }

  /** Before the spaces are replaced: at most 50 safe characters, with no
      white space at either end. */
  lemma CutShape(topic: string)
    ensures var cut := Strip(Prefix(RemoveUnsafe(topic), SlugLength));
      && |cut| <= SlugLength
      && (forall i :: 0 <= i < |cut| ==> !Unsafe(cut[i]))
  {
    var safe := Prefix(RemoveUnsafe(topic), SlugLength);
    var cut := Strip(safe);
    var k := StripSlice(safe);
    forall i | 0 <= i < |cut| ensures !Unsafe(cut[i]) {
      assert cut[i] == safe[k + i];
      assert safe[k + i] == RemoveUnsafe(topic)[k + i];
    }
  }


  /** A topic that is already a short, safe name without white space at
      its ends keeps every character, with spaces turned into `_`. */
  lemma SafeTopicSlug(topic: string)
    requires topic != [] && |topic| <= SlugLength
    requires forall i :: 0 <= i < |topic| ==> !Unsafe(topic[i])
    requires !IsSpace(topic[0]) && !IsSpace(topic[|topic| - 1])
    ensures |Slug(topic)| == |topic|
    ensures forall i :: 0 <= i < |topic| ==> Slug(topic)[i] == if topic[i] == ' ' then '_' else topic[i]
  {
    RemoveUnsafeKeepsSafe(topic);
    StripUnchanged(topic);
    ReplaceCharPointwise(topic, ' ', '_');
  }

  /** The slug of a slug is itself. */
  lemma SlugIdempotent(topic: string)
    ensures Slug(Slug(topic)) == Slug(topic)
  {
    var slug := Slug(topic);
    SlugShape(topic);
    SafeTopicSlug(slug);
    ReplaceCharPointwise(slug, ' ', '_');
    assert Slug(slug) == slug;
  }

  /** A topic of nothing but unsafe characters and white space gives the
      fallback name `report`. */
  lemma NothingLeftGivesDefault(topic: string)
    requires forall i :: 0 <= i < |topic| ==> Unsafe(topic[i]) || IsSpace(topic[i])
    ensures Slug(topic) == DefaultSlug
  {
    var safe := Prefix(RemoveUnsafe(topic), SlugLength);
    AllSpaceAfterRemoval(topic);
    AllSpaceStripsAway(safe);
  }

  lemma {:induction false} AllSpaceStripsAway(s: string)
    requires forall i :: 0 <= i < |s| ==> IsSpace(s[i])
    ensures Strip(s) == []
    decreases |s|
  {
    if s != [] {
      AllSpaceStripsAway(s[1..]);
    }
  }

  lemma {:induction false} AllSpaceAfterRemoval(topic: string)
    requires forall i :: 0 <= i < |topic| ==> Unsafe(topic[i]) || IsSpace(topic[i])
    ensures forall i :: 0 <= i < |RemoveUnsafe(topic)| ==> IsSpace(RemoveUnsafe(topic)[i])
    decreases |topic|
  {
    if topic != [] {
      AllSpaceAfterRemoval(topic[1..]);
    }
  }

  /** The report is written directly inside `reports/`: the path has one
      `/`, the one after the directory, and ends in the fixed suffix. */
  lemma ReportPathInReports(topic: string)
    ensures var p := ReportPath(topic);
      && StartsWith(p, ReportsDir + "/")
      && EndsWith(p, ReportSuffix)
      && CountChar(p, '/') == 1
  {
    SlugHasNoSlash(topic);
    LiteralsHaveNoSlash();
    OneSlash(ReportsDir, Slug(topic), ReportSuffix);
  }

  lemma SlugHasNoSlash(topic: string)
    ensures CountChar(Slug(topic), '/') == 0
  {
    SlugShape(topic);
    assert '/' !in Slug(topic) by {
      forall i | 0 <= i < |Slug(topic)| ensures Slug(topic)[i] != '/' {
        assert !Unsafe(Slug(topic)[i]);
      }
    }
    NoCharCount(Slug(topic), '/');
  }

  lemma LiteralsHaveNoSlash()
    ensures CountChar(ReportsDir, '/') == 0 && CountChar(ReportSuffix, '/') == 0
  {
    NoCharCount(ReportSuffix, '/');
    NoCharCount(ReportsDir, '/');
  }

  lemma OneSlash(dir: string, name: string, suffix: string)
    requires CountChar(dir, '/') == 0 && CountChar(name, '/') == 0 && CountChar(suffix, '/') == 0
    ensures var p := dir + "/" + name + suffix;
      StartsWith(p, dir + "/") && EndsWith(p, suffix) && CountChar(p, '/') == 1
  {
    var p := dir + "/" + name + suffix;
    assert p[..|dir + "/"|] == dir + "/";
    assert p[|p| - |suffix|..] == suffix;
    assert CountChar("/", '/') == 1;
    CountCharAppend(dir, "/", '/');
    CountCharAppend(dir + "/", name, '/');
    CountCharAppend(dir + "/" + name, suffix, '/');
  }

  lemma {:induction false} NoCharCount(s: string, c: char)
    requires c !in s
    ensures CountChar(s, c) == 0
    decreases |s|
  {
    if s != [] {
      assert s[|s| - 1] in s;
      assert forall x :: x in s[..|s| - 1] ==> x in s;
      NoCharCount(s[..|s| - 1], c);
    }
  }

  // ---------------------------------------------------------------------
  // Properties of the report.

  /** A report is generated exactly when there is a connection and one of
      the survey, the gap analysis or the proposal was found; the two
      verification reports alone do not make a report. */
  lemma GeneratedOnlyWithEssentials(connected: bool, topic: string, titled: string, stamp: string,
                                    t: Analyses.Table, built: bool)
    ensures var r := RunReportGeneration(connected, topic, titled, stamp, t, built);
      && (r.Generated? <==> connected && (TruthyText(Analyses.Latest(t, Analyses.Survey))
                                          || TruthyText(Analyses.Latest(t, Analyses.Gap))
                                          || TruthyText(Analyses.Latest(t, Analyses.Proposal))))
      && (r.Generated? ==> r.report.path == ReportPath(topic)
                           && r.report.story == ReportStory(titled, stamp, SectionsOf(t))
                           && (r.report.returned.Some? <==> built)
                           && (built ==> r.report.returned == Some(ReportPath(topic))))
  {
    var s := SectionsOf(t);
    assert s.survey == Analyses.Latest(t, Analyses.Survey);
    assert s.gap == Analyses.Latest(t, Analyses.Gap);
    assert s.proposal == Analyses.Latest(t, Analyses.Proposal);
  }

  /** The survey is shown as a table exactly when it has a table line, and
      the table then has a non-empty header and rows of its width. */
  lemma SurveyAsTable(survey: Option<string>)
    requires TruthyText(survey)
    ensures var body := SurveyBody(survey);
      && (body[0].Table? <==> ValidLines(TableLines(survey.value)) != [])
      && (body[0].Table? ==> body == [Table(ParsedTable(survey))]
                              && |body[0].rows[0]| >= 1
                              && forall i :: 1 <= i < |body[0].rows| ==> |body[0].rows[i]| == |body[0].rows[0]|)
      && (!body[0].Table? ==> body[1..] == Story(survey))
  {
    TableShape(survey);
  }

  /** Number of page breaks at the top level of a story. */
  function Breaks(story: seq<Item>): nat
    decreases |story|
  {
    if story == [] then 0
    else Breaks(story[..|story| - 1]) + (if story[|story| - 1].PageBreak? then 1 else 0)
  }

  lemma {:induction false} BreaksAppend(a: seq<Item>, b: seq<Item>)
    ensures Breaks(a + b) == Breaks(a) + Breaks(b)
    decreases |b|
  {
    if b == [] {
      assert a + b == a;
    } else {
      assert (a + b)[..|a + b| - 1] == a + b[..|b| - 1];
      BreaksAppend(a, b[..|b| - 1]);
    }
  }

  /** A story of paragraphs and spacers holds no page break. */
  lemma {:induction false} NoBreaks(story: seq<Item>)
    requires forall i :: 0 <= i < |story| ==> !story[i].PageBreak?
    ensures Breaks(story) == 0
    decreases |story|
  {
    if story != [] {
      NoBreaks(story[..|story| - 1]);
    }
  }

  /** Parsed text never breaks a page. */
  lemma StoryHasNoBreaks(text: Option<string>)
    ensures Breaks(Story(text)) == 0
  {
    if text.Some? && text.value != "" {
      StoryShape(Paragraphs(Strip(Embolden(text.value))));
    }
    NoBreaks(Story(text));
  }

  /** Whatever was found, the report has its title page and five sections,
      each starting on a new page: five page breaks in all. */
  lemma FiveSectionsFivePages(titled: string, stamp: string, s: Sections)
    ensures Breaks(ReportStory(titled, stamp, s)) == 5
  {
    var title := TitlePage(titled, stamp);
    var p1 := SurveySection(s.survey);
    var p2 := TextSection(GapTitle, s.gap, GapMissing);
    var p3 := TextSection(GapCheckTitle, s.gapCheck, GapCheckMissing);
    var p4 := TextSection(ProposalTitle, s.proposal, ProposalMissing);
    var p5 := TextSection(ProposalCheckTitle, s.proposalCheck, ProposalCheckMissing);
    TitlePageBreaks(titled, stamp);
    SurveySectionBreaks(s.survey);
    TextSectionBreaks(GapTitle, s.gap, GapMissing);
    TextSectionBreaks(GapCheckTitle, s.gapCheck, GapCheckMissing);
    TextSectionBreaks(ProposalTitle, s.proposal, ProposalMissing);
    TextSectionBreaks(ProposalCheckTitle, s.proposalCheck, ProposalCheckMissing);
    BreaksOfPages(title, p1, p2, p3, p4, p5);
  }

  /** A title page with one break, then five sections without any, each
      after the first one preceded by a break: five breaks. */
  lemma BreaksOfPages(title: seq<Item>, p1: seq<Item>, p2: seq<Item>, p3: seq<Item>, p4: seq<Item>, p5: seq<Item>)
    requires Breaks(title) == 1
    requires Breaks(p1) == 0 && Breaks(p2) == 0 && Breaks(p3) == 0 && Breaks(p4) == 0 && Breaks(p5) == 0
    ensures Breaks(title + p1 + [PageBreak] + p2 + [PageBreak] + p3 + [PageBreak] + p4 + [PageBreak] + p5) == 5
  {
    var b := [PageBreak];
    assert Breaks(b) == 1 by {
      assert b[..0] == [];
    }
    var s1 := title + p1;
    BreaksAppend(title, p1);
    var s2 := s1 + b + p2;
    BreaksAppend(s1, b);
    BreaksAppend(s1 + b, p2);
    var s3 := s2 + b + p3;
    BreaksAppend(s2, b);
    BreaksAppend(s2 + b, p3);
    var s4 := s3 + b + p4;
    BreaksAppend(s3, b);
    BreaksAppend(s3 + b, p4);
    BreaksAppend(s4, b);
    BreaksAppend(s4 + b, p5);
  }

  lemma TitlePageBreaks(titled: string, stamp: string)
    ensures Breaks(TitlePage(titled, stamp)) == 1
  {
    var t := TitlePage(titled, stamp);
    NoBreaks(t[..5]);
    assert t == t[..5] + [PageBreak];
    BreaksAppend(t[..5], [PageBreak]);
  }

  lemma SurveySectionBreaks(survey: Option<string>)
    ensures Breaks(SurveySection(survey)) == 0
  {
    var title := SurveyTitle;
    var body := SurveyBody(survey);
    var table := ParsedTable(survey);
    if TruthyText(survey) && !(|table| > 0 && |table[0]| > 0) {
      StoryHasNoBreaks(survey);
      var note := [Para(Italic, SurveyUnparsed)];
      NoBreaks(note);
      BreaksAppend(note, Story(survey));
    } else {
      NoBreaks(body);
    }
    NoBreaks(Heading(title));
    BreaksAppend(Heading(title), body);
  }

  lemma TextSectionBreaks(title: string, text: Option<string>, missing: string)
    ensures Breaks(TextSection(title, text, missing)) == 0
  {
    var body := TextBody(text, missing);
    if TruthyText(text) {
      StoryHasNoBreaks(text);
    } else {
      NoBreaks(body);
    }
    NoBreaks(Heading(title));
    BreaksAppend(Heading(title), body);
  }
}
