/**
 * `create_csv_report`: every (title, frame) entry of the metrics dictionary
 * becomes one delimited section of a single CSV text file.
 */
module CsvReports {
  import opened Sequences

  /** A text file opened for writing. */
  class TextFile {
    var path: string
    var text: string

    /** `open(path, "w")`: the file starts empty. */
    constructor Open(path: string)
      ensures this.path == path && text == ""
    {
      this.path := path;
      text := "";
    }

    /** `file.write(s)`: appends to what was written so far. */
    method Write(s: string)
      modifies this
      ensures path == old(path) && text == old(text) + s
    {
      text := text + s;
    }
  }

  /** The line that opens a section. */
  function Header(title: string): string {
    " -- " + title + " --\n"
  }

  /** One section of the report: the delimited title, the frame's CSV text, then two newline characters (two blank lines after the CSV text's final newline). */
  function Section(title: string, body: string): string {
    Header(title) + body + "\n\n"
  }

  /** The sections of the entries (title and frame), in dictionary order; `render` is `to_csv(index=False)`. */
  function Sections<F>(entries: seq<(string, F)>, render: F -> string): (ss: seq<string>)
    ensures |ss| == |entries|
    ensures forall i :: 0 <= i < |entries| ==> ss[i] == Section(entries[i].0, render(entries[i].1))
  {
    if entries == [] then [] else [Section(entries[0].0, render(entries[0].1))] + Sections(entries[1..], render)
  }

  /** Texts written one after the other. */
  function Concat(ss: seq<string>): string {
    if ss == [] then "" else Concat(ss[..|ss| - 1]) + ss[|ss| - 1]
  }

  /** The whole report. */
  function CsvReport<F>(entries: seq<(string, F)>, render: F -> string): string {
    Concat(Sections(entries, render))
  }

  /**
   * `create_csv_report`: writes every entry as a section. The file written
   * is always "metrics_report.csv"; the `filename` argument is not used.
   */
  method CreateCsvReport<F>(entries: seq<(string, F)>, render: F -> string, filename: string)
    returns (file: TextFile)
    ensures fresh(file)
    ensures file.path == "metrics_report.csv" && file.text == CsvReport(entries, render)
  {
    file := new TextFile.Open("metrics_report.csv");
    for i := 0 to |entries|
      invariant file.path == "metrics_report.csv"
      invariant file.text == CsvReport(entries[..i], render)
    {
      var (title, frame) := entries[i];
      ghost var before := file.text;
      file.Write(Header(title));
      file.Write(render(frame));
      file.Write("\n\n");
      Assoc(before, Header(title), render(frame));
      Assoc(before, Header(title) + render(frame), "\n\n");
      CsvReportStep(entries, render, i);
    }
    assert entries[..|entries|] == entries;
  }

  /** One more entry adds its section at the end of the report. */
  lemma CsvReportStep<F>(entries: seq<(string, F)>, render: F -> string, i: nat)
    requires i < |entries|
    ensures CsvReport(entries[..i + 1], render) == CsvReport(entries[..i], render) + Section(entries[i].0, render(entries[i].1))
  {
    PrefixOfPrefix(entries, i);
    assert entries[..i + 1] == entries[..i] + [entries[i]];
    SectionsAppend(entries[..i], [entries[i]], render);
    assert Sections([entries[i]], render) == [Section(entries[i].0, render(entries[i].1))];
  }

  /** The sections of two runs of entries are the two runs of sections. */
  lemma SectionsAppend<F>(a: seq<(string, F)>, b: seq<(string, F)>, render: F -> string)
    ensures Sections(a + b, render) == Sections(a, render) + Sections(b, render)
  {
  }

  /** Writing two runs of texts is writing their concatenation. */
  lemma {:induction false} ConcatAppend(a: seq<string>, b: seq<string>)
    ensures Concat(a + b) == Concat(a) + Concat(b)
    decreases |b|
  {
    if b == [] {
      assert a + b == a;
    } else {
      AppendInit(a, b);
      ConcatAppend(a, b[..|b| - 1]);
      Assoc(Concat(a), Concat(b[..|b| - 1]), b[|b| - 1]);
    }
  }

  /** The report of two runs of entries is the two reports one after the other. */
  lemma CsvReportAppend<F>(a: seq<(string, F)>, b: seq<(string, F)>, render: F -> string)
    ensures CsvReport(a + b, render) == CsvReport(a, render) + CsvReport(b, render)
  {
    SectionsAppend(a, b, render);
    ConcatAppend(Sections(a, render), Sections(b, render));
  }

  /** The report splits around entry `i` into the sections before it, its section and the ones after it. */
  lemma SectionSplit<F>(entries: seq<(string, F)>, render: F -> string, i: nat)
    requires i < |entries|
    ensures CsvReport(entries, render)
         == CsvReport(entries[..i], render) + Section(entries[i].0, render(entries[i].1)) + CsvReport(entries[i + 1..], render)
  {
    var e := entries[i];
    CsvReportSingle(e, render);
    SplitAt(entries, i);
    CsvReportAppend(entries[..i] + [e], entries[i + 1..], render);
    CsvReportAppend(entries[..i], [e], render);
  }

  /** The report of one entry is its section. */
  lemma CsvReportSingle<F>(e: (string, F), render: F -> string)
    ensures CsvReport([e], render) == Section(e.0, render(e.1))
  {
    var section := Section(e.0, render(e.1));
    assert Sections([e], render) == [section];
    assert [section][..0] == [];
    assert Concat([section]) == "" + section;
  }

  /** Section `i` sits right after the sections before it: its header line starts there. */
  lemma SectionAt<F>(entries: seq<(string, F)>, render: F -> string, i: nat)
    requires i < |entries|
    ensures var report, at, header := CsvReport(entries, render), |CsvReport(entries[..i], render)|, Header(entries[i].0);
            && at + |header| <= |report|
            && report[at..at + |header|] == header
  {
    var header := Header(entries[i].0);
    var section := Section(entries[i].0, render(entries[i].1));
    SectionSplit(entries, render, i);
    var before, after := CsvReport(entries[..i], render), CsvReport(entries[i + 1..], render);
    var body := render(entries[i].1) + "\n\n";
    Assoc(header, render(entries[i].1), "\n\n");
    Assoc(before, header, body);
    Assoc(before + header, body, after);
    Middle(before, header, body + after);
  }

}
