/**
  The two ZIP uploads. The first (`procesar_zip_reportes`) takes `.pdf`,
  `.docx` and `.txt` entries, skips those it cannot read, and identifies
  each report's company by fuzzy matching. The older admin upload
  (`ZipArchivoAdmin.save_model`) takes `.docx` and `.txt` entries and
  identifies the company by substring; the `post_save` signal of the report
  then counts the stored file's words and accumulates them.
 */
module Ingest {
  import opened Base
  import opened Text
  import opened Utf8
  import opened Store
  import opened Records
  import opened Identify
  import opened Extract
  import opened Analyser

  /**
    One ZIP entry: its name, its bytes, the pages the PDF reader finds in it
    (`None` when the conversion raises) and the paragraphs the Word parser
    finds in it (`None` when parsing raises).
   */
  datatype ZipEntry = ZipEntry(name: string, data: seq<uint8>, pages: Option<seq<PdfPage>>, paragraphs: Option<seq<string>>)

  /** The name the file storage gives an uploaded file: `upload_to='reportes/'` and the entry's base name. */
  function StoredName(name: string): string
  {
    "reportes/" + Basename(name)
  }

  /** The stored file keeps the entry's base name, and a report saved without a name takes that base name. */
  lemma StoredNameSpec(name: string)
    ensures Basename(StoredName(name)) == Basename(name)
    ensures NameOnSave("", StoredName(name)) == Basename(name)
    ensures EndsWith(StoredName(name), Basename(name))
  {
    var b := Basename(name);
    BasenameSpec(name);
    BasenameAppend("reportes/", b);
    assert Basename("reportes/") == [];
    assert ("reportes/" + b)[|"reportes/"|..] == b;
  }

  /** The three accepted extensions exclude each other. */
  lemma ExtensionsExclusive(s: string)
    ensures EndsWith(s, ".pdf") ==> !EndsWith(s, ".docx") && !EndsWith(s, ".txt")
    ensures EndsWith(s, ".txt") ==> !EndsWith(s, ".docx")
  {
    if |s| >= 4 {
      assert s[|s| - 4..][0] == s[|s| - 4] && s[|s| - 4..][1] == s[|s| - 3];
      assert |s| >= 5 ==> s[|s| - 5..][1] == s[|s| - 4];
    }
  }

  // ---------------------------------------------------------------------------
  // procesar_zip_reportes
  // ---------------------------------------------------------------------------

  /** The entry-name filter: names ending, case-sensitively, in ".pdf", ".docx" or ".txt". */
  predicate ZipAccepts(name: string) {
    EndsWith(name, ".pdf") || EndsWith(name, ".docx") || EndsWith(name, ".txt")
  }

  /**
    The text read from an accepted entry, or `None` when the entry is
    skipped: a PDF is converted to a Word document whose paragraphs are
    joined with "\n"; a Word document's paragraphs are joined likewise; a
    text file is decoded as UTF-8 dropping invalid bytes, with universal
    newlines.
   */
  function ZipEntryText(e: ZipEntry): Option<string>
  {
    if EndsWith(e.name, ".pdf") then
      match e.pages
      case None => None
      case Some(pages) => Some(JoinWith("\n", DocumentParagraphs(pages)))
    else if EndsWith(e.name, ".docx") then
      match e.paragraphs
      case None => None
      case Some(ps) => Some(JoinWith("\n", ps))
    else if EndsWith(e.name, ".txt") then Some(TranslateNewlines(DecodeIgnoring(e.data)))
    else None
  }

  /** The report saved for one entry, or `None` when the entry is filtered out or skipped. */
  function ZipReport(catalog: seq<Company>, e: ZipEntry, similar: Similarity): Option<ReportRow>
  {
    match ZipEntryText(e)
    case None => None
    case Some(text) =>
      var archivo := StoredName(e.name);
      Some(ReportRow(NameOnSave("", archivo), archivo, ResolveFuzzy(catalog, text, similar), DetectYear(text)))
  }

  /** The rows one entry adds: its report, or nothing. */
  function ZipReportRows(catalog: seq<Company>, e: ZipEntry, similar: Similarity): seq<ReportRow>
  {
    match ZipReport(catalog, e, similar)
    case None => []
    case Some(row) => [row]
  }

  /** The reports saved for the entries, in entry order. */
  function ZipReports(catalog: seq<Company>, entries: seq<ZipEntry>, similar: Similarity): seq<ReportRow>
  {
    if entries == [] then []
    else
      var last := entries[|entries| - 1];
      ZipReports(catalog, entries[..|entries| - 1], similar) + ZipReportRows(catalog, last, similar)
  }

  /** The number of entries that pass the filter and can be read. */
  function Surviving(entries: seq<ZipEntry>): (n: nat)
    ensures n <= |entries|
  {
    if entries == [] then 0
    else Surviving(entries[..|entries| - 1]) + (if ZipEntryText(entries[|entries| - 1]).Some? then 1 else 0)
  }

  /**
    Which entries survive: exactly the accepted ones, except a PDF whose
    conversion fails and a Word document that cannot be parsed; a text file
    always survives, whatever its bytes.
   */
  lemma ZipEntryTextSpec(e: ZipEntry)
    ensures ZipEntryText(e).Some? ==> ZipAccepts(e.name)
    ensures EndsWith(e.name, ".pdf") ==> (ZipEntryText(e).None? <==> e.pages.None?)
    ensures EndsWith(e.name, ".docx") ==> (ZipEntryText(e).None? <==> e.paragraphs.None?)
    ensures EndsWith(e.name, ".txt") ==> ZipEntryText(e).Some?
  {
    ExtensionsExclusive(e.name);
  }

  /** One report per surviving entry, and every entry of a PDF, Word or text file that cannot be read adds none. */
  lemma {:induction false} ZipReportsCount(catalog: seq<Company>, entries: seq<ZipEntry>, similar: Similarity)
    ensures |ZipReports(catalog, entries, similar)| == Surviving(entries)
  {
    if entries != [] {
      ZipReportsCount(catalog, entries[..|entries| - 1], similar);
    }
  }

  /**
    Each saved report is named after its entry's base name, stores the file
    under "reportes/", carries a year that is 0 or between 1900 and 2099, and a
    company of the catalog (or none only when nothing matched and there is no
    sentinel).
   */
  lemma {:induction false} ZipReportsSpec(catalog: seq<Company>, entries: seq<ZipEntry>, similar: Similarity)
    ensures forall r :: r in ZipReports(catalog, entries, similar) ==>
              && (exists e :: e in entries && r.archivo == StoredName(e.name) && r.nombre == Basename(e.name) && ZipAccepts(e.name))
              && (r.anio == 0 || 1900 <= r.anio <= 2099)
              && (r.empresa.Some? ==> r.empresa.value < |catalog|)
              && (r.empresa.None? ==> FirstSentinel(catalog).None?)
  {
    if entries != [] {
      var init := entries[..|entries| - 1];
      var last := entries[|entries| - 1];
      ZipReportsSpec(catalog, init, similar);
      forall r | r in ZipReports(catalog, entries, similar)
        ensures exists e :: e in entries && r.archivo == StoredName(e.name) && r.nombre == Basename(e.name) && ZipAccepts(e.name)
        ensures r.anio == 0 || 1900 <= r.anio <= 2099
        ensures r.empresa.Some? ==> r.empresa.value < |catalog|
        ensures r.empresa.None? ==> FirstSentinel(catalog).None?
      {
        if r in ZipReports(catalog, init, similar) {
          var e :| e in init && r.archivo == StoredName(e.name) && r.nombre == Basename(e.name) && ZipAccepts(e.name);
          assert e in entries;
        } else {
          var text := ZipEntryText(last).value;
          assert r == ZipReport(catalog, last, similar).value;
          ZipEntryTextSpec(last);
          StoredNameSpec(last.name);
          DetectYearSpec(text);
          ResolveFuzzySpec(catalog, text, similar);
        }
      }
    }
  }

  /**
    Conversely, every entry that passes the filter and can be read has its
    report among those saved: named after the entry's base name, with the
    stored file, the company resolved from its text and the year detected in it.
   */
  lemma {:induction false} ZipReportsComplete(catalog: seq<Company>, entries: seq<ZipEntry>, similar: Similarity)
    ensures forall e :: e in entries && ZipEntryText(e).Some? ==>
              ReportRow(Basename(e.name), StoredName(e.name), ResolveFuzzy(catalog, ZipEntryText(e).value, similar),
                        DetectYear(ZipEntryText(e).value)) in ZipReports(catalog, entries, similar)
  {
    if entries != [] {
      var init := entries[..|entries| - 1];
      var last := entries[|entries| - 1];
      ZipReportsComplete(catalog, init, similar);
      forall e | e in entries && ZipEntryText(e).Some?
        ensures ReportRow(Basename(e.name), StoredName(e.name), ResolveFuzzy(catalog, ZipEntryText(e).value, similar),
                          DetectYear(ZipEntryText(e).value)) in ZipReports(catalog, entries, similar)
      {
        if e !in init {
          assert e == last;
          StoredNameSpec(e.name);
        }
      }
    }
  }

  /**
    `procesar_zip_reportes`: for each entry that passes the filter and can be
    read, detects the year and the company and saves a report with the
    entry's file.
   */
  method ProcessZip(db: Database, entries: seq<ZipEntry>, similar: Similarity)
    requires db.Valid()
    modifies db
    ensures db.reports == old(db.reports) + ZipReports(old(db.companies), entries, similar)
    ensures db.provinces == old(db.provinces) && db.companies == old(db.companies)
    ensures db.words == old(db.words) && db.counts == old(db.counts)
    ensures db.Valid()
  {
    ghost var start := db.reports;
    ghost var catalog := db.companies;
    var i := 0;
    while i < |entries|
      invariant 0 <= i <= |entries|
      invariant db.reports == start + ZipReports(catalog, entries[..i], similar)
      invariant db.provinces == old(db.provinces) && db.companies == catalog
      invariant db.words == old(db.words) && db.counts == old(db.counts)
      invariant db.Valid()
    {
      ZipReportsSnoc(catalog, entries, similar, i);
      ProcessZipEntry(db, entries[i], similar);
      i := i + 1;
    }
    assert entries[..i] == entries;
  }

  /** The reports of one more entry are those so far followed by that entry's. */
  lemma ZipReportsSnoc(catalog: seq<Company>, entries: seq<ZipEntry>, similar: Similarity, i: nat)
    requires i < |entries|
    ensures ZipReports(catalog, entries[..i + 1], similar) ==
            ZipReports(catalog, entries[..i], similar) + ZipReportRows(catalog, entries[i], similar)
  {
    assert entries[..i + 1][..i] == entries[..i];
  }

  /** One entry of `procesar_zip_reportes`: skipped, or read and saved as a report. */
  method ProcessZipEntry(db: Database, e: ZipEntry, similar: Similarity)
    requires db.Valid()
    modifies db
    ensures db.reports == old(db.reports) + ZipReportRows(old(db.companies), e, similar)
    ensures db.provinces == old(db.provinces) && db.companies == old(db.companies)
    ensures db.words == old(db.words) && db.counts == old(db.counts)
    ensures db.Valid()
  {
    var read := ReadZipEntry(e);
    if read.None? {
      return;
    }
    var text := read.value;
    var anio := DetectYear(text);
    var empresa := ResolveCompanyFuzzy(db.companies, text, similar);
    ResolveFuzzySpec(db.companies, text, similar);
    var reporte := new Reporte(StoredName(e.name), empresa, anio);
    var _ := reporte.Save(db);
  }

  /** Reads an entry's text: converts a PDF, parses a Word file, decodes a text file; `None` to skip it. */
  method ReadZipEntry(e: ZipEntry) returns (text: Option<string>)
    ensures text == ZipEntryText(e)
  {
    if EndsWith(e.name, ".pdf") {
      if e.pages.None? {
        return None;
      }
      var paragraphs := AssemblePdf(e.pages.value);
      return Some(JoinWith("\n", paragraphs));
    } else if EndsWith(e.name, ".docx") {
      if e.paragraphs.None? {
        return None;
      }
      return Some(JoinWith("\n", e.paragraphs.value));
    } else if EndsWith(e.name, ".txt") {
      return Some(TranslateNewlines(DecodeIgnoring(e.data)));
    }
    return None;
  }

  // ---------------------------------------------------------------------------
  // ZipArchivoAdmin.save_model and the post_save signal
  // ---------------------------------------------------------------------------

  /** The admin's entry-name filter: names ending, case-sensitively, in ".docx" or ".txt". */
  predicate AdminAccepts(name: string) {
    EndsWith(name, ".docx") || EndsWith(name, ".txt")
  }

  /** Why an admin upload stops. */
  datatype UploadError =
    | UnreadableEntry(name: string)  // the Word parser raises on an entry
    | CountFailed(error: CountError) // the word count of a saved report raises

  /** The text the admin reads from an accepted entry (no newline translation), or `None` when the Word parser fails. */
  function AdminEntryText(e: ZipEntry): Option<string>
    requires AdminAccepts(e.name)
  {
    if EndsWith(e.name, ".docx") then
      match e.paragraphs
      case None => None
      case Some(ps) => Some(JoinWith("\n", ps))
    else Some(DecodeIgnoring(e.data))
  }

  /** The stored file of a report as the signal hands it to the word counter. */
  function StoredFileOf(e: ZipEntry): StoredFile
  {
    StoredFile(StoredName(e.name), e.data, e.paragraphs)
  }

  /** The tables an upload changes. */
  datatype Tables = Tables(reports: seq<ReportRow>, words: seq<string>, counts: seq<CountRow>)

  /** `procesar_reporte`: once report `id` is created with its file, count the file's words and accumulate them. */
  function AfterCreate(t: Tables, id: nat, f: StoredFile, stop: set<string>): Result<Tables, CountError>
    requires id < |t.reports|
  {
    match FrequentWords([f], stop)
    case Err(e) => Err(e)
    case Ok(wc) => Ok(Tables(t.reports, AddMissing(t.words, Keys(wc)), Accumulate(t.reports, t.counts, id, wc)))
  }

  /** The report row the admin saves for an entry with text `text`. */
  function AdminRow(catalog: seq<Company>, e: ZipEntry, text: string): (row: ReportRow)
    ensures row.anio >= 0
  {
    var archivo := StoredName(e.name);
    DetectYearSpec(text);
    ReportRow(NameOnSave("", archivo), archivo, ResolveBySubstring(catalog, text), DetectYear(text))
  }

  /** Saving a report row, which runs the signal on its stored file `f`. */
  function SaveWithSignal(t: Tables, row: ReportRow, f: StoredFile, stop: set<string>): Result<Tables, UploadError>
  {
    match AfterCreate(Tables(t.reports + [row], t.words, t.counts), |t.reports|, f, stop)
    case Err(ce) => Err(CountFailed(ce))
    case Ok(t') => Ok(t')
  }

  /** One entry of the admin upload: filtered out, or a report saved and its words counted; or the exception raised. */
  function AdminStep(t: Tables, catalog: seq<Company>, e: ZipEntry, stop: set<string>): Result<Tables, UploadError>
  {
    if !AdminAccepts(e.name) then Ok(t)
    else
      match AdminEntryText(e)
      case None => Err(UnreadableEntry(e.name))
      case Some(text) => SaveWithSignal(t, AdminRow(catalog, e, text), StoredFileOf(e), stop)
  }

  /** A successful save adds exactly its row to the reports. */
  lemma SaveWithSignalReports(t: Tables, row: ReportRow, f: StoredFile, stop: set<string>)
    requires SaveWithSignal(t, row, f, stop).Ok?
    ensures SaveWithSignal(t, row, f, stop).value.reports == t.reports + [row]
  {
  }

  /** The admin upload over all entries: the tables after the last one, or the first exception. */
  function AdminRun(t: Tables, catalog: seq<Company>, entries: seq<ZipEntry>, stop: set<string>): Result<Tables, UploadError>
  {
    if entries == [] then Ok(t)
    else
      match AdminRun(t, catalog, entries[..|entries| - 1], stop)
      case Err(e) => Err(e)
      case Ok(t') => AdminStep(t', catalog, entries[|entries| - 1], stop)
  }

  /** The number of entries the admin accepts. */
  function AdminAccepted(entries: seq<ZipEntry>): (n: nat)
    ensures n <= |entries|
  {
    if entries == [] then 0
    else AdminAccepted(entries[..|entries| - 1]) + (if AdminAccepts(entries[|entries| - 1].name) then 1 else 0)
  }

  /** The stored file keeps a lowercase suffix of the entry's name, also after `lower()`. */
  lemma StoredSuffix(name: string, suffix: string)
    requires EndsWith(name, suffix) && '/' !in suffix && LowerStr(suffix) == suffix
    ensures EndsWith(StoredName(name), suffix)
    ensures EndsWith(LowerStr(StoredName(name)), suffix)
  {
    BasenameKeepsSuffix(name, suffix);
    EndsWithAppend("reportes/", Basename(name), suffix);
    LowerKeepsSuffix(StoredName(name), suffix);
  }

  /** The word counter reads a stored Word document from the paragraphs the admin read. */
  lemma StoredDocxText(e: ZipEntry)
    requires EndsWith(e.name, ".docx") && e.paragraphs.Some?
    ensures DocumentText(StoredFileOf(e)) == Ok(Spaced(e.paragraphs.value))
  {
    StoredSuffix(e.name, ".docx");
  }

  /** The word counter decodes a stored text file strictly. */
  lemma StoredTxtText(e: ZipEntry)
    requires EndsWith(e.name, ".txt")
    ensures DocumentText(StoredFileOf(e)) == ReadText(StoredName(e.name), e.data)
  {
    StoredSuffix(e.name, ".txt");
    ExtensionsExclusive(LowerStr(StoredName(e.name)));
  }

  /**
    A stored Word document the admin could parse is counted from the same
    paragraphs; a stored text file is decoded strictly, so invalid UTF-8 that
    the admin dropped makes the count raise.
   */
  lemma StoredCountFails(e: ZipEntry, stop: set<string>)
    requires AdminAccepts(e.name) && AdminEntryText(e).Some?
    ensures FrequentWords([StoredFileOf(e)], stop).Err? <==> !EndsWith(e.name, ".docx") && DecodeStrict(e.data).None?
    ensures FrequentWords([StoredFileOf(e)], stop).Err? ==>
              FrequentWords([StoredFileOf(e)], stop).error == NotUtf8(StoredName(e.name))
  {
    var f := StoredFileOf(e);
    FrequentWordsOfOne(f, stop);
    if EndsWith(e.name, ".docx") {
      StoredDocxText(e);
      assert DocumentText(f).Ok?;
    } else {
      assert EndsWith(e.name, ".txt");
      StoredTxtText(e);
      assert DocumentText(f) == ReadText(StoredName(e.name), e.data);
    }
  }

  /** One successful step adds one report row, with a year that is not negative, exactly when the entry is accepted. */
  lemma AdminStepSpec(t: Tables, catalog: seq<Company>, e: ZipEntry, stop: set<string>)
    requires AdminStep(t, catalog, e, stop).Ok?
    ensures var r := AdminStep(t, catalog, e, stop).value;
      && |r.reports| == |t.reports| + (if AdminAccepts(e.name) then 1 else 0)
      && r.reports[..|t.reports|] == t.reports
      && (forall k :: |t.reports| <= k < |r.reports| ==> r.reports[k].anio >= 0)
  {
    if AdminAccepts(e.name) {
      var row := AdminRow(catalog, e, AdminEntryText(e).value);
      assert AdminStep(t, catalog, e, stop) == SaveWithSignal(t, row, StoredFileOf(e), stop);
      SaveWithSignalReports(t, row, StoredFileOf(e), stop);
      assert (t.reports + [row])[..|t.reports|] == t.reports;
      assert (t.reports + [row])[|t.reports|] == row;
    }
  }

  /** A successful run is a successful run of all but the last entry, followed by a successful step. */
  lemma AdminRunLast(t: Tables, catalog: seq<Company>, entries: seq<ZipEntry>, stop: set<string>)
    requires entries != [] && AdminRun(t, catalog, entries, stop).Ok?
    ensures AdminRun(t, catalog, entries[..|entries| - 1], stop).Ok?
    ensures var t' := AdminRun(t, catalog, entries[..|entries| - 1], stop).value;
      AdminStep(t', catalog, entries[|entries| - 1], stop) == AdminRun(t, catalog, entries, stop)
  {
  }

  /**
    On success, the upload saves one report per accepted entry, in entry
    order, each with a year that is 0 or between 1900 and 2099 (so never
    negative, as the year column demands); entries with other names change
    nothing.
   */
  lemma {:induction false} AdminRunSpec(t: Tables, catalog: seq<Company>, entries: seq<ZipEntry>, stop: set<string>)
    requires AdminRun(t, catalog, entries, stop).Ok?
    ensures var r := AdminRun(t, catalog, entries, stop).value;
      && |r.reports| == |t.reports| + AdminAccepted(entries)
      && r.reports[..|t.reports|] == t.reports
      && forall k :: |t.reports| <= k < |r.reports| ==> r.reports[k].anio >= 0
  {
    if entries != [] {
      var init := entries[..|entries| - 1];
      var e := entries[|entries| - 1];
      AdminRunLast(t, catalog, entries, stop);
      var t' := AdminRun(t, catalog, init, stop).value;
      var r := AdminRun(t, catalog, entries, stop).value;
      AdminRunSpec(t, catalog, init, stop);
      AdminStepSpec(t', catalog, e, stop);
      GrowthComposes(t.reports, t'.reports, r.reports);
    }
  }

  /** Two successive growths that keep their prefix and add rows with a non-negative year compose. */
  lemma GrowthComposes(a: seq<ReportRow>, b: seq<ReportRow>, c: seq<ReportRow>)
    requires |a| <= |b| <= |c|
    requires b[..|a|] == a && c[..|b|] == b
    requires forall k :: |a| <= k < |b| ==> b[k].anio >= 0
    requires forall k :: |b| <= k < |c| ==> c[k].anio >= 0
    ensures c[..|a|] == a
    ensures forall k :: |a| <= k < |c| ==> c[k].anio >= 0
  {
    forall k | |a| <= k < |b| ensures c[k] == b[k] {
      assert c[..|b|][k] == c[k];
    }
  }

  /** The report row an entry adds when the admin accepts and reads it, or none. */
  function AdminEntryRows(catalog: seq<Company>, e: ZipEntry): seq<ReportRow>
  {
    if AdminAccepts(e.name) && AdminEntryText(e).Some? then [AdminRow(catalog, e, AdminEntryText(e).value)] else []
  }

  /** The report rows the upload adds, one per accepted and readable entry, in entry order. */
  function AdminRows(catalog: seq<Company>, entries: seq<ZipEntry>): seq<ReportRow>
  {
    if entries == [] then []
    else AdminRows(catalog, entries[..|entries| - 1]) + AdminEntryRows(catalog, entries[|entries| - 1])
  }

  /**
    On success, the reports are the old ones followed by exactly the rows of
    the accepted entries, the k-th added row belonging to the k-th accepted
    entry.
   */
  lemma {:induction false} AdminRunRows(t: Tables, catalog: seq<Company>, entries: seq<ZipEntry>, stop: set<string>)
    requires AdminRun(t, catalog, entries, stop).Ok?
    ensures AdminRun(t, catalog, entries, stop).value.reports == t.reports + AdminRows(catalog, entries)
  {
    if entries != [] {
      var init := entries[..|entries| - 1];
      var e := entries[|entries| - 1];
      AdminRunLast(t, catalog, entries, stop);
      AdminRunRows(t, catalog, init, stop);
      var t' := AdminRun(t, catalog, init, stop).value;
      if AdminAccepts(e.name) {
        var row := AdminRow(catalog, e, AdminEntryText(e).value);
        SaveWithSignalReports(t', row, StoredFileOf(e), stop);
      }
      assert t.reports + AdminRows(catalog, entries) == (t.reports + AdminRows(catalog, init)) + AdminEntryRows(catalog, e);
    }
  }

  /** Every accepted and readable entry has its row among the added ones, named after its base name. */
  lemma {:induction false} AdminRowsComplete(catalog: seq<Company>, entries: seq<ZipEntry>)
    ensures forall e :: e in entries && AdminAccepts(e.name) && AdminEntryText(e).Some? ==>
              ReportRow(Basename(e.name), StoredName(e.name), ResolveBySubstring(catalog, AdminEntryText(e).value),
                        DetectYear(AdminEntryText(e).value)) in AdminRows(catalog, entries)
  {
    if entries != [] {
      var init := entries[..|entries| - 1];
      var last := entries[|entries| - 1];
      AdminRowsComplete(catalog, init);
      if AdminAccepts(last.name) && AdminEntryText(last).Some? {
        StoredNameSpec(last.name);
      }
    }
  }

  /** A successful upload could read every accepted entry. */
  lemma {:induction false} AdminRunReadable(t: Tables, catalog: seq<Company>, entries: seq<ZipEntry>, stop: set<string>)
    requires AdminRun(t, catalog, entries, stop).Ok?
    ensures forall e :: e in entries && AdminAccepts(e.name) ==> AdminEntryText(e).Some?
  {
    if entries != [] {
      var init := entries[..|entries| - 1];
      AdminRunLast(t, catalog, entries, stop);
      AdminRunReadable(t, catalog, init, stop);
      assert forall e :: e in entries ==> e in init || e == entries[|entries| - 1];
    }
  }

  /**
    On success, every accepted entry was readable and has its report among
    the saved ones: named after the entry's base name, with the stored file,
    the first company whose name occurs in its text and the year detected in it.
   */
  lemma AdminRunComplete(t: Tables, catalog: seq<Company>, entries: seq<ZipEntry>, stop: set<string>)
    requires AdminRun(t, catalog, entries, stop).Ok?
    ensures forall e :: e in entries && AdminAccepts(e.name) ==>
              && AdminEntryText(e).Some?
              && ReportRow(Basename(e.name), StoredName(e.name), ResolveBySubstring(catalog, AdminEntryText(e).value),
                           DetectYear(AdminEntryText(e).value)) in AdminRun(t, catalog, entries, stop).value.reports
  {
    AdminRunReadable(t, catalog, entries, stop);
    AdminRowsComplete(catalog, entries);
    AdminRunRows(t, catalog, entries, stop);
  }

  /** An accepted Word entry that cannot be parsed stops the upload. */
  lemma AdminUnreadableStops(t: Tables, catalog: seq<Company>, entries: seq<ZipEntry>, stop: set<string>)
    requires entries != [] && AdminRun(t, catalog, entries[..|entries| - 1], stop).Ok?
    requires EndsWith(entries[|entries| - 1].name, ".docx") && entries[|entries| - 1].paragraphs.None?
    ensures AdminRun(t, catalog, entries, stop) == Err(UnreadableEntry(entries[|entries| - 1].name))
  {
  }

  /** `procesar_reporte`, the signal run when report `id` is created with its file. */
  method OnReportCreated(db: Database, id: nat, f: StoredFile, stop: set<string>) returns (r: Result<(), CountError>)
    requires id < |db.reports| && db.Valid()
    modifies db
    ensures r.Ok? <==> AfterCreate(Tables(old(db.reports), old(db.words), old(db.counts)), id, f, stop).Ok?
    ensures r.Err? ==> r.error == AfterCreate(Tables(old(db.reports), old(db.words), old(db.counts)), id, f, stop).error
    ensures r.Ok? ==> Tables(db.reports, db.words, db.counts) == AfterCreate(Tables(old(db.reports), old(db.words), old(db.counts)), id, f, stop).value
    ensures db.Valid()
    ensures db.provinces == old(db.provinces) && db.companies == old(db.companies)
  {
    var counted := CountFrequentWords([f], stop);
    match counted {
      case Err(e) =>
        return Err(e);
      case Ok(wc) =>
        db.SaveCounts(id, wc);
        return Ok(());
    }
  }

  /**
    `ZipArchivoAdmin.save_model`: for each accepted entry, reads its text,
    detects the year and the company, and saves a report with the entry's
    file, which runs the signal. An exception ends the upload.
   */
  method AdminUpload(db: Database, entries: seq<ZipEntry>, stop: set<string>) returns (r: Result<(), UploadError>)
    requires db.Valid()
    modifies db
    ensures var run := AdminRun(Tables(old(db.reports), old(db.words), old(db.counts)), old(db.companies), entries, stop);
      && (r.Ok? <==> run.Ok?)
      && (r.Err? ==> r.error == run.error)
      && (r.Ok? ==> Tables(db.reports, db.words, db.counts) == run.value)
    ensures db.Valid()
    ensures db.provinces == old(db.provinces) && db.companies == old(db.companies)
  {
    ghost var t0 := Tables(db.reports, db.words, db.counts);
    ghost var catalog := db.companies;
    var i := 0;
    while i < |entries|
      invariant 0 <= i <= |entries|
      invariant AdminRun(t0, catalog, entries[..i], stop) == Ok(Tables(db.reports, db.words, db.counts))
      invariant db.Valid()
      invariant db.provinces == old(db.provinces) && db.companies == catalog
    {
      AdminRunSnoc(t0, catalog, entries, stop, i);
      var step := UploadEntry(db, entries[i], stop);
      if step.Err? {
        AdminStopsHere(t0, catalog, entries, stop, i + 1);
        return Err(step.error);
      }
      i := i + 1;
    }
    assert entries[..i] == entries;
    r := Ok(());
  }

  /** One entry of `save_model`: filtered out, or read, saved as a report and counted. */
  method UploadEntry(db: Database, e: ZipEntry, stop: set<string>) returns (r: Result<(), UploadError>)
    requires db.Valid()
    modifies db
    ensures var step := AdminStep(Tables(old(db.reports), old(db.words), old(db.counts)), old(db.companies), e, stop);
      && (r.Ok? <==> step.Ok?)
      && (r.Err? ==> r.error == step.error)
      && (r.Ok? ==> Tables(db.reports, db.words, db.counts) == step.value)
    ensures db.Valid()
    ensures db.provinces == old(db.provinces) && db.companies == old(db.companies)
  {
    if !AdminAccepts(e.name) {
      return Ok(());
    }
    var text := ReadAdminEntry(e);
    if text.None? {
      return Err(UnreadableEntry(e.name));
    }
    r := SaveAdminRow(db, e, text.value, stop);
  }

  /** The text the admin reads from an accepted entry: the joined paragraphs of a `.docx`, the decoded bytes otherwise. */
  method ReadAdminEntry(e: ZipEntry) returns (text: Option<string>)
    requires AdminAccepts(e.name)
    ensures text == AdminEntryText(e)
    ensures text.None? <==> EndsWith(e.name, ".docx") && e.paragraphs.None?
  {
    if EndsWith(e.name, ".docx") {
      if e.paragraphs.None? {
        return None;
      }
      text := Some(JoinWith("\n", e.paragraphs.value));
    } else {
      text := Some(DecodeIgnoring(e.data));
    }
  }

  /** Creates and saves the report of an entry with text `text`, then runs the signal on its stored file. */
  method SaveAdminRow(db: Database, e: ZipEntry, text: string, stop: set<string>) returns (r: Result<(), UploadError>)
    requires db.Valid()
    modifies db
    ensures var step := SaveWithSignal(Tables(old(db.reports), old(db.words), old(db.counts)), AdminRow(old(db.companies), e, text), StoredFileOf(e), stop);
      && (r.Ok? <==> step.Ok?)
      && (r.Err? ==> r.error == step.error)
      && (r.Ok? ==> Tables(db.reports, db.words, db.counts) == step.value)
    ensures db.Valid()
    ensures db.provinces == old(db.provinces) && db.companies == old(db.companies)
  {
    ghost var row := AdminRow(db.companies, e, text);
    var anio := DetectYear(text);
    var empresa := ResolveCompanyBySubstring(db.companies, text);
    ResolveBySubstringSpec(db.companies, text);
    var reporte := new Reporte(StoredName(e.name), empresa, anio);
    var id := reporte.Save(db);
    assert db.reports == old(db.reports) + [row];
    var counted := OnReportCreated(db, id, StoredFileOf(e), stop);
    if counted.Err? {
      return Err(CountFailed(counted.error));
    }
    r := Ok(());
  }

  /** A run over one more entry is the run so far followed by that entry's step. */
  lemma AdminRunSnoc(t: Tables, catalog: seq<Company>, entries: seq<ZipEntry>, stop: set<string>, i: nat)
    requires i < |entries| && AdminRun(t, catalog, entries[..i], stop).Ok?
    ensures AdminRun(t, catalog, entries[..i + 1], stop) ==
            AdminStep(AdminRun(t, catalog, entries[..i], stop).value, catalog, entries[i], stop)
  {
    assert entries[..i + 1][..i] == entries[..i];
  }

  /** Once a prefix of the entries fails, the whole upload fails with the same exception. */
  lemma {:induction false} AdminStopsHere(t: Tables, catalog: seq<Company>, entries: seq<ZipEntry>, stop: set<string>, n: nat)
    requires 0 < n <= |entries| && AdminRun(t, catalog, entries[..n], stop).Err?
    ensures AdminRun(t, catalog, entries, stop) == AdminRun(t, catalog, entries[..n], stop)
    decreases |entries|
  {
    if n < |entries| {
      var init := entries[..|entries| - 1];
      assert init[..n] == entries[..n];
      AdminStopsHere(t, catalog, init, stop, n);
    } else {
      assert entries[..n] == entries;
    }
  }
}
