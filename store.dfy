/**
  The tables the ingestion code writes, held in memory: provinces, companies
  (`Empresa`), reports (`Reporte`), words (`Palabras`) and word counts
  (`ConteoTotal` in one app, `Conteo` in the other; the two have the same
  columns and rules). A row's id is its position in its table, so "first"
  in a query means lowest primary key.

  This module holds the year-scoped accumulation of word counts
  (`guardar_conteo_en_bd`) and the de-duplicating seed inserts
  (`insertar_provincias`, `insertar_empresas`).
 */
module Store {
  import opened Base
  import Ranking

  /** An `Empresa`: RUC, name and the id of its province. */
  datatype Company = Company(ruc: string, nombre: string, provincia: nat)

  /** A `Reporte` as stored: name, file name (empty when there is no file), company id and year. */
  datatype ReportRow = ReportRow(nombre: string, archivo: string, empresa: Option<nat>, anio: int)

  /**
    A count row: report id, word and quantity. The word column is a foreign
    key to `Palabras`, whose `descripcion` is unique, so the row holds the
    word itself.
   */
  datatype CountRow = CountRow(reporte: nat, palabra: string, cantidad: nat)

  /** A spreadsheet row for `insertar_empresas`: company name, RUC, province name. */
  datatype CompanySheetRow = CompanySheetRow(nombre: string, ruc: string, provincia: string)

  // ---------------------------------------------------------------------------
  // Table constraints
  // ---------------------------------------------------------------------------

  /** No value occurs twice (`unique=True` on a column). */
  ghost predicate Distinct(s: seq<string>) {
    forall i, j :: 0 <= i < j < |s| ==> s[i] != s[j]
  }

  /** `Empresa.ruc` is unique. */
  ghost predicate RucUnique(companies: seq<Company>) {
    forall i, j :: 0 <= i < j < |companies| ==> companies[i].ruc != companies[j].ruc
  }

  /** `unique_together = ('reporte', 'palabra')` on the count table. */
  ghost predicate ReportWordUnique(counts: seq<CountRow>) {
    forall i, j :: 0 <= i < j < |counts| ==>
      counts[i].reporte != counts[j].reporte || counts[i].palabra != counts[j].palabra
  }

  /** Every count row points at an existing report. */
  ghost predicate CountRefsOk(reports: seq<ReportRow>, counts: seq<CountRow>) {
    forall k :: 0 <= k < |counts| ==> counts[k].reporte < |reports|
  }

  /** The accumulator's invariant: at most one count row per (report year, word). */
  ghost predicate YearWordUnique(reports: seq<ReportRow>, counts: seq<CountRow>) {
    && CountRefsOk(reports, counts)
    && forall i, j :: 0 <= i < j < |counts| ==>
         counts[i].palabra != counts[j].palabra
         || reports[counts[i].reporte].anio != reports[counts[j].reporte].anio
  }

  /** One row per (year, word) is stronger than the table's own (report, word) constraint. */
  lemma YearWordUniqueIsStronger(reports: seq<ReportRow>, counts: seq<CountRow>)
    requires YearWordUnique(reports, counts)
    ensures ReportWordUnique(counts)
  {
  }

  // ---------------------------------------------------------------------------
  // get_or_create on a column of names
  // ---------------------------------------------------------------------------

  /** The names after a `get_or_create` (or check-then-create) of each of `added`, in order. */
  function AddMissing(names: seq<string>, added: seq<string>): seq<string>
  {
    if added == [] then names
    else
      var acc := AddMissing(names, added[..|added| - 1]);
      if added[|added| - 1] in acc then acc else acc + [added[|added| - 1]]
  }

  /**
    Check-then-create keeps what was there, makes every requested name
    present, and adds only names that were missing, each once.
   */
  lemma {:induction false} AddMissingSpec(names: seq<string>, added: seq<string>)
    ensures |AddMissing(names, added)| >= |names|
    ensures AddMissing(names, added)[..|names|] == names
    ensures forall a :: a in added ==> a in AddMissing(names, added)
    ensures forall x :: x in AddMissing(names, added) ==> x in names || x in added
    ensures forall i :: |names| <= i < |AddMissing(names, added)| ==> AddMissing(names, added)[i] !in names
    ensures forall i, j :: |names| <= i < j < |AddMissing(names, added)| ==>
              AddMissing(names, added)[i] != AddMissing(names, added)[j]
  {
    if added != [] {
      var init, a := added[..|added| - 1], added[|added| - 1];
      AddMissingSpec(names, init);
      var acc := AddMissing(names, init);
      if a !in acc {
        assert (acc + [a])[..|names|] == acc[..|names|];
      }
    }
  }

  /** A column without repeated values keeps that property. */
  lemma AddMissingDistinct(names: seq<string>, added: seq<string>)
    requires Distinct(names)
    ensures Distinct(AddMissing(names, added))
  {
    var r := AddMissing(names, added);
    AddMissingSpec(names, added);
    forall i, j | 0 <= i < j < |r| ensures r[i] != r[j] {
      if j < |names| {
        assert r[i] == names[i] && r[j] == names[j];
      } else if i < |names| {
        assert r[i] == names[i];
      }
    }
  }

  /** The words of a word→count listing, in order. */
  function Keys(wc: seq<(string, nat)>): (r: seq<string>)
    ensures |r| == |wc| && forall i :: 0 <= i < |wc| ==> r[i] == wc[i].0
  {
    seq(|wc|, i requires 0 <= i < |wc| => wc[i].0)
  }

  /** Number of entries of `s` equal to `x`. */
  function Count(s: seq<string>, x: string): (n: nat)
    ensures n == 0 <==> x !in s
  {
    if s == [] then 0
    else
      var init := s[..|s| - 1];
      assert s == init + [s[|s| - 1]];
      Count(init, x) + (if s[|s| - 1] == x then 1 else 0)
  }

  /** In a column without repeats, a present value occurs exactly once. */
  lemma {:induction false} CountDistinct(s: seq<string>, x: string)
    requires Distinct(s) && x in s
    ensures Count(s, x) == 1
  {
    var init := s[..|s| - 1];
    if s[|s| - 1] == x {
      assert x !in init;
    } else {
      assert x in init;
      CountDistinct(init, x);
    }
  }

  /**
    `Provincia.objects.get_or_create(nombre=name)`: the id of the only
    province with that name, or a new one appended; `None` stands for
    `MultipleObjectsReturned` (provinces have no uniqueness constraint).
   */
  function ProvinceGetOrCreate(provinces: seq<string>, name: string): (r: Option<(seq<string>, nat)>)
    ensures r.None? <==> Count(provinces, name) > 1
    ensures r.Some? ==> r.value.1 < |r.value.0| && r.value.0[r.value.1] == name
    ensures r.Some? && name in provinces ==> r.value.0 == provinces
    ensures r.Some? && name !in provinces ==> r.value.0 == provinces + [name]
  {
    if Count(provinces, name) > 1 then None
    else if name in provinces then Some((provinces, IndexOf(provinces, name)))
    else Some((provinces + [name], |provinces|))
  }

  // ---------------------------------------------------------------------------
  // guardar_conteo_en_bd, on values
  // ---------------------------------------------------------------------------

  /** Year of report `id` (`None` when there is no such report). */
  function ReportYear(reports: seq<ReportRow>, id: nat): Option<int>
  {
    if id < |reports| then Some(reports[id].anio) else None
  }

  /** A count row for word `w` whose report is of year `y`: `filter(reporte__anio=y, palabra=w)`. */
  predicate RowIsFor(reports: seq<ReportRow>, row: CountRow, y: int, w: string) {
    row.palabra == w && ReportYear(reports, row.reporte) == Some(y)
  }

  /** `filter(reporte__anio=y, palabra=w).first()`. */
  function FirstRow(reports: seq<ReportRow>, counts: seq<CountRow>, y: int, w: string): (r: Option<nat>)
    ensures r.Some? ==> r.value < |counts| && RowIsFor(reports, counts[r.value], y, w)
    ensures r.Some? ==> forall j :: 0 <= j < r.value ==> !RowIsFor(reports, counts[j], y, w)
    ensures r.None? ==> forall j :: 0 <= j < |counts| ==> !RowIsFor(reports, counts[j], y, w)
  {
    if counts == [] then None
    else if RowIsFor(reports, counts[0], y, w) then Some(0)
    else match FirstRow(reports, counts[1..], y, w)
      case None => None
      case Some(j) => Some(j + 1)
  }

  /** The count table after accumulating `n` occurrences of `w` for report `rep`. */
  function AddCount(reports: seq<ReportRow>, counts: seq<CountRow>, rep: nat, w: string, n: nat): seq<CountRow>
    requires rep < |reports|
  {
    match FirstRow(reports, counts, reports[rep].anio, w)
    case Some(k) => counts[k := counts[k].(cantidad := counts[k].cantidad + n)]
    case None => counts + [CountRow(rep, w, n)]
  }

  /** The count table after accumulating a whole word→count listing, entry by entry. */
  function Accumulate(reports: seq<ReportRow>, counts: seq<CountRow>, rep: nat, wc: seq<(string, nat)>): seq<CountRow>
    requires rep < |reports|
  {
    if wc == [] then counts
    else
      var last := wc[|wc| - 1];
      AddCount(reports, Accumulate(reports, counts, rep, wc[..|wc| - 1]), rep, last.0, last.1)
  }

  /** A row already exists for (year, word): exactly `n` is added to the first one, and no row is created. */
  lemma AddCountToExisting(reports: seq<ReportRow>, counts: seq<CountRow>, rep: nat, w: string, n: nat, k: nat)
    requires rep < |reports|
    requires k < |counts| && RowIsFor(reports, counts[k], reports[rep].anio, w)
    requires forall j :: 0 <= j < k ==> !RowIsFor(reports, counts[j], reports[rep].anio, w)
    ensures |AddCount(reports, counts, rep, w, n)| == |counts|
    ensures AddCount(reports, counts, rep, w, n)[k] == counts[k].(cantidad := counts[k].cantidad + n)
    ensures forall j :: 0 <= j < |counts| && j != k ==> AddCount(reports, counts, rep, w, n)[j] == counts[j]
  {
    var f := FirstRow(reports, counts, reports[rep].anio, w);
    assert f == Some(k);
  }

  /** No row exists for (year, word): exactly one row (this report, word, n) is appended. */
  lemma AddCountCreates(reports: seq<ReportRow>, counts: seq<CountRow>, rep: nat, w: string, n: nat)
    requires rep < |reports|
    requires forall j :: 0 <= j < |counts| ==> !RowIsFor(reports, counts[j], reports[rep].anio, w)
    ensures AddCount(reports, counts, rep, w, n) == counts + [CountRow(rep, w, n)]
  {
  }

  /** Rows of every other (year, word) key are left as they were. */
  lemma AddCountFrame(reports: seq<ReportRow>, counts: seq<CountRow>, rep: nat, w: string, n: nat)
    requires rep < |reports|
    ensures |AddCount(reports, counts, rep, w, n)| >= |counts|
    ensures forall j :: 0 <= j < |counts| && !RowIsFor(reports, counts[j], reports[rep].anio, w) ==>
              AddCount(reports, counts, rep, w, n)[j] == counts[j]
  {
  }

  /** The accumulation keeps "at most one row per (year, word)". */
  lemma AddCountKeepsYearWordUnique(reports: seq<ReportRow>, counts: seq<CountRow>, rep: nat, w: string, n: nat)
    requires rep < |reports|
    requires YearWordUnique(reports, counts)
    ensures YearWordUnique(reports, AddCount(reports, counts, rep, w, n))
  {
    var r := AddCount(reports, counts, rep, w, n);
    match FirstRow(reports, counts, reports[rep].anio, w)
    case Some(k) => {
      forall i, j | 0 <= i < j < |r|
        ensures r[i].palabra != r[j].palabra || reports[r[i].reporte].anio != reports[r[j].reporte].anio
      {
        assert r[i].palabra == counts[i].palabra && r[i].reporte == counts[i].reporte;
        assert r[j].palabra == counts[j].palabra && r[j].reporte == counts[j].reporte;
      }
    }
    case None => {
      forall i, j | 0 <= i < j < |r|
        ensures r[i].palabra != r[j].palabra || reports[r[i].reporte].anio != reports[r[j].reporte].anio
      {
        if j == |counts| {
          assert !RowIsFor(reports, counts[i], reports[rep].anio, w);
        }
      }
    }
  }

  /**
    Even without the year invariant, a row is created only when no row for
    (year, word) exists, hence none for (this report, word): the table's
    (report, word) constraint is never violated.
   */
  lemma AddCountKeepsReportWordUnique(reports: seq<ReportRow>, counts: seq<CountRow>, rep: nat, w: string, n: nat)
    requires rep < |reports|
    requires ReportWordUnique(counts)
    ensures ReportWordUnique(AddCount(reports, counts, rep, w, n))
  {
    var r := AddCount(reports, counts, rep, w, n);
    match FirstRow(reports, counts, reports[rep].anio, w)
    case Some(k) => {
      forall i, j | 0 <= i < j < |r| ensures r[i].reporte != r[j].reporte || r[i].palabra != r[j].palabra {
        assert r[i].palabra == counts[i].palabra && r[i].reporte == counts[i].reporte;
        assert r[j].palabra == counts[j].palabra && r[j].reporte == counts[j].reporte;
      }
    }
    case None => {
      forall i, j | 0 <= i < j < |r| ensures r[i].reporte != r[j].reporte || r[i].palabra != r[j].palabra {
        if j == |counts| {
          assert !RowIsFor(reports, counts[i], reports[rep].anio, w);
        }
      }
    }
  }

  lemma {:induction false} AccumulateKeepsUnique(reports: seq<ReportRow>, counts: seq<CountRow>, rep: nat, wc: seq<(string, nat)>)
    requires rep < |reports|
    ensures YearWordUnique(reports, counts) ==> YearWordUnique(reports, Accumulate(reports, counts, rep, wc))
    ensures ReportWordUnique(counts) ==> ReportWordUnique(Accumulate(reports, counts, rep, wc))
  {
    if wc != [] {
      var last := wc[|wc| - 1];
      var before := Accumulate(reports, counts, rep, wc[..|wc| - 1]);
      AccumulateKeepsUnique(reports, counts, rep, wc[..|wc| - 1]);
      if YearWordUnique(reports, before) {
        AddCountKeepsYearWordUnique(reports, before, rep, last.0, last.1);
      }
      if ReportWordUnique(before) {
        AddCountKeepsReportWordUnique(reports, before, rep, last.0, last.1);
      }
    }
  }

  /** What a row adds to the total of (year `y`, word `w`). */
  function Contribution(reports: seq<ReportRow>, y: int, w: string): CountRow -> int
  {
    (row: CountRow) => if RowIsFor(reports, row, y, w) then row.cantidad else 0
  }

  /** Total count recorded for word `w` in year `y`, over all rows. */
  function Total(reports: seq<ReportRow>, counts: seq<CountRow>, y: int, w: string): int
  {
    Ranking.SumOf(counts, Contribution(reports, y, w))
  }

  /** Sum law: accumulating (w, n) raises the total of (report year, w) by n and no other total. */
  lemma AddCountTotal(reports: seq<ReportRow>, counts: seq<CountRow>, rep: nat, w: string, n: nat, y: int, v: string)
    requires rep < |reports|
    ensures Total(reports, AddCount(reports, counts, rep, w, n), y, v) ==
            Total(reports, counts, y, v) + (if y == reports[rep].anio && v == w then n else 0)
  {
    var f := Contribution(reports, y, v);
    match FirstRow(reports, counts, reports[rep].anio, w)
    case Some(k) => {
      Ranking.SumOfUpdate(counts, k, counts[k].(cantidad := counts[k].cantidad + n), f);
    }
    case None => {
      Ranking.SumOfAppend(counts, [CountRow(rep, w, n)], f);
    }
  }

  /** Sum of the counts a listing gives for `w`. */
  function Amount(wc: seq<(string, nat)>, w: string): nat
  {
    if wc == [] then 0
    else Amount(wc[..|wc| - 1], w) + (if wc[|wc| - 1].0 == w then wc[|wc| - 1].1 else 0)
  }

  /** Sum law for a whole listing: each year-`y` total grows by what the listing gives for its word. */
  lemma {:induction false} AccumulateTotal(reports: seq<ReportRow>, counts: seq<CountRow>, rep: nat, wc: seq<(string, nat)>, y: int, v: string)
    requires rep < |reports|
    ensures Total(reports, Accumulate(reports, counts, rep, wc), y, v) ==
            Total(reports, counts, y, v) + (if y == reports[rep].anio then Amount(wc, v) else 0)
  {
    if wc != [] {
      var last := wc[|wc| - 1];
      AccumulateTotal(reports, counts, rep, wc[..|wc| - 1], y, v);
      AddCountTotal(reports, Accumulate(reports, counts, rep, wc[..|wc| - 1]), rep, last.0, last.1, y, v);
    }
  }

  /** Saving the same listing twice counts it twice: the totals of the report's year grow by twice the amounts. */
  lemma AccumulateTwice(reports: seq<ReportRow>, counts: seq<CountRow>, rep: nat, wc: seq<(string, nat)>, v: string)
    requires rep < |reports|
    ensures Total(reports, Accumulate(reports, Accumulate(reports, counts, rep, wc), rep, wc), reports[rep].anio, v) ==
            Total(reports, counts, reports[rep].anio, v) + 2 * Amount(wc, v)
  {
    AccumulateTotal(reports, counts, rep, wc, reports[rep].anio, v);
    AccumulateTotal(reports, Accumulate(reports, counts, rep, wc), rep, wc, reports[rep].anio, v);
  }

  /** The accumulation is not idempotent: any positive count makes a second save change the table. */
  lemma AccumulateNotIdempotent(reports: seq<ReportRow>, counts: seq<CountRow>, rep: nat, wc: seq<(string, nat)>, v: string)
    requires rep < |reports|
    requires Amount(wc, v) > 0
    ensures Accumulate(reports, Accumulate(reports, counts, rep, wc), rep, wc) != Accumulate(reports, counts, rep, wc)
  {
    AccumulateTotal(reports, counts, rep, wc, reports[rep].anio, v);
    AccumulateTwice(reports, counts, rep, wc, v);
  }

  /** Accumulating only adds rows, all for the report being saved. */
  lemma {:induction false} AccumulateRefs(reports: seq<ReportRow>, counts: seq<CountRow>, rep: nat, wc: seq<(string, nat)>)
    requires rep < |reports|
    ensures |Accumulate(reports, counts, rep, wc)| >= |counts|
    ensures forall k :: 0 <= k < |Accumulate(reports, counts, rep, wc)| ==>
              var row := Accumulate(reports, counts, rep, wc)[k];
              (k < |counts| && row.reporte == counts[k].reporte && row.palabra == counts[k].palabra)
              || (k >= |counts| && row.reporte == rep && row.palabra in Keys(wc))
  {
    if wc != [] {
      var init, last := wc[..|wc| - 1], wc[|wc| - 1];
      AccumulateRefs(reports, counts, rep, init);
      assert forall x :: x in Keys(init) ==> x in Keys(wc) by {
        forall x | x in Keys(init) ensures x in Keys(wc) {
          var i :| 0 <= i < |init| && Keys(init)[i] == x;
          assert Keys(wc)[i] == x;
        }
      }
      assert Keys(wc)[|wc| - 1] == last.0;
    }
  }

  // ---------------------------------------------------------------------------
  // insertar_empresas, on values
  // ---------------------------------------------------------------------------

  /** Some company has this name (`Empresa.objects.filter(nombre=...).exists()`). */
  predicate NameTaken(companies: seq<Company>, nombre: string) {
    exists i :: 0 <= i < |companies| && companies[i].nombre == nombre
  }

  /** Some company has this RUC. */
  predicate RucTaken(companies: seq<Company>, ruc: string) {
    exists i :: 0 <= i < |companies| && companies[i].ruc == ruc
  }

  /** Provinces and companies, the two tables `insertar_empresas` writes. */
  datatype Catalog = Catalog(provinces: seq<string>, companies: seq<Company>)

  /** One spreadsheet row; `None` when the province lookup raises `MultipleObjectsReturned`. */
  function SeedCompanyRow(cat: Catalog, row: CompanySheetRow): Option<Catalog>
  {
    match ProvinceGetOrCreate(cat.provinces, row.provincia)
    case None => None
    case Some(pr) =>
      if !NameTaken(cat.companies, row.nombre) && !RucTaken(cat.companies, row.ruc) then
        Some(Catalog(pr.0, cat.companies + [Company(row.ruc, row.nombre, pr.1)]))
      else Some(Catalog(pr.0, cat.companies))
  }

  /**
    The tables after `insertar_empresas` on `rows`, and whether every row was
    processed: an exception on one row leaves the rows before it written
    and the rest unread.
   */
  function SeedCompanies(cat: Catalog, rows: seq<CompanySheetRow>): (Catalog, bool)
  {
    if rows == [] then (cat, true)
    else
      var (c, ok) := SeedCompanies(cat, rows[..|rows| - 1]);
      if !ok then (c, false)
      else match SeedCompanyRow(c, rows[|rows| - 1])
        case None => (c, false)
        case Some(c') => (c', true)
  }

  /** Every company's province exists. */
  ghost predicate ProvinceRefsOk(cat: Catalog) {
    forall i :: 0 <= i < |cat.companies| ==> cat.companies[i].provincia < |cat.provinces|
  }

  /**
    One row: a company is created exactly when neither its name nor its RUC is
    already taken, with the row's province; the province is present afterwards
    either way; existing rows are untouched.
   */
  lemma SeedCompanyRowSpec(cat: Catalog, row: CompanySheetRow)
    requires SeedCompanyRow(cat, row).Some?
    ensures var c := SeedCompanyRow(cat, row).value;
      && row.provincia in c.provinces
      && c.provinces[..|cat.provinces|] == cat.provinces
      && (if !NameTaken(cat.companies, row.nombre) && !RucTaken(cat.companies, row.ruc)
          then |c.companies| == |cat.companies| + 1 && c.companies[..|cat.companies|] == cat.companies
               && var e := c.companies[|cat.companies|];
                  e.nombre == row.nombre && e.ruc == row.ruc && e.provincia < |c.provinces|
                  && c.provinces[e.provincia] == row.provincia
          else c.companies == cat.companies)
  {
    var c := SeedCompanyRow(cat, row).value;
    assert c.provinces[..|cat.provinces|] == cat.provinces;
  }

  /** The province lookup fails exactly when two provinces share the row's name. */
  lemma SeedCompanyRowFails(cat: Catalog, row: CompanySheetRow)
    ensures SeedCompanyRow(cat, row).None? <==> Count(cat.provinces, row.provincia) > 1
  {
  }

  /** A row keeps RUCs unique and province references valid. */
  lemma SeedCompanyRowKeeps(cat: Catalog, row: CompanySheetRow)
    requires SeedCompanyRow(cat, row).Some?
    requires RucUnique(cat.companies) && ProvinceRefsOk(cat)
    ensures RucUnique(SeedCompanyRow(cat, row).value.companies)
    ensures ProvinceRefsOk(SeedCompanyRow(cat, row).value)
  {
    SeedCompanyRowSpec(cat, row);
    var c := SeedCompanyRow(cat, row).value;
    forall i, j | 0 <= i < j < |c.companies| ensures c.companies[i].ruc != c.companies[j].ruc {
      if j == |cat.companies| {
        assert c.companies[i] == cat.companies[i];
      }
    }
    forall i | 0 <= i < |c.companies| ensures c.companies[i].provincia < |c.provinces| {
      if i < |cat.companies| {
        assert c.companies[i] == cat.companies[i];
      }
    }
  }

  /** The whole import keeps RUCs unique and province references valid. */
  lemma {:induction false} SeedCompaniesKeeps(cat: Catalog, rows: seq<CompanySheetRow>)
    requires RucUnique(cat.companies) && ProvinceRefsOk(cat)
    ensures RucUnique(SeedCompanies(cat, rows).0.companies)
    ensures ProvinceRefsOk(SeedCompanies(cat, rows).0)
  {
    if rows != [] {
      var init := rows[..|rows| - 1];
      SeedCompaniesKeeps(cat, init);
      var (c, ok) := SeedCompanies(cat, init);
      if ok && SeedCompanyRow(c, rows[|rows| - 1]).Some? {
        SeedCompanyRowKeeps(c, rows[|rows| - 1]);
      }
    }
  }

  /** A row never removes a province or a company name. */
  lemma SeedCompanyRowGrows(cat: Catalog, row: CompanySheetRow)
    requires SeedCompanyRow(cat, row).Some?
    ensures forall p :: p in cat.provinces ==> p in SeedCompanyRow(cat, row).value.provinces
    ensures forall n :: NameTaken(cat.companies, n) ==> NameTaken(SeedCompanyRow(cat, row).value.companies, n)
    ensures forall r :: RucTaken(cat.companies, r) ==> RucTaken(SeedCompanyRow(cat, row).value.companies, r)
  {
    var c := SeedCompanyRow(cat, row).value;
    forall n | NameTaken(cat.companies, n) ensures NameTaken(c.companies, n) {
      var m :| 0 <= m < |cat.companies| && cat.companies[m].nombre == n;
      assert c.companies[m] == cat.companies[m];
    }
    forall r | RucTaken(cat.companies, r) ensures RucTaken(c.companies, r) {
      var m :| 0 <= m < |cat.companies| && cat.companies[m].ruc == r;
      assert c.companies[m] == cat.companies[m];
    }
  }

  /** After a row, its province is present, and so is a company with its name or its RUC. */
  lemma SeedCompanyRowAdds(cat: Catalog, row: CompanySheetRow)
    requires SeedCompanyRow(cat, row).Some?
    ensures row.provincia in SeedCompanyRow(cat, row).value.provinces
    ensures NameTaken(SeedCompanyRow(cat, row).value.companies, row.nombre)
            || RucTaken(SeedCompanyRow(cat, row).value.companies, row.ruc)
  {
    var c := SeedCompanyRow(cat, row).value;
    if !NameTaken(cat.companies, row.nombre) && !RucTaken(cat.companies, row.ruc) {
      assert c.companies[|cat.companies|].nombre == row.nombre;
    } else {
      assert c.companies == cat.companies;
    }
  }

  /** The row's province is present, and so is a company with the row's name or with its RUC. */
  ghost predicate Covers(c: Catalog, row: CompanySheetRow) {
    row.provincia in c.provinces && (NameTaken(c.companies, row.nombre) || RucTaken(c.companies, row.ruc))
  }

  /** A covered row stays covered after one more row. */
  lemma CoversGrows(c: Catalog, row: CompanySheetRow, earlier: CompanySheetRow)
    requires SeedCompanyRow(c, row).Some? && Covers(c, earlier)
    ensures Covers(SeedCompanyRow(c, row).value, earlier)
  {
    SeedCompanyRowGrows(c, row);
  }

  /** When the import runs to the end, every row is covered by the tables it leaves. */
  lemma {:induction false} SeedCompaniesCovers(cat: Catalog, rows: seq<CompanySheetRow>)
    requires SeedCompanies(cat, rows).1
    ensures forall i :: 0 <= i < |rows| ==> Covers(SeedCompanies(cat, rows).0, rows[i])
  {
    if rows != [] {
      var init, last := rows[..|rows| - 1], rows[|rows| - 1];
      SeedCompaniesCovers(cat, init);
      var c := SeedCompanies(cat, init).0;
      var d := SeedCompanies(cat, rows).0;
      assert d == SeedCompanyRow(c, last).value;
      forall i | 0 <= i < |rows| ensures Covers(d, rows[i]) {
        if i < |init| {
          assert rows[i] == init[i];
          CoversGrows(c, last, init[i]);
        } else {
          SeedCompanyRowAdds(c, last);
        }
      }
    }
  }

  // ---------------------------------------------------------------------------
  // The database
  // ---------------------------------------------------------------------------

  class Database {
    var provinces: seq<string>
    var companies: seq<Company>
    var reports: seq<ReportRow>
    var words: seq<string>
    var counts: seq<CountRow>

    /** The declared constraints and foreign keys of the tables. */
    ghost predicate Valid()
      reads this
    {
      && Distinct(words)
      && RucUnique(companies)
      && ProvinceRefsOk(Catalog(provinces, companies))
      && (forall i :: 0 <= i < |reports| && reports[i].empresa.Some? ==> reports[i].empresa.value < |companies|)
      && CountRefsOk(reports, counts)
      && (forall k :: 0 <= k < |counts| ==> counts[k].palabra in words)
      && ReportWordUnique(counts)
    }

    constructor ()
      ensures provinces == [] && companies == [] && reports == [] && words == [] && counts == []
      ensures Valid()
    {
      provinces, companies, reports, words, counts := [], [], [], [], [];
    }

    /** `Palabras.objects.get_or_create(descripcion=w)`. */
    method GetOrCreateWord(w: string) returns (id: nat)
      requires Valid()
      modifies this
      ensures words == AddMissing(old(words), [w])
      ensures id < |words| && words[id] == w
      ensures provinces == old(provinces) && companies == old(companies)
      ensures reports == old(reports) && counts == old(counts)
      ensures Valid()
    {
      AddMissingDistinct(words, [w]);
      if w in words {
        id := IndexOf(words, w);
      } else {
        words := words + [w];
        id := |words| - 1;
      }
      assert [w][..0] == [];
    }

    /** Appends a report row and returns its id. */
    method AddReport(row: ReportRow) returns (id: nat)
      modifies this
      ensures reports == old(reports) + [row] && id == |old(reports)|
      ensures provinces == old(provinces) && companies == old(companies)
      ensures words == old(words) && counts == old(counts)
      ensures old(Valid()) && (row.empresa.Some? ==> row.empresa.value < |companies|) ==> Valid()
    {
      reports := reports + [row];
      id := |reports| - 1;
    }

    /**
      `guardar_conteo_en_bd(reporte, word_counts)`: for each (word, count),
      get or create the word, then add the count to the first row of the
      report's year for that word, or create a row for this report.
     */
    method SaveCounts(rep: nat, wc: seq<(string, nat)>)
      requires rep < |reports|
      requires Valid()
      modifies this
      ensures provinces == old(provinces) && companies == old(companies) && reports == old(reports)
      ensures counts == Accumulate(reports, old(counts), rep, wc)
      ensures words == AddMissing(old(words), Keys(wc))
      ensures Valid()
    {
      var i := 0;
      while i < |wc|
        invariant 0 <= i <= |wc|
        invariant provinces == old(provinces) && companies == old(companies) && reports == old(reports)
        invariant counts == Accumulate(reports, old(counts), rep, wc[..i])
        invariant words == AddMissing(old(words), Keys(wc[..i]))
        invariant Valid()
      {
        var (w, n) := wc[i];
        assert wc[..i + 1][..i] == wc[..i];
        assert Keys(wc[..i + 1]) == Keys(wc[..i]) + [w];
        AddMissingSpec(words, [w]);
        AddMissingDistinct(words, [w]);
        var _ := GetOrCreateWord(w);
        AddToCount(rep, w, n);
        i := i + 1;
      }
      assert wc[..i] == wc;
    }

    /** One entry of `guardar_conteo_en_bd`, after the word exists: increment the first row of (year, word) or create one. */
    method AddToCount(rep: nat, w: string, n: nat)
      requires rep < |reports|
      requires Valid() && w in words
      modifies this
      ensures provinces == old(provinces) && companies == old(companies) && reports == old(reports)
      ensures words == old(words)
      ensures counts == AddCount(reports, old(counts), rep, w, n)
      ensures Valid()
    {
      AddCountKeepsReportWordUnique(reports, counts, rep, w, n);
      match FirstRow(reports, counts, reports[rep].anio, w) {
        case Some(k) =>
          counts := counts[k := counts[k].(cantidad := counts[k].cantidad + n)];
        case None =>
          counts := counts + [CountRow(rep, w, n)];
      }
    }

    /** `insertar_provincias`: inserts each row's province unless one with that name exists. */
    method InsertProvinces(rows: seq<string>)
      requires Valid()
      modifies this
      ensures provinces == AddMissing(old(provinces), rows)
      ensures companies == old(companies) && reports == old(reports)
      ensures words == old(words) && counts == old(counts)
      ensures Valid()
    {
      var i := 0;
      while i < |rows|
        invariant 0 <= i <= |rows|
        invariant provinces == AddMissing(old(provinces), rows[..i])
        invariant companies == old(companies) && reports == old(reports)
        invariant words == old(words) && counts == old(counts)
        invariant Valid()
      {
        assert rows[..i + 1][..i] == rows[..i];
        if rows[i] !in provinces {
          provinces := provinces + [rows[i]];
        }
        i := i + 1;
      }
      assert rows[..i] == rows;
    }

    /** `Provincia.objects.get_or_create(nombre=name)`; `None` for `MultipleObjectsReturned`. */
    method GetOrCreateProvince(name: string) returns (id: Option<nat>)
      requires Valid()
      modifies this
      ensures ProvinceGetOrCreate(old(provinces), name).None? ==> id.None? && provinces == old(provinces)
      ensures ProvinceGetOrCreate(old(provinces), name).Some? ==>
                id == Some(ProvinceGetOrCreate(old(provinces), name).value.1)
                && provinces == ProvinceGetOrCreate(old(provinces), name).value.0
      ensures companies == old(companies) && reports == old(reports)
      ensures words == old(words) && counts == old(counts)
      ensures Valid()
    {
      if Count(provinces, name) > 1 {
        return None;
      }
      if name in provinces {
        id := Some(IndexOf(provinces, name));
      } else {
        provinces := provinces + [name];
        id := Some(|provinces| - 1);
      }
    }

    /**
      `insertar_empresas`: for each row, get or create its province, then
      create the company unless its name or its RUC is taken. Returns false
      when a province lookup raised, which ends the import.
     */
    method InsertCompanies(rows: seq<CompanySheetRow>) returns (completed: bool)
      requires Valid()
      modifies this
      ensures (Catalog(provinces, companies), completed) ==
              SeedCompanies(Catalog(old(provinces), old(companies)), rows)
      ensures reports == old(reports) && words == old(words) && counts == old(counts)
      ensures Valid()
    {
      var i := 0;
      while i < |rows|
        invariant 0 <= i <= |rows|
        invariant (Catalog(provinces, companies), true) ==
                  SeedCompanies(Catalog(old(provinces), old(companies)), rows[..i])
        invariant reports == old(reports) && words == old(words) && counts == old(counts)
        invariant Valid()
      {
        SeedCompaniesSnoc(Catalog(old(provinces), old(companies)), rows, i);
        var ok := InsertCompanyRow(rows[i]);
        if !ok {
          SeedStopsAfterFailure(Catalog(old(provinces), old(companies)), rows, i + 1);
          return false;
        }
        i := i + 1;
      }
      assert rows[..i] == rows;
      completed := true;
    }

    /** One row of `insertar_empresas`; false when its province lookup raised. */
    method InsertCompanyRow(row: CompanySheetRow) returns (ok: bool)
      requires Valid()
      modifies this
      ensures var step := SeedCompanyRow(Catalog(old(provinces), old(companies)), row);
        && (ok <==> step.Some?)
        && (ok ==> Catalog(provinces, companies) == step.value)
        && (!ok ==> provinces == old(provinces) && companies == old(companies))
      ensures reports == old(reports) && words == old(words) && counts == old(counts)
      ensures Valid()
    {
      if SeedCompanyRow(Catalog(provinces, companies), row).Some? {
        SeedCompanyRowKeeps(Catalog(provinces, companies), row);
      }
      var pid := GetOrCreateProvince(row.provincia);
      if pid.None? {
        return false;
      }
      if !NameTaken(companies, row.nombre) && !RucTaken(companies, row.ruc) {
        companies := companies + [Company(row.ruc, row.nombre, pid.value)];
      }
      ok := true;
    }
  }

  /** A successful import of a prefix followed by one more row. */
  lemma SeedCompaniesSnoc(cat: Catalog, rows: seq<CompanySheetRow>, i: nat)
    requires i < |rows| && SeedCompanies(cat, rows[..i]).1
    ensures var c := SeedCompanies(cat, rows[..i]).0;
      SeedCompanies(cat, rows[..i + 1]) ==
        match SeedCompanyRow(c, rows[i])
        case None => (c, false)
        case Some(c') => (c', true)
  {
    assert rows[..i + 1][..i] == rows[..i];
  }

  /** Once a row fails, the import's result is fixed. */
  lemma {:induction false} SeedStopsAfterFailure(cat: Catalog, rows: seq<CompanySheetRow>, n: nat)
    requires 0 < n <= |rows|
    requires !SeedCompanies(cat, rows[..n]).1
    ensures SeedCompanies(cat, rows) == SeedCompanies(cat, rows[..n])
    decreases |rows|
  {
    if n < |rows| {
      var init := rows[..|rows| - 1];
      assert init[..n] == rows[..n];
      SeedStopsAfterFailure(cat, init, n);
    } else {
      assert rows[..n] == rows;
    }
  }
}
