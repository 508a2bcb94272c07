/**
  The rules of the `Reporte` record and of the count listings: the name a
  report takes when it is saved, its "top words" summary `top_palabras`, and
  the admin listing of count rows filtered by year and ordered by count.
 */
module Records {
  import opened Base
  import opened Text
  import opened Store
  import Ranking

  // ---------------------------------------------------------------------------
  // Reporte.save
  // ---------------------------------------------------------------------------

  /** The name a report without one receives: its file's base name, or "SinArchivo" when it has no file. */
  function DerivedName(archivo: string): string
  {
    Basename(if archivo != "" then archivo else "SinArchivo")
  }

  /** The name after `save`: kept when non-empty, derived otherwise. */
  function NameOnSave(nombre: string, archivo: string): string
  {
    if nombre == "" then DerivedName(archivo) else nombre
  }

  /**
    `save` never overwrites a name; a derived name is the part of the file
    name after its last '/', or "SinArchivo" without a file.
   */
  lemma NameOnSaveSpec(nombre: string, archivo: string)
    ensures nombre != "" ==> NameOnSave(nombre, archivo) == nombre
    ensures nombre == "" && archivo == "" ==> NameOnSave(nombre, archivo) == "SinArchivo"
    ensures nombre == "" && archivo != "" ==>
              var r := NameOnSave(nombre, archivo);
              '/' !in r && EndsWith(archivo, r) && (|r| < |archivo| ==> archivo[|archivo| - |r| - 1] == '/')
  {
    if nombre == "" && archivo != "" {
      BasenameSpec(archivo);
    } else if nombre == "" {
      BasenameSpec("SinArchivo");
      assert '/' !in "SinArchivo";
    }
  }

  /** Saving again leaves the name as the first save set it. */
  lemma NameOnSaveIdempotent(nombre: string, archivo: string)
    requires archivo != "" ==> archivo[|archivo| - 1] != '/'
    ensures NameOnSave(NameOnSave(nombre, archivo), archivo) == NameOnSave(nombre, archivo)
  {
    if nombre == "" {
      var a := if archivo != "" then archivo else "SinArchivo";
      assert a[|a| - 1] != '/';
      assert |Basename(a)| > 0 by {
        assert Basename(a) == Basename(a[..|a| - 1]) + [a[|a| - 1]];
      }
    }
  }

  /** A report object before and while it is saved. */
  class Reporte {
    var nombre: string
    var archivo: string
    var empresa: Option<nat>
    var anio: int

    /** A new report: no name yet, the given file, company and year. */
    constructor (archivo: string, empresa: Option<nat>, anio: int)
      ensures this.nombre == "" && this.archivo == archivo && this.empresa == empresa && this.anio == anio
    {
      this.nombre := "";
      this.archivo := archivo;
      this.empresa := empresa;
      this.anio := anio;
    }

    /**
      `Reporte.save` on a report not yet in the table: fills in the name when
      it is empty, then inserts the row. Only this first save, an insert, is
      modelled; saving the same object again would rewrite its row in place.
     */
    method Save(db: Database) returns (id: nat)
      modifies this, db
      ensures nombre == NameOnSave(old(nombre), archivo)
      ensures archivo == old(archivo) && empresa == old(empresa) && anio == old(anio)
      ensures db.reports == old(db.reports) + [ReportRow(nombre, archivo, empresa, anio)]
      ensures id == |old(db.reports)|
      ensures db.provinces == old(db.provinces) && db.companies == old(db.companies)
      ensures db.words == old(db.words) && db.counts == old(db.counts)
      ensures old(db.Valid()) && (empresa.Some? ==> empresa.value < |db.companies|) ==> db.Valid()
    {
      if nombre == "" {
        var base := if archivo != "" then archivo else "SinArchivo";
        nombre := Basename(base);
      }
      id := db.AddReport(ReportRow(nombre, archivo, empresa, anio));
    }
  }

  // ---------------------------------------------------------------------------
  // Filtering and ordering count rows
  // ---------------------------------------------------------------------------

  /** The rows of `s` that satisfy `p`, in order (a `filter(...)` query). */
  function Filter(s: seq<CountRow>, p: CountRow -> bool): (r: seq<CountRow>)
    ensures |r| <= |s|
  {
    if s == [] then []
    else Filter(s[..|s| - 1], p) + (if p(s[|s| - 1]) then [s[|s| - 1]] else [])
  }

  /** A filter keeps each row that satisfies the condition as often as it occurs, and no other row. */
  lemma {:induction false} FilterCount(s: seq<CountRow>, p: CountRow -> bool, x: CountRow)
    ensures multiset(Filter(s, p))[x] == if p(x) then multiset(s)[x] else 0
  {
    if s != [] {
      var init, last := s[..|s| - 1], s[|s| - 1];
      FilterCount(init, p, x);
      assert s == init + [last];
    }
  }

  /** A filter keeps exactly the rows that satisfy the condition, each as often as it occurs. */
  lemma FilterSpec(s: seq<CountRow>, p: CountRow -> bool)
    ensures forall x :: x in Filter(s, p) <==> x in s && p(x)
    ensures forall x :: p(x) ==> multiset(Filter(s, p))[x] == multiset(s)[x]
    ensures forall x :: !p(x) ==> multiset(Filter(s, p))[x] == 0
  {
    forall x ensures multiset(Filter(s, p))[x] == if p(x) then multiset(s)[x] else 0 {
      FilterCount(s, p, x);
    }
    forall x ensures x in Filter(s, p) <==> x in s && p(x) {
      assert x in Filter(s, p) <==> x in multiset(Filter(s, p));
      assert x in s <==> x in multiset(s);
    }
  }

  function Cantidad(row: CountRow): int { row.cantidad }

  /** `order_by('-cantidad')`; the source leaves the order of equal counts open, and the model keeps creation order. */
  function ByCount(rows: seq<CountRow>): seq<CountRow>
  {
    Ranking.SortDesc(rows, Cantidad)
  }

  /** The admin's year condition: none when the parameter is missing or empty. */
  function YearCondition(reports: seq<ReportRow>, anio: Option<int>): CountRow -> bool
  {
    (row: CountRow) => anio.None? || ReportYear(reports, row.reporte) == anio
  }

  /** `ConteoAdmin.get_queryset`: the count rows, of the requested year if any, by decreasing count. */
  function CountListing(reports: seq<ReportRow>, counts: seq<CountRow>, anio: Option<int>): seq<CountRow>
  {
    ByCount(Filter(counts, YearCondition(reports, anio)))
  }

  /**
    The listing holds exactly the rows whose report has the requested year
    (all rows without a year), each once per occurrence, by non-increasing count.
   */
  lemma CountListingSpec(reports: seq<ReportRow>, counts: seq<CountRow>, anio: Option<int>)
    ensures var l := CountListing(reports, counts, anio);
      && (forall x :: x in l <==> x in counts && (anio.None? || ReportYear(reports, x.reporte) == anio))
      && (anio.None? ==> multiset(l) == multiset(counts))
      && Ranking.NonIncreasing(l, Cantidad)
  {
    var p := YearCondition(reports, anio);
    var f := Filter(counts, p);
    FilterSpec(counts, p);
    Ranking.SortDescPermutes(f, Cantidad);
    Ranking.SortDescOrdered(f, Cantidad);
    var l := ByCount(f);
    forall x ensures x in l <==> x in f {
      assert x in l <==> x in multiset(l);
      assert x in f <==> x in multiset(f);
    }
    if anio.None? {
      assert multiset(f) == multiset(counts) by {
        forall x ensures multiset(f)[x] == multiset(counts)[x] {
          assert p(x);
        }
      }
    }
  }

  // ---------------------------------------------------------------------------
  // Reporte.top_palabras
  // ---------------------------------------------------------------------------

  /** The count rows of report `rep` (`self.conteo_set`). */
  function RowsOf(counts: seq<CountRow>, rep: nat): seq<CountRow>
  {
    Filter(counts, (row: CountRow) => row.reporte == rep)
  }

  /** `conteo_set.order_by('-cantidad')[:k]`. */
  function TopRows(counts: seq<CountRow>, rep: nat, k: nat): seq<CountRow>
  {
    var sorted := ByCount(RowsOf(counts, rep));
    sorted[..if k <= |sorted| then k else |sorted|]
  }

  /** In rows sorted by non-increasing count, a row with a larger count than a row of a prefix is in that prefix. */
  lemma PrefixHoldsLarger(sorted: seq<CountRow>, m: nat, x: CountRow, j: nat)
    requires Ranking.NonIncreasing(sorted, Cantidad) && m <= |sorted|
    requires x in sorted && j < m && x.cantidad > sorted[j].cantidad
    ensures x in sorted[..m]
  {
    var i :| 0 <= i < |sorted| && sorted[i] == x;
    assert j < i ==> Cantidad(sorted[j]) >= Cantidad(sorted[i]);
    assert sorted[..m][i] == x;
  }

  /**
    The top rows: `k` of them, or all when there are fewer, all of report `rep`,
    by non-increasing count, and no row of the report is left out while a
    listed row has a smaller count.
   */
  lemma TopRowsSpec(counts: seq<CountRow>, rep: nat, k: nat)
    ensures var t := TopRows(counts, rep, k);
      && |t| == (if k <= |RowsOf(counts, rep)| then k else |RowsOf(counts, rep)|)
      && (forall x :: x in t ==> x in counts && x.reporte == rep)
      && Ranking.NonIncreasing(t, Cantidad)
      && (forall x, j :: x in counts && x.reporte == rep && 0 <= j < |t| && x.cantidad > t[j].cantidad ==> x in t)
      && multiset(t) <= multiset(RowsOf(counts, rep))
  {
    TopRowsFromRows(counts, rep, k);
    var sorted := ByCount(RowsOf(counts, rep));
    var m := if k <= |sorted| then k else |sorted|;
    var t := sorted[..m];
    SortedRowsSpec(counts, rep);
    forall x | x in t ensures x in sorted {
      var i :| 0 <= i < m && t[i] == x;
      assert sorted[i] == x;
    }
    forall x, j | x in counts && x.reporte == rep && 0 <= j < |t| && x.cantidad > t[j].cantidad
      ensures x in t
    {
      PrefixHoldsLarger(sorted, m, x, j);
    }
  }

  /** The top rows are taken from the report's rows: no row is listed more often than it occurs. */
  lemma TopRowsFromRows(counts: seq<CountRow>, rep: nat, k: nat)
    ensures multiset(TopRows(counts, rep, k)) <= multiset(RowsOf(counts, rep))
  {
    var rows := RowsOf(counts, rep);
    var sorted := ByCount(rows);
    var m := if k <= |sorted| then k else |sorted|;
    Ranking.SortDescPermutes(rows, Cantidad);
    assert sorted == sorted[..m] + sorted[m..];
  }

  /** The rows of a report by count: the report's rows and only them, by non-increasing count. */
  lemma SortedRowsSpec(counts: seq<CountRow>, rep: nat)
    ensures var sorted := ByCount(RowsOf(counts, rep));
      && (forall x :: x in sorted <==> x in counts && x.reporte == rep)
      && Ranking.NonIncreasing(sorted, Cantidad)
  {
    var rows := RowsOf(counts, rep);
    var sorted := ByCount(rows);
    FilterSpec(counts, (row: CountRow) => row.reporte == rep);
    Ranking.SortDescPermutes(rows, Cantidad);
    Ranking.SortDescOrdered(rows, Cantidad);
    forall x ensures x in sorted <==> x in rows {
      assert x in sorted <==> x in multiset(sorted);
      assert x in rows <==> x in multiset(rows);
    }
  }

  /** One listed entry: `f"{word} ({count})"`. */
  function Entry(row: CountRow): string
  {
    row.palabra + " (" + NatToString(row.cantidad) + ")"
  }

  /** `top_palabras(k)`: the top rows rendered and joined with ", ". */
  function TopWords(counts: seq<CountRow>, rep: nat, k: nat): string
  {
    JoinWith(", ", seq(|TopRows(counts, rep, k)|, i requires 0 <= i < |TopRows(counts, rep, k)| => Entry(TopRows(counts, rep, k)[i])))
  }

  /** The number of entries `top_palabras` lists when called without an argument, as the admin list does. */
  const DefaultTopCount: nat := 5

  /** The admin list's "Top palabras" column: `top_palabras()` with its default count. */
  function ListedTopWords(counts: seq<CountRow>, rep: nat): string
  {
    TopWords(counts, rep, DefaultTopCount)
  }

  /**
    The admin column shows the five largest counts of the report, or all of
    them when it has fewer, and is empty only for a report without counts.
   */
  lemma ListedTopWordsSpec(counts: seq<CountRow>, rep: nat)
    ensures |TopRows(counts, rep, DefaultTopCount)| == if |RowsOf(counts, rep)| < 5 then |RowsOf(counts, rep)| else 5
    ensures ListedTopWords(counts, rep) == "" <==> RowsOf(counts, rep) == []
  {
    TopRowsSpec(counts, rep, DefaultTopCount);
    TopWordsEmpty(counts, rep, DefaultTopCount);
  }

  /** `top_palabras` is empty exactly when no row is listed. */
  lemma TopWordsEmpty(counts: seq<CountRow>, rep: nat, k: nat)
    ensures TopWords(counts, rep, k) == "" <==> TopRows(counts, rep, k) == []
    ensures RowsOf(counts, rep) == [] ==> TopWords(counts, rep, k) == ""
  {
    var t := TopRows(counts, rep, k);
    var parts := seq(|t|, i requires 0 <= i < |t| => Entry(t[i]));
    JoinNonEmpty(", ", parts);
  }

  lemma {:induction false} JoinNonEmpty(sep: string, parts: seq<string>)
    requires forall i :: 0 <= i < |parts| ==> parts[i] != ""
    ensures JoinWith(sep, parts) == "" <==> parts == []
  {
    if |parts| > 1 {
      JoinNonEmpty(sep, parts[1..]);
    }
  }

  /** Number of decimal digits at the end of `s`. */
  function TrailingDigits(s: string): (d: nat)
    ensures d <= |s|
    ensures AllDigits(s[|s| - d..])
    ensures d < |s| ==> !IsDigit(s[|s| - 1 - d])
  {
    if s != [] && IsDigit(s[|s| - 1]) then
      var d := 1 + TrailingDigits(s[..|s| - 1]);
      assert s[|s| - d..] == s[..|s| - 1][|s| - d..] + [s[|s| - 1]];
      d
    else 0
  }

  /** Reads one entry back: the word and the count of `"<word> (<count>)"`. */
  function ParseEntry(s: string): Option<(string, nat)>
  {
    if s == [] || s[|s| - 1] != ')' then None
    else
      var body := s[..|s| - 1];
      var d := TrailingDigits(body);
      var front := body[..|body| - d];
      if d == 0 || !EndsWith(front, " (") then None
      else Some((front[..|front| - 2], ParseDigits(body[|body| - d..])))
  }

  lemma {:induction false} TrailingDigitsOf(a: string, ds: string)
    requires AllDigits(ds)
    requires a != [] && !IsDigit(a[|a| - 1])
    ensures TrailingDigits(a + ds) == |ds|
    decreases |ds|
  {
    if ds != [] {
      assert (a + ds)[..|a + ds| - 1] == a + ds[..|ds| - 1];
      TrailingDigitsOf(a, ds[..|ds| - 1]);
    }
  }

  /** Every entry of `top_palabras` can be read back into its word and count. */
  lemma ParseEntryRoundTrip(row: CountRow)
    ensures ParseEntry(Entry(row)) == Some((row.palabra, row.cantidad))
  {
    var s := Entry(row);
    var digits := NatToString(row.cantidad);
    var front := row.palabra + " (";
    assert s == front + digits + ")";
    var body := s[..|s| - 1];
    assert body == front + digits;
    TrailingDigitsOf(front, digits);
    assert body[..|body| - |digits|] == front;
    assert body[|body| - |digits|..] == digits;
    assert front[..|front| - 2] == row.palabra;
    ParseNatToString(row.cantidad);
  }
}
