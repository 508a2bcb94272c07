/**
  Identification of an uploaded document: its year (the first standalone
  four-digit 19xx/20xx number in its text) and the company it belongs to,
  either by a fuzzy comparison of each catalog company's name with the
  text's words and word windows, or (in the older admin upload) by a plain
  substring test. A catalog company whose name is "desconocido" in any
  letter case is the sentinel assigned when no company is recognised.
 */
module Identify {
  import opened Base
  import opened Text
  import opened Store

  // ---------------------------------------------------------------------------
  // Year detection: re.search(r'\b(20\d{2}|19\d{2})\b', text)
  // ---------------------------------------------------------------------------

  /** A 19xx or 20xx number starts at `i`, with a word boundary on each side. */
  predicate YearAt(s: string, i: nat) {
    && i + 4 <= |s|
    && ((s[i] == '2' && s[i + 1] == '0') || (s[i] == '1' && s[i + 1] == '9'))
    && IsDigit(s[i + 2]) && IsDigit(s[i + 3])
    && (i == 0 || !IsWordChar(s[i - 1]))
    && (i + 4 == |s| || !IsWordChar(s[i + 4]))
  }

  /** The leftmost position at or after `from` where a year starts. */
  function FirstYearFrom(s: string, from: nat): (r: Option<nat>)
    ensures r.Some? ==> from <= r.value && YearAt(s, r.value)
    ensures r.Some? ==> forall j :: from <= j < r.value ==> !YearAt(s, j)
    ensures r.None? ==> forall j :: from <= j ==> !YearAt(s, j)
    decreases |s| - from
  {
    if from + 4 > |s| then None
    else if YearAt(s, from) then Some(from)
    else FirstYearFrom(s, from + 1)
  }

  /** The detected year: the value of the leftmost match, or 0 when there is none. */
  function DetectYear(s: string): int
  {
    match FirstYearFrom(s, 0)
    case None => 0
    case Some(i) => ParseDigits(s[i..i + 4])
  }

  /**
    The detected year is 0 exactly when the text has no standalone 19xx/20xx
    number; otherwise it is the value of the leftmost one, between 1900 and 2099.
   */
  lemma DetectYearSpec(s: string)
    ensures DetectYear(s) == 0 <==> forall j :: 0 <= j ==> !YearAt(s, j)
    ensures DetectYear(s) != 0 ==> 1900 <= DetectYear(s) <= 2099
    ensures DetectYear(s) != 0 ==>
              exists i: nat :: YearAt(s, i) && DetectYear(s) == ParseDigits(s[i..i + 4])
                && forall j :: 0 <= j < i ==> !YearAt(s, j)
  {
    match FirstYearFrom(s, 0)
    case None =>
    case Some(i) => {
      FourDigits(s[i..i + 4]);
    }
  }

  /** The value of a four-digit numeral. */
  lemma FourDigits(d: string)
    requires |d| == 4 && AllDigits(d)
    ensures ParseDigits(d) == 1000 * DigitValue(d[0]) + 100 * DigitValue(d[1]) + 10 * DigitValue(d[2]) + DigitValue(d[3])
  {
    var d3 := d[..3];
    var d2 := d3[..2];
    var d1 := d2[..1];
    assert d[..|d| - 1] == d3 && d3[..|d3| - 1] == d2 && d2[..|d2| - 1] == d1 && d1[..|d1| - 1] == [];
    assert ParseDigits(d1) == DigitValue(d[0]);
    assert ParseDigits(d2) == 10 * DigitValue(d[0]) + DigitValue(d[1]);
  }

  /**
    A letter, digit or underscore glued to either side of a number hides it:
    no year starts there, so the detected year never comes from it.
   */
  lemma YearNeedsBoundaries(s: string, i: nat)
    requires (0 < i <= |s| && IsWordChar(s[i - 1])) || (i + 4 < |s| && IsWordChar(s[i + 4]))
    ensures !YearAt(s, i)
    ensures forall k: nat :: FirstYearFrom(s, k) != Some(i)
  {
  }

  /** Two instances: "2021" inside "a2021" or "20215" is not a year, and the next standalone number is. */
  lemma YearBoundaryExamples()
    ensures DetectYear("a2021 1999") == 1999
    ensures DetectYear("20215") == 0
  {
    var s := "a2021 1999";
    assert !YearAt(s, 0) && !YearAt(s, 1) && !YearAt(s, 2) && !YearAt(s, 3) && !YearAt(s, 4) && !YearAt(s, 5);
    assert YearAt(s, 6);
    assert FirstYearFrom(s, 0) == Some(6);
    assert s[6..10] == "1999";
    FourDigits("1999");
    var t := "20215";
    assert !YearAt(t, 0) && !YearAt(t, 1);
    assert FirstYearFrom(t, 0) == None;
  }

  // ---------------------------------------------------------------------------
  // The sentinel company
  // ---------------------------------------------------------------------------

  /** `nombre__iexact='Desconocido'`. */
  predicate IsSentinelName(nombre: string) {
    LowerStr(nombre) == "desconocido"
  }

  /** `Empresa.objects.filter(nombre__iexact='Desconocido').first()`. */
  function FirstSentinel(catalog: seq<Company>): (r: Option<nat>)
    ensures r.Some? ==> r.value < |catalog| && IsSentinelName(catalog[r.value].nombre)
    ensures r.Some? ==> forall j :: 0 <= j < r.value ==> !IsSentinelName(catalog[j].nombre)
    ensures r.None? ==> forall j :: 0 <= j < |catalog| ==> !IsSentinelName(catalog[j].nombre)
  {
    if catalog == [] then None
    else if IsSentinelName(catalog[0].nombre) then Some(0)
    else match FirstSentinel(catalog[1..])
      case None => None
      case Some(j) => Some(j + 1)
  }

  // ---------------------------------------------------------------------------
  // Fuzzy company resolution
  // ---------------------------------------------------------------------------

  /**
    `similar(name, fragment)` stands for
    `difflib.SequenceMatcher(None, name, fragment).ratio() >= 0.8`.
   */
  type Similarity = (string, string) -> bool

  /** The `k` tokens starting at token `i`, joined by single spaces. */
  function Window(tokens: seq<string>, k: nat, i: nat): string
    requires i + k <= |tokens|
  {
    JoinWith(" ", tokens[i..i + k])
  }

  /** First pass: some single token of the text is similar to the name. */
  predicate TokenPass(name: string, tokens: seq<string>, similar: Similarity) {
    exists t :: 0 <= t < |tokens| && similar(name, tokens[t])
  }

  /** Second pass: some window as wide as the name's token count is similar to the name. */
  predicate WindowPass(name: string, tokens: seq<string>, similar: Similarity) {
    var k := |Split(name)|;
    exists i :: 0 <= i && i + k <= |tokens| && similar(name, Window(tokens, k, i))
  }

  /** A company is recognised when its lowercased name passes one of the two passes on the lowercased text. */
  predicate CompanyMatches(nombre: string, tokens: seq<string>, similar: Similarity) {
    TokenPass(LowerStr(nombre), tokens, similar) || WindowPass(LowerStr(nombre), tokens, similar)
  }

  /** A name with more tokens than the text has no window to compare with. */
  lemma NoWindowsWhenNameLonger(name: string, tokens: seq<string>, similar: Similarity)
    requires |Split(name)| > |tokens|
    ensures !WindowPass(name, tokens, similar)
  {
  }

  /** For a one-word name the windows are the tokens themselves: the second pass adds nothing. */
  lemma OneWordWindowsAreTokens(name: string, tokens: seq<string>, similar: Similarity)
    requires |Split(name)| == 1
    ensures WindowPass(name, tokens, similar) <==> TokenPass(name, tokens, similar)
  {
    forall i | 0 <= i && i + 1 <= |tokens| ensures Window(tokens, 1, i) == tokens[i] {
      assert tokens[i..i + 1] == [tokens[i]];
    }
    if TokenPass(name, tokens, similar) {
      var t :| 0 <= t < |tokens| && similar(name, tokens[t]);
      assert similar(name, Window(tokens, 1, t));
    }
  }

  /** Both passes for one company, as the source runs them: windows only when no single token matched. */
  method MatchesFuzzy(name: string, tokens: seq<string>, similar: Similarity) returns (found: bool)
    ensures found == (TokenPass(name, tokens, similar) || WindowPass(name, tokens, similar))
  {
    var t := 0;
    while t < |tokens|
      invariant 0 <= t <= |tokens|
      invariant forall j :: 0 <= j < t ==> !similar(name, tokens[j])
    {
      if similar(name, tokens[t]) {
        return true;
      }
      t := t + 1;
    }
    var k := |Split(name)|;
    var i := 0;
    while i < |tokens| - k + 1
      invariant 0 <= i
      invariant forall j :: 0 <= j < i && j + k <= |tokens| ==> !similar(name, Window(tokens, k, j))
    {
      if similar(name, Window(tokens, k, i)) {
        return true;
      }
      i := i + 1;
    }
    found := false;
  }

  /** The first non-sentinel company at or after `from` that is recognised in the text. */
  function FirstMatchFrom(catalog: seq<Company>, tokens: seq<string>, similar: Similarity, from: nat): (r: Option<nat>)
    ensures r.Some? ==> from <= r.value < |catalog|
    decreases |catalog| - from
  {
    if from >= |catalog| then None
    else if !IsSentinelName(catalog[from].nombre) && CompanyMatches(catalog[from].nombre, tokens, similar) then Some(from)
    else FirstMatchFrom(catalog, tokens, similar, from + 1)
  }

  /** The company assigned to a text: the first recognised company in catalog order, otherwise the sentinel (if any). */
  function ResolveFuzzy(catalog: seq<Company>, text: string, similar: Similarity): Option<nat>
  {
    match FirstMatchFrom(catalog, Split(LowerStr(text)), similar, 0)
    case Some(i) => Some(i)
    case None => FirstSentinel(catalog)
  }

  lemma {:induction false} FirstMatchFromSpec(catalog: seq<Company>, tokens: seq<string>, similar: Similarity, from: nat)
    ensures var r := FirstMatchFrom(catalog, tokens, similar, from);
      && (r.Some? ==> !IsSentinelName(catalog[r.value].nombre) && CompanyMatches(catalog[r.value].nombre, tokens, similar))
      && (forall j :: from <= j < |catalog| && (r.None? || j < r.value) ==>
            IsSentinelName(catalog[j].nombre) || !CompanyMatches(catalog[j].nombre, tokens, similar))
    decreases |catalog| - from
  {
    if from < |catalog| {
      FirstMatchFromSpec(catalog, tokens, similar, from + 1);
    }
  }

  /**
    Resolution picks the first non-sentinel company, in catalog order, whose
    name is similar to a token or a window of the lowercased text; when none
    is, the first sentinel, or nothing when the catalog has none.
   */
  lemma ResolveFuzzySpec(catalog: seq<Company>, text: string, similar: Similarity)
    ensures var r := ResolveFuzzy(catalog, text, similar);
      var tokens := Split(LowerStr(text));
      && (r.Some? ==> r.value < |catalog|)
      && (r.Some? && !IsSentinelName(catalog[r.value].nombre) ==>
            CompanyMatches(catalog[r.value].nombre, tokens, similar)
            && forall j :: 0 <= j < r.value && !IsSentinelName(catalog[j].nombre) ==>
                 !CompanyMatches(catalog[j].nombre, tokens, similar))
      && ((exists j :: 0 <= j < |catalog| && !IsSentinelName(catalog[j].nombre) &&
             CompanyMatches(catalog[j].nombre, tokens, similar)) ==>
            r.Some? && !IsSentinelName(catalog[r.value].nombre))
      && ((forall j :: 0 <= j < |catalog| && !IsSentinelName(catalog[j].nombre) ==>
             !CompanyMatches(catalog[j].nombre, tokens, similar)) ==> r == FirstSentinel(catalog))
  {
    FirstMatchFromSpec(catalog, Split(LowerStr(text)), similar, 0);
  }

  /**
    The fuzzy company scan: start from the sentinel, try each non-sentinel
    company in turn, and stop at the first one recognised.
   */
  method ResolveCompanyFuzzy(catalog: seq<Company>, text: string, similar: Similarity) returns (chosen: Option<nat>)
    ensures chosen == ResolveFuzzy(catalog, text, similar)
  {
    chosen := FirstSentinel(catalog);
    var tokens := Split(LowerStr(text));
    var i := 0;
    while i < |catalog|
      invariant 0 <= i <= |catalog|
      invariant FirstMatchFrom(catalog, tokens, similar, 0) == FirstMatchFrom(catalog, tokens, similar, i)
      invariant chosen == FirstSentinel(catalog)
    {
      if !IsSentinelName(catalog[i].nombre) {
        var found := MatchesFuzzy(LowerStr(catalog[i].nombre), tokens, similar);
        if found {
          chosen := Some(i);
          return;
        }
      }
      i := i + 1;
    }
  }

  // ---------------------------------------------------------------------------
  // The scan as written, which stops on a sentinel not spelled "Desconocido"
  // ---------------------------------------------------------------------------

  /**
    The scan with the source's exit test, continuing at company `from` with
    the current assignment `chosen`: after each non-sentinel company it
    stops when something is chosen whose name is not exactly
    "Desconocido".
   */
  function ScanAsWritten(catalog: seq<Company>, tokens: seq<string>, similar: Similarity, from: nat, chosen: Option<nat>): Option<nat>
    requires chosen.Some? ==> chosen.value < |catalog|
    decreases |catalog| - from
  {
    if from >= |catalog| then chosen
    else if IsSentinelName(catalog[from].nombre) then ScanAsWritten(catalog, tokens, similar, from + 1, chosen)
    else
      var a := if CompanyMatches(catalog[from].nombre, tokens, similar) then Some(from) else chosen;
      if a.Some? && catalog[a.value].nombre != "Desconocido" then a
      else ScanAsWritten(catalog, tokens, similar, from + 1, a)
  }

  /** The company the source's scan assigns. */
  function ResolveFuzzyAsWritten(catalog: seq<Company>, text: string, similar: Similarity): Option<nat>
  {
    ScanAsWritten(catalog, Split(LowerStr(text)), similar, 0, FirstSentinel(catalog))
  }

  /** A one-word string of small letters is its own lowercase and its own single token. */
  lemma PlainWord(w: string)
    requires |w| > 0 && forall i :: 0 <= i < |w| ==> 'a' <= w[i] <= 'z'
    ensures LowerStr(w) == w
    ensures Split(w) == [w]
  {
    assert IsLowerCase(w) by {
      forall i | 0 <= i < |w| ensures !IsUpper(w[i]) {
        assert 'a' <= w[i] <= 'z';
      }
    }
    LowerStrIsLowerCase(w);
    assert IsToken(w) by {
      forall i | 0 <= i < |w| ensures !IsSpace(w[i]) {
        assert 'a' <= w[i] <= 'z';
      }
    }
    SplitOfTokenThenRest(w, []);
    assert w + [] == w;
  }

  /**
    A sentinel not spelled exactly "Desconocido" ends the scan after the
    first real company: with the catalog [desconocido, acme, beta] and the
    text "beta", for any similarity test that recognises "beta" and not
    "acme" in it, the scan as written assigns the sentinel although "beta"
    is recognised, which the "present means found" clause of
    `ResolveFuzzySpec` rules out.
   */
  lemma AsWrittenStopsEarly(similar: Similarity)
    requires similar("beta", "beta") && !similar("acme", "beta")
    ensures var catalog := [Company("0", "desconocido", 0), Company("1", "acme", 0), Company("2", "beta", 0)];
      && !IsSentinelName(catalog[2].nombre) && CompanyMatches(catalog[2].nombre, Split(LowerStr("beta")), similar)
      && ResolveFuzzyAsWritten(catalog, "beta", similar) == Some(0)
      && IsSentinelName(catalog[0].nombre)
      && ResolveFuzzy(catalog, "beta", similar) == Some(2)
  {
    var catalog := [Company("0", "desconocido", 0), Company("1", "acme", 0), Company("2", "beta", 0)];
    CounterexampleNames();
    CounterexampleMatches(similar);
    assert FirstSentinel(catalog) == Some(0);
    SentinelThenMissThenHit(catalog, ["beta"], similar);
  }

  /** The names of that counterexample: only the first is a sentinel, spelled in lowercase; the text is one token. */
  lemma CounterexampleNames()
    ensures IsSentinelName("desconocido") && "desconocido" != "Desconocido"
    ensures !IsSentinelName("acme") && !IsSentinelName("beta")
    ensures Split(LowerStr("beta")) == ["beta"]
  {
    LowercaseSentinel();
    PlainWord("beta");
    PlainWord("acme");
  }

  /** "desconocido" is the sentinel name in lowercase, and differs from "Desconocido" in its first letter. */
  lemma LowercaseSentinel()
    ensures IsSentinelName("desconocido") && "desconocido" != "Desconocido"
  {
    PlainWord("desconocido");
    assert "desconocido"[0] != "Desconocido"[0];
  }

  /** "Desconocido" is a sentinel name. */
  lemma CapitalisedSentinel()
    ensures IsSentinelName("Desconocido")
  {
    assert LowerStr("Desconocido") == "desconocido";
  }

  /** In that counterexample "acme" is not recognised and "beta" is. */
  lemma CounterexampleMatches(similar: Similarity)
    requires similar("beta", "beta") && !similar("acme", "beta")
    ensures !CompanyMatches("acme", ["beta"], similar)
    ensures CompanyMatches("beta", ["beta"], similar)
  {
    PlainWord("beta");
    PlainWord("acme");
    OneWordWindowsAreTokens("acme", ["beta"], similar);
    assert similar("beta", ["beta"][0]);
  }

  /**
    The shape of that counterexample: a lowercase sentinel, then a company
    that is not recognised, then one that is.
   */
  lemma SentinelThenMissThenHit(catalog: seq<Company>, tokens: seq<string>, similar: Similarity)
    requires |catalog| == 3
    requires IsSentinelName(catalog[0].nombre) && catalog[0].nombre != "Desconocido"
    requires !IsSentinelName(catalog[1].nombre) && !CompanyMatches(catalog[1].nombre, tokens, similar)
    requires !IsSentinelName(catalog[2].nombre) && CompanyMatches(catalog[2].nombre, tokens, similar)
    ensures ScanAsWritten(catalog, tokens, similar, 0, Some(0)) == Some(0)
    ensures FirstMatchFrom(catalog, tokens, similar, 0) == Some(2)
  {
    assert ScanAsWritten(catalog, tokens, similar, 1, Some(0)) == Some(0);
    assert FirstMatchFrom(catalog, tokens, similar, 2) == Some(2);
  }

  lemma {:induction false} ScanAsWrittenAgrees(catalog: seq<Company>, tokens: seq<string>, similar: Similarity, from: nat, chosen: Option<nat>)
    requires chosen.Some? ==> chosen.value < |catalog| && catalog[chosen.value].nombre == "Desconocido"
    ensures ScanAsWritten(catalog, tokens, similar, from, chosen) ==
            match FirstMatchFrom(catalog, tokens, similar, from)
            case Some(i) => Some(i)
            case None => chosen
    decreases |catalog| - from
  {
    if from < |catalog| {
      ScanAsWrittenAgrees(catalog, tokens, similar, from + 1, chosen);
      CapitalisedSentinel();
    }
  }

  /** When the sentinel is missing or spelled exactly "Desconocido", the scan as written and the intended one agree. */
  lemma AsWrittenAgreesWithExactSentinel(catalog: seq<Company>, text: string, similar: Similarity)
    requires FirstSentinel(catalog).Some? ==> catalog[FirstSentinel(catalog).value].nombre == "Desconocido"
    ensures ResolveFuzzyAsWritten(catalog, text, similar) == ResolveFuzzy(catalog, text, similar)
  {
    ScanAsWrittenAgrees(catalog, Split(LowerStr(text)), similar, 0, FirstSentinel(catalog));
  }

  // ---------------------------------------------------------------------------
  // Substring company resolution (admin upload)
  // ---------------------------------------------------------------------------

  /** `pat` occurs in `s` at position `i`. */
  predicate OccursAt(pat: string, s: string, i: nat) {
    i + |pat| <= |s| && s[i..i + |pat|] == pat
  }

  /** `pat in s` for strings. */
  predicate OccursIn(pat: string, s: string) {
    exists i: nat :: i <= |s| && OccursAt(pat, s, i)
  }

  /** The first non-sentinel company at or after `from` whose lowercased name occurs in `texto` (already lowercased). */
  function FirstOccurringFrom(catalog: seq<Company>, texto: string, from: nat): (r: Option<nat>)
    ensures r.Some? ==> (from <= r.value < |catalog|
      && !IsSentinelName(catalog[r.value].nombre) && OccursIn(LowerStr(catalog[r.value].nombre), texto))
    decreases |catalog| - from
  {
    if from >= |catalog| then None
    else if !IsSentinelName(catalog[from].nombre) && OccursIn(LowerStr(catalog[from].nombre), texto) then Some(from)
    else FirstOccurringFrom(catalog, texto, from + 1)
  }

  /** The company the admin upload assigns: the first whose name occurs in the text, ignoring case; otherwise the sentinel. */
  function ResolveBySubstring(catalog: seq<Company>, text: string): Option<nat>
  {
    match FirstOccurringFrom(catalog, LowerStr(text), 0)
    case Some(i) => Some(i)
    case None => FirstSentinel(catalog)
  }

  lemma {:induction false} FirstOccurringFromSkips(catalog: seq<Company>, texto: string, from: nat)
    ensures forall j :: (from <= j < |catalog| &&
              (FirstOccurringFrom(catalog, texto, from).None? || j < FirstOccurringFrom(catalog, texto, from).value)) ==>
              (IsSentinelName(catalog[j].nombre) || !OccursIn(LowerStr(catalog[j].nombre), texto))
    decreases |catalog| - from
  {
    if from < |catalog| {
      FirstOccurringFromSkips(catalog, texto, from + 1);
    }
  }

  /**
    The substring rule: the chosen company is a non-sentinel one whose
    lowercased name occurs in the lowercased text and no earlier one does;
    when none does, the sentinel (or nothing).
   */
  lemma ResolveBySubstringSpec(catalog: seq<Company>, text: string)
    ensures var r := ResolveBySubstring(catalog, text);
      && (r.Some? ==> r.value < |catalog|)
      && (r.Some? && !IsSentinelName(catalog[r.value].nombre) ==>
            OccursIn(LowerStr(catalog[r.value].nombre), LowerStr(text))
            && forall j :: 0 <= j < r.value && !IsSentinelName(catalog[j].nombre) ==>
                 !OccursIn(LowerStr(catalog[j].nombre), LowerStr(text)))
      && ((exists j :: 0 <= j < |catalog| && !IsSentinelName(catalog[j].nombre) &&
             OccursIn(LowerStr(catalog[j].nombre), LowerStr(text))) ==>
            r.Some? && !IsSentinelName(catalog[r.value].nombre))
      && ((forall j :: 0 <= j < |catalog| && !IsSentinelName(catalog[j].nombre) ==>
             !OccursIn(LowerStr(catalog[j].nombre), LowerStr(text))) ==> r == FirstSentinel(catalog))
  {
    FirstOccurringFromSkips(catalog, LowerStr(text), 0);
  }

  /** The admin upload's company scan: first company whose lowercased name is in the lowercased text. */
  method ResolveCompanyBySubstring(catalog: seq<Company>, text: string) returns (chosen: Option<nat>)
    ensures chosen == ResolveBySubstring(catalog, text)
  {
    chosen := FirstSentinel(catalog);
    var texto := LowerStr(text);
    var i := 0;
    while i < |catalog|
      invariant 0 <= i <= |catalog|
      invariant FirstOccurringFrom(catalog, texto, 0) == FirstOccurringFrom(catalog, texto, i)
      invariant chosen == FirstSentinel(catalog)
    {
      if !IsSentinelName(catalog[i].nombre) && OccursIn(LowerStr(catalog[i].nombre), texto) {
        chosen := Some(i);
        return;
      }
      i := i + 1;
    }
  }
}
