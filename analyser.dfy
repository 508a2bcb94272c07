/**
  The word-frequency analyser `count_frequent_words`: each document's text is
  lowercased, stripped of characters that are neither word characters nor
  whitespace, cleared of standalone digit runs, split on whitespace and
  filtered of stopwords and non-alphabetic tokens; the surviving tokens of
  all documents are counted together and listed by decreasing count, ties in
  the order the words were first seen.
 */
module Analyser {
  import opened Base
  import opened Text
  import opened Utf8
  import Ranking

  // ---------------------------------------------------------------------------
  // Normalisation of one text
  // ---------------------------------------------------------------------------

  /** `re.sub(r'[^\w\s]', '', s)`: keeps word characters and whitespace only. */
  function StripPunctuation(s: string): (r: string)
    ensures |r| <= |s|
    ensures forall i :: 0 <= i < |r| ==> IsWordChar(r[i]) || IsSpace(r[i])
    ensures IsLowerCase(s) ==> IsLowerCase(r)
  {
    if s == [] then []
    else if IsWordChar(s[0]) || IsSpace(s[0]) then [s[0]] + StripPunctuation(s[1..])
    else StripPunctuation(s[1..])
  }

  /**
    Punctuation stripping works character by character: it distributes over
    concatenation, keeps a word or whitespace character and drops any other,
    so a text without punctuation comes back unchanged.
   */
  lemma StripPunctuationSpec(s: string, c: char)
    ensures StripPunctuation([c]) == if IsWordChar(c) || IsSpace(c) then [c] else []
    ensures WordOrSpace(s) ==> StripPunctuation(s) == s
  {
    assert [c][1..] == [];
    if WordOrSpace(s) {
      StripPunctuationClean(s);
    }
  }

  lemma {:induction false} StripPunctuationClean(s: string)
    requires WordOrSpace(s)
    ensures StripPunctuation(s) == s
  {
    if s != [] {
      StripPunctuationClean(s[1..]);
      ConsAppend(s, []);
      assert s[1..] + [] == s[1..];
    }
  }

  /** Stripping a concatenation strips each part. */
  lemma {:induction false} StripPunctuationAppend(a: string, b: string)
    ensures StripPunctuation(a + b) == StripPunctuation(a) + StripPunctuation(b)
  {
    if a == [] {
      assert a + b == b;
    } else {
      ConsAppend(a, b);
      StripPunctuationAppend(a[1..], b);
    }
  }

  /** Length of the run of digits that starts `s`. */
  function DigitRun(s: string): (k: nat)
    ensures k <= |s|
    ensures forall i :: 0 <= i < k ==> IsDigit(s[i])
    ensures k < |s| ==> !IsDigit(s[k])
  {
    if s != [] && IsDigit(s[0]) then 1 + DigitRun(s[1..]) else 0
  }

  /**
    `re.sub(r'\b\d+\b', '', s)`, scanning left to right; `afterWord` tells
    whether the character before `s` (in the original text) is a word
    character, which decides whether a word boundary precedes `s[0]`.
   */
  function DropNumbers(s: string, afterWord: bool): (r: string)
    ensures |r| <= |s|
    decreases |s|
  {
    if s == [] then []
    else
      var k := DigitRun(s);
      if !afterWord && k > 0 && (k == |s| || !IsWordChar(s[k])) then DropNumbers(s[k..], true)
      else [s[0]] + DropNumbers(s[1..], IsWordChar(s[0]))
  }

  /** Number removal only deletes characters: lowercase text stays lowercase, and no new character class appears. */
  lemma {:induction false} DropNumbersKeepsClasses(s: string, afterWord: bool)
    ensures IsLowerCase(s) ==> IsLowerCase(DropNumbers(s, afterWord))
    ensures WordOrSpace(s) ==> WordOrSpace(DropNumbers(s, afterWord))
    decreases |s|
  {
    if s != [] {
      var k := DigitRun(s);
      if !afterWord && k > 0 && (k == |s| || !IsWordChar(s[k])) {
        DropNumbersKeepsClasses(s[k..], true);
      } else {
        DropNumbersKeepsClasses(s[1..], IsWordChar(s[0]));
      }
    }
  }

  /** Every character is a word character or whitespace, as after `StripPunctuation`. */
  predicate WordOrSpace(s: string) {
    forall i :: 0 <= i < |s| ==> IsWordChar(s[i]) || IsSpace(s[i])
  }

  /** The tokens `ws` without those made only of digits, in order. */
  function DropDigitTokens(ws: seq<string>): seq<string>
  {
    if ws == [] then [] else (if AllDigits(ws[0]) then [] else [ws[0]]) + DropDigitTokens(ws[1..])
  }

  /** Whitespace is kept and ends any word, so the scan restarts without a boundary flag. */
  lemma DropNumbersAtSpace(s: string, afterWord: bool)
    requires s != [] && IsSpace(s[0])
    ensures DropNumbers(s, afterWord) == [s[0]] + DropNumbers(s[1..], false)
  {
    SpaceIsNotWordChar(s[0]);
    assert DigitRun(s) == 0;
    assert !IsWordChar(s[0]);
  }

  /** Before whitespace or at the end, whether a word precedes makes no difference. */
  lemma DropNumbersFlagFree(s: string, afterWord: bool)
    requires s == [] || IsSpace(s[0])
    ensures DropNumbers(s, afterWord) == DropNumbers(s, false)
  {
    if s != [] {
      DropNumbersAtSpace(s, afterWord);
      DropNumbersAtSpace(s, false);
    }
  }

  /** Inside a word no boundary precedes a digit, so the rest of the word is kept as it is. */
  lemma {:induction false} DropNumbersInWord(w: string, rest: string)
    requires forall i :: 0 <= i < |w| ==> IsWordChar(w[i])
    ensures DropNumbers(w + rest, true) == w + DropNumbers(rest, true)
    decreases |w|
  {
    if w == [] {
      assert w + rest == rest;
    } else {
      ConsAppend(w, rest);
      ConsAppend(w, DropNumbers(rest, true));
      DropNumbersInWord(w[1..], rest);
    }
  }

  /** A token made only of digits, followed by whitespace or the end, is deleted. */
  lemma DropNumbersDigitToken(w: string, rest: string)
    requires w != [] && AllDigits(w)
    requires rest == [] || IsSpace(rest[0])
    ensures DropNumbers(w + rest, false) == DropNumbers(rest, false)
  {
    var s := w + rest;
    if rest != [] {
      SpaceIsNotWordChar(rest[0]);
      assert s[|w|] == rest[0];
    }
    assert forall i :: 0 <= i < |w| ==> s[i] == w[i];
    assert DigitRun(s) == |w|;
    assert s[|w|..] == rest;
    DropNumbersFlagFree(rest, true);
  }

  /** A token of word characters with a non-digit, followed by anything, is kept whole. */
  lemma DropNumbersWordToken(w: string, rest: string)
    requires w != [] && !AllDigits(w) && forall i :: 0 <= i < |w| ==> IsWordChar(w[i])
    ensures DropNumbers(w + rest, false) == w + DropNumbers(rest, true)
  {
    var s := w + rest;
    var k := DigitRun(s);
    var j :| 0 <= j < |w| && !IsDigit(w[j]);
    assert s[j] == w[j];
    assert k <= j;
    assert s[k] == w[k];
    ConsAppend(w, rest);
    ConsAppend(w, DropNumbers(rest, true));
    DropNumbersInWord(w[1..], rest);
  }

  /**
    On a text of word characters and whitespace, number removal deletes
    exactly the tokens made only of digits: the tokens afterwards are the
    tokens before, in order, without those.
   */
  lemma {:induction false} DropNumbersTokens(s: string)
    requires WordOrSpace(s)
    ensures Split(DropNumbers(s, false)) == DropDigitTokens(Split(s))
    decreases |s|
  {
    if s != [] {
      if IsSpace(s[0]) {
        DropNumbersAtSpace(s, false);
        DropNumbersTokens(s[1..]);
        var d := DropNumbers(s, false);
        SplitOfSpaceThenText(d);
        assert d[1..] == DropNumbers(s[1..], false);
      } else {
        var n := TokenLength(s);
        var w, rest := s[..n], s[n..];
        assert s == w + rest;
        if AllDigits(w) {
          DropNumbersDigitToken(w, rest);
        } else {
          DropNumbersWordToken(w, rest);
          DropNumbersFlagFree(rest, true);
        }
        DropNumbersTokens(rest);
        assert Split(s) == [w] + Split(rest);
        assert ([w] + Split(rest))[1..] == Split(rest);
        if !AllDigits(w) {
          var x := DropNumbers(rest, false);
          assert x == [] || IsSpace(x[0]) by {
            if rest != [] {
              DropNumbersAtSpace(rest, false);
            }
          }
          SplitOfTokenThenRest(w, x);
        }
      }
    }
  }

  /** The text after lowercasing, punctuation stripping and number removal. */
  function Normalize(text: string): (r: string)
    ensures IsLowerCase(r)
  {
    LowerStrIsLowerCase(text);
    DropNumbersKeepsClasses(StripPunctuation(LowerStr(text)), false);
    DropNumbers(StripPunctuation(LowerStr(text)), false)
  }

  /** `[w for w in ws if w not in stop and w.isalpha()]`. */
  function KeepMeaningful(ws: seq<string>, stop: set<string>): (r: seq<string>)
    ensures forall k :: 0 <= k < |r| ==> r[k] in ws && r[k] !in stop && IsAlphaWord(r[k])
    ensures forall w :: w in ws && w !in stop && IsAlphaWord(w) ==> w in r
  {
    if ws == [] then []
    else if ws[0] !in stop && IsAlphaWord(ws[0]) then [ws[0]] + KeepMeaningful(ws[1..], stop)
    else KeepMeaningful(ws[1..], stop)
  }

  /**
    The normalised text's tokens are the tokens of the lowercased text
    without punctuation, less those made only of digits.
   */
  lemma NormalizeTokens(text: string)
    ensures Split(Normalize(text)) == DropDigitTokens(Split(StripPunctuation(LowerStr(text))))
  {
    DropNumbersTokens(StripPunctuation(LowerStr(text)));
  }

  /** The tokens of one text that are counted. */
  function MeaningfulWords(text: string, stop: set<string>): seq<string>
  {
    KeepMeaningful(Split(Normalize(text)), stop)
  }

  /** A word that the analyser may count: lowercase, alphabetic, not a stopword. */
  predicate IsCountable(w: string, stop: set<string>) {
    w !in stop && IsAlphaWord(w) && IsLowerCase(w)
  }

  /**
    The counted words of a text are exactly its normalised tokens that are
    alphabetic and not stopwords; each is lowercase and none is made of digits.
   */
  lemma MeaningfulWordsSpec(text: string, stop: set<string>)
    ensures forall w :: w in MeaningfulWords(text, stop) <==>
              w in Split(Normalize(text)) && w !in stop && IsAlphaWord(w)
    ensures forall w :: multiset(MeaningfulWords(text, stop))[w] ==
              if w !in stop && IsAlphaWord(w) then multiset(Split(Normalize(text)))[w] else 0
    ensures forall w :: w in MeaningfulWords(text, stop) ==> IsCountable(w, stop) && !AllDigits(w)
  {
    MeaningfulWordsCount(text, stop);
    var n := Normalize(text);
    var ws := Split(n);
    forall w | w in MeaningfulWords(text, stop) ensures IsLowerCase(w) && !AllDigits(w) {
      var k :| 0 <= k < |ws| && ws[k] == w;
      SplitChars(n);
      assert forall i :: 0 <= i < |w| ==> w[i] in n;
      assert !IsDigit(w[0]);
    }
  }

  /** The filter keeps every occurrence of a kept word and none of a dropped one. */
  lemma {:induction false} KeepMeaningfulCount(ws: seq<string>, stop: set<string>, w: string)
    ensures multiset(KeepMeaningful(ws, stop))[w] == if w !in stop && IsAlphaWord(w) then multiset(ws)[w] else 0
  {
    if ws != [] {
      KeepMeaningfulCount(ws[1..], stop, w);
      assert ws == [ws[0]] + ws[1..];
    }
  }

  /** Every occurrence of a kept token is counted, so a word repeated in the text is counted as often. */
  lemma MeaningfulWordsCount(text: string, stop: set<string>)
    ensures forall w :: multiset(MeaningfulWords(text, stop))[w] ==
              if w !in stop && IsAlphaWord(w) then multiset(Split(Normalize(text)))[w] else 0
  {
    forall w ensures multiset(MeaningfulWords(text, stop))[w] ==
                     if w !in stop && IsAlphaWord(w) then multiset(Split(Normalize(text)))[w] else 0 {
      KeepMeaningfulCount(Split(Normalize(text)), stop, w);
    }
  }

  /** The counted words of several texts, in document order. */
  function AllWords(texts: seq<string>, stop: set<string>): seq<string>
  {
    if texts == [] then []
    else AllWords(texts[..|texts| - 1], stop) + MeaningfulWords(texts[|texts| - 1], stop)
  }

  lemma {:induction false} AllWordsCountable(texts: seq<string>, stop: set<string>)
    ensures forall w :: w in AllWords(texts, stop) ==> IsCountable(w, stop)
  {
    if texts != [] {
      AllWordsCountable(texts[..|texts| - 1], stop);
      MeaningfulWordsSpec(texts[|texts| - 1], stop);
    }
  }

  // ---------------------------------------------------------------------------
  // Reading the documents to analyse
  // ---------------------------------------------------------------------------

  /**
    A stored document as the analyser opens it: its path, its bytes, and the
    paragraph texts a Word parser finds in those bytes (`None` when it cannot
    parse them).
   */
  datatype StoredFile = StoredFile(path: string, data: seq<uint8>, paragraphs: Option<seq<string>>)

  /** What stops the analysis: the exception raised for one document. */
  datatype CountError =
    | Unsupported(path: string)     // ValueError: neither .docx nor .txt
    | UnreadableDocx(path: string)  // the Word parser fails
    | NotUtf8(path: string)         // UnicodeDecodeError on strict decoding

  /** Each paragraph followed by one space (`text += paragraph.text + " "`). */
  function Spaced(ps: seq<string>): string
  {
    if ps == [] then [] else Spaced(ps[..|ps| - 1]) + ps[|ps| - 1] + " "
  }

  /** Builds the text of a Word document paragraph by paragraph. */
  method SpacedText(ps: seq<string>) returns (text: string)
    ensures text == Spaced(ps)
    ensures Split(text) == SplitEach(ps)
  {
    text := "";
    var i := 0;
    while i < |ps|
      invariant 0 <= i <= |ps|
      invariant text == Spaced(ps[..i])
    {
      assert ps[..i + 1][..i] == ps[..i];
      text := text + ps[i] + " ";
      i := i + 1;
    }
    assert ps[..i] == ps;
    SplitSpaced(ps);
  }

  /** The tokens of each paragraph, paragraph after paragraph. */
  function SplitEach(ps: seq<string>): seq<string>
  {
    if ps == [] then [] else SplitEach(ps[..|ps| - 1]) + Split(ps[|ps| - 1])
  }

  /** A token ends where the whitespace that follows the text begins. */
  lemma {:induction false} TokenLengthBeforeSpace(a: string, c: string)
    requires c != [] && IsSpace(c[0])
    ensures TokenLength(a + c) == TokenLength(a)
    decreases |a|
  {
    if a == [] {
      assert a + c == c;
    } else if !IsSpace(a[0]) {
      assert (a + c)[1..] == a[1..] + c;
      TokenLengthBeforeSpace(a[1..], c);
    }
  }

  /** Text followed by whitespace splits into its own tokens and then those of the rest. */
  lemma {:induction false} SplitBeforeSpace(a: string, c: string)
    requires c != [] && IsSpace(c[0])
    ensures Split(a + c) == Split(a) + Split(c)
    decreases |a|
  {
    if a == [] {
      assert a + c == c;
    } else if IsSpace(a[0]) {
      assert (a + c)[1..] == a[1..] + c;
      SplitBeforeSpace(a[1..], c);
    } else {
      var n := TokenLength(a);
      TokenLengthBeforeSpace(a, c);
      assert (a + c)[..n] == a[..n];
      assert (a + c)[n..] == a[n..] + c;
      SplitBeforeSpace(a[n..], c);
    }
  }

  /** A whitespace character between two texts keeps their tokens apart. */
  lemma SplitAroundSpace(a: string, sp: char, b: string)
    requires IsSpace(sp)
    ensures Split(a + [sp] + b) == Split(a) + Split(b)
  {
    assert a + [sp] + b == a + ([sp] + b);
    SplitBeforeSpace(a, [sp] + b);
    SplitOfSpaceThenText([sp] + b);
    assert ([sp] + b)[1..] == b;
  }

  /** Joining paragraphs with a trailing space never glues words of two paragraphs. */
  lemma {:induction false} SplitSpaced(ps: seq<string>)
    ensures Split(Spaced(ps)) == SplitEach(ps)
  {
    if ps != [] {
      var init, last := ps[..|ps| - 1], ps[|ps| - 1];
      SplitSpaced(init);
      var t := Spaced(init) + last;
      SplitAroundSpace(t, ' ', []);
      assert Spaced(ps) == t + [' '] + [];
      SplitAfterSpaced(init, last);
    }
  }

  /** The spaced text of some paragraphs, which is empty or ends with a space, keeps its tokens apart from what follows. */
  lemma SplitAfterSpaced(ps: seq<string>, p: string)
    ensures Split(Spaced(ps) + p) == Split(Spaced(ps)) + Split(p)
  {
    if ps == [] {
      assert Spaced(ps) + p == p;
    } else {
      var front := Spaced(ps[..|ps| - 1]) + ps[|ps| - 1];
      assert Spaced(ps) == front + [' '];
      SplitAroundSpace(front, ' ', p);
      SplitAroundSpace(front, ' ', []);
      assert front + [' '] + [] == Spaced(ps);
      assert Spaced(ps) + p == front + [' '] + p;
    }
  }

  /** The text the analyser reads from one document, or the exception it raises. */
  function DocumentText(f: StoredFile): Result<string, CountError>
  {
    if EndsWith(LowerStr(f.path), ".docx") then
      match f.paragraphs
      case None => Err(UnreadableDocx(f.path))
      case Some(ps) => Ok(Spaced(ps))
    else if EndsWith(LowerStr(f.path), ".txt") then ReadText(f.path, f.data)
    else Err(Unsupported(f.path))
  }

  /** `open(path, 'r', encoding='utf-8').read()`: strict decoding, universal newlines. */
  function ReadText(path: string, data: seq<uint8>): Result<string, CountError>
  {
    match DecodeStrict(data)
    case None => Err(NotUtf8(path))
    case Some(t) => Ok(TranslateNewlines(t))
  }

  /** The texts of all documents, or the exception of the first one that fails. */
  function Texts(files: seq<StoredFile>): Result<seq<string>, CountError>
  {
    if files == [] then Ok([])
    else
      match Texts(files[..|files| - 1])
      case Err(e) => Err(e)
      case Ok(ts) =>
        match DocumentText(files[|files| - 1])
        case Err(e) => Err(e)
        case Ok(t) => Ok(ts + [t])
  }

  /** A document with an unsupported extension aborts the analysis with `ValueError`. */
  lemma {:induction false} UnsupportedAborts(files: seq<StoredFile>, i: nat)
    requires i < |files|
    requires !EndsWith(LowerStr(files[i].path), ".docx") && !EndsWith(LowerStr(files[i].path), ".txt")
    ensures Texts(files).Err?
  {
    assert DocumentText(files[i]).Err?;
    FailurePersists(files, i + 1);
  }

  lemma {:induction false} FailurePersists(files: seq<StoredFile>, n: nat)
    requires 0 < n <= |files|
    requires Texts(files[..n - 1]).Err? || DocumentText(files[n - 1]).Err?
    ensures Texts(files) == Texts(files[..n])
    ensures Texts(files).Err?
    decreases |files|
  {
    assert files[..n][..n - 1] == files[..n - 1];
    if n < |files| {
      var init := files[..|files| - 1];
      assert init[..n] == files[..n];
      assert init[..n - 1] == files[..n - 1];
      FailurePersists(init, n);
    } else {
      assert files[..n] == files;
    }
  }

  // ---------------------------------------------------------------------------
  // Counting
  // ---------------------------------------------------------------------------

  /** A `Counter`: words with their counts, in the order they were first seen. */
  type Tally = seq<(string, nat)>

  function CountOf(e: (string, nat)): int { e.1 }

  /** Index of the entry of `w`, if any. */
  function KeyIndex(c: Tally, w: string): (r: Option<nat>)
    ensures r.Some? ==> r.value < |c| && c[r.value].0 == w
    ensures r.None? ==> forall k :: 0 <= k < |c| ==> c[k].0 != w
  {
    if c == [] then None
    else if c[0].0 == w then Some(0)
    else match KeyIndex(c[1..], w)
      case None => None
      case Some(k) => Some(k + 1)
  }

  /** One more occurrence of `w` (`Counter.update` for one word). */
  function Bump(c: Tally, w: string): Tally
  {
    match KeyIndex(c, w)
    case Some(k) => c[k := (w, c[k].1 + 1)]
    case None => c + [(w, 1)]
  }

  /** The counter after feeding it `ws`, one word at a time. */
  function TallyFrom(c: Tally, ws: seq<string>): Tally
  {
    if ws == [] then c else Bump(TallyFrom(c, ws[..|ws| - 1]), ws[|ws| - 1])
  }

  lemma {:induction false} TallyFromAppend(c: Tally, a: seq<string>, b: seq<string>)
    ensures TallyFrom(c, a + b) == TallyFrom(TallyFrom(c, a), b)
    decreases |b|
  {
    if b == [] {
      assert a + b == a;
    } else {
      assert (a + b)[..|a + b| - 1] == a + b[..|b| - 1];
      TallyFromAppend(c, a, b[..|b| - 1]);
    }
  }

  /** Number of occurrences of `w` in `ws`. */
  function Occurrences(ws: seq<string>, w: string): (n: nat)
    ensures n > 0 <==> w in ws
    ensures n <= |ws|
  {
    if ws == [] then 0
    else
      var init := ws[..|ws| - 1];
      assert ws == init + [ws[|ws| - 1]];
      Occurrences(init, w) + (if ws[|ws| - 1] == w then 1 else 0)
  }

  function SumCounts(c: Tally): int
  {
    Ranking.SumOf(c, CountOf)
  }

  /** What a counter fed with `ws` holds: one entry per distinct word, with its number of occurrences, in first-seen order. */
  ghost predicate CountsOf(c: Tally, ws: seq<string>) {
    EntriesCount(c, ws) && Covers(c, ws) && InFirstSeenOrder(c, ws) && SumCounts(c) == |ws|
  }

  /** Each entry is a word of `ws` with its number of occurrences. */
  ghost predicate EntriesCount(c: Tally, ws: seq<string>) {
    forall k :: 0 <= k < |c| ==> c[k].0 in ws && c[k].1 == Occurrences(ws, c[k].0)
  }

  /** Every word of `ws` has an entry. */
  ghost predicate Covers(c: Tally, ws: seq<string>) {
    forall w :: w in ws ==> exists k :: 0 <= k < |c| && c[k].0 == w
  }

  /** Entries are in the order their words first appear in `ws`. */
  ghost predicate InFirstSeenOrder(c: Tally, ws: seq<string>) {
    forall k, l :: 0 <= k < l < |c| ==> c[k].0 in ws && c[l].0 in ws && IndexOf(ws, c[k].0) < IndexOf(ws, c[l].0)
  }

  lemma OccurrencesAppend(ws: seq<string>, w: string, v: string)
    ensures Occurrences(ws + [w], v) == Occurrences(ws, v) + (if w == v then 1 else 0)
  {
    assert (ws + [w])[..|ws|] == ws;
  }

  /** Appending a word leaves the first positions of earlier words as they were. */
  lemma IndexOfAppend(ws: seq<string>, w: string)
    ensures forall v :: v in ws ==> IndexOf(ws + [w], v) == IndexOf(ws, v)
    ensures w !in ws ==> IndexOf(ws + [w], w) == |ws|
  {
    forall v | v in ws ensures IndexOf(ws + [w], v) == IndexOf(ws, v) {
      var i := IndexOf(ws, v);
      assert (ws + [w])[i] == v;
    }
  }

  /** Entries in first-seen order have distinct words. */
  lemma OrderedKeysDistinct(c: Tally, ws: seq<string>, k: nat)
    requires InFirstSeenOrder(c, ws) && k < |c|
    ensures forall m :: 0 <= m < |c| && m != k ==> c[m].0 != c[k].0
  {
    forall m | 0 <= m < |c| && m != k ensures c[m].0 != c[k].0 {
      if m < k {
        assert IndexOf(ws, c[m].0) < IndexOf(ws, c[k].0);
      } else {
        assert IndexOf(ws, c[k].0) < IndexOf(ws, c[m].0);
      }
    }
  }

  /** Bumping the only entry of `w` keeps every entry's count right. */
  lemma BumpKnownEntries(c: Tally, ws: seq<string>, w: string, k: nat)
    requires EntriesCount(c, ws)
    requires k < |c| && c[k].0 == w
    requires forall m :: 0 <= m < |c| && m != k ==> c[m].0 != w
    ensures EntriesCount(c[k := (w, c[k].1 + 1)], ws + [w])
  {
    var ws', c' := ws + [w], c[k := (w, c[k].1 + 1)];
    forall m | 0 <= m < |c'| ensures c'[m].0 in ws' && c'[m].1 == Occurrences(ws', c'[m].0) {
      OccurrencesAppend(ws, w, c'[m].0);
    }
  }

  /** Bumping an entry keeps every word covered. */
  lemma BumpKnownCovers(c: Tally, ws: seq<string>, w: string, k: nat)
    requires Covers(c, ws)
    requires k < |c| && c[k].0 == w
    ensures Covers(c[k := (w, c[k].1 + 1)], ws + [w])
  {
    var ws', c' := ws + [w], c[k := (w, c[k].1 + 1)];
    forall v | v in ws' ensures exists m :: 0 <= m < |c'| && c'[m].0 == v {
      if v != w {
        var m :| 0 <= m < |c| && c[m].0 == v;
        assert c'[m].0 == v;
      } else {
        assert c'[k].0 == v;
      }
    }
  }

  /** Bumping an entry of a word already seen keeps the first-seen order. */
  lemma BumpKnownOrder(c: Tally, ws: seq<string>, w: string, k: nat)
    requires InFirstSeenOrder(c, ws)
    requires k < |c| && c[k].0 == w && w in ws
    ensures InFirstSeenOrder(c[k := (w, c[k].1 + 1)], ws + [w])
  {
    var ws', c' := ws + [w], c[k := (w, c[k].1 + 1)];
    IndexOfAppend(ws, w);
    forall m, l | 0 <= m < l < |c'|
      ensures c'[m].0 in ws' && c'[l].0 in ws' && IndexOf(ws', c'[m].0) < IndexOf(ws', c'[l].0)
    {
      assert c'[m].0 == c[m].0 && c'[l].0 == c[l].0;
    }
  }

  /** A word already counted: its entry goes up by one, in place. */
  lemma BumpKnown(c: Tally, ws: seq<string>, w: string, k: nat)
    requires CountsOf(c, ws)
    requires k < |c| && c[k].0 == w
    ensures CountsOf(c[k := (w, c[k].1 + 1)], ws + [w])
  {
    Ranking.SumOfUpdate(c, k, (w, c[k].1 + 1), CountOf);
    OrderedKeysDistinct(c, ws, k);
    BumpKnownEntries(c, ws, w, k);
    BumpKnownCovers(c, ws, w, k);
    BumpKnownOrder(c, ws, w, k);
  }

  /** A word not yet counted: a new entry with count one at the end. */
  lemma BumpNew(c: Tally, ws: seq<string>, w: string)
    requires CountsOf(c, ws)
    requires forall k :: 0 <= k < |c| ==> c[k].0 != w
    ensures CountsOf(c + [(w, 1)], ws + [w])
  {
    Ranking.SumOfAppend(c, [(w, 1)], CountOf);
    assert w !in ws;
    BumpNewEntries(c, ws, w);
    BumpNewCovers(c, ws, w);
    BumpNewOrder(c, ws, w);
  }

  /** A new entry for an unseen word counts it once and leaves the other counts right. */
  lemma BumpNewEntries(c: Tally, ws: seq<string>, w: string)
    requires EntriesCount(c, ws) && w !in ws
    ensures EntriesCount(c + [(w, 1)], ws + [w])
  {
    var ws', c' := ws + [w], c + [(w, 1)];
    forall m | 0 <= m < |c'| ensures c'[m].0 in ws' && c'[m].1 == Occurrences(ws', c'[m].0) {
      OccurrencesAppend(ws, w, c'[m].0);
      if m < |c| {
        assert c'[m] == c[m];
      }
    }
  }

  /** A new entry for the appended word keeps every word covered. */
  lemma BumpNewCovers(c: Tally, ws: seq<string>, w: string)
    requires Covers(c, ws)
    ensures Covers(c + [(w, 1)], ws + [w])
  {
    var ws', c' := ws + [w], c + [(w, 1)];
    forall v | v in ws' ensures exists m :: 0 <= m < |c'| && c'[m].0 == v {
      if v != w {
        var m :| 0 <= m < |c| && c[m].0 == v;
        assert c'[m].0 == v;
      } else {
        assert c'[|c|].0 == v;
      }
    }
  }

  /** An unseen word first appears after all words seen so far, so its entry goes last. */
  lemma BumpNewOrder(c: Tally, ws: seq<string>, w: string)
    requires InFirstSeenOrder(c, ws) && EntriesCount(c, ws) && w !in ws
    ensures InFirstSeenOrder(c + [(w, 1)], ws + [w])
  {
    var ws', c' := ws + [w], c + [(w, 1)];
    IndexOfAppend(ws, w);
    forall m, l | 0 <= m < l < |c'|
      ensures c'[m].0 in ws' && c'[l].0 in ws' && IndexOf(ws', c'[m].0) < IndexOf(ws', c'[l].0)
    {
      assert c'[m].0 == c[m].0 && c[m].0 in ws;
      if l < |c| {
        assert c'[l].0 == c[l].0;
      }
    }
  }

  /** Feeding one more word keeps the counter exact. */
  lemma BumpCounts(c: Tally, ws: seq<string>, w: string)
    requires CountsOf(c, ws)
    ensures CountsOf(Bump(c, w), ws + [w])
  {
    match KeyIndex(c, w)
    case Some(k) => BumpKnown(c, ws, w, k);
    case None => BumpNew(c, ws, w);
  }

  /** The counter fed with `ws` from empty counts exactly `ws`. */
  lemma {:induction false} TallyCounts(ws: seq<string>)
    ensures CountsOf(TallyFrom([], ws), ws)
  {
    if ws != [] {
      var init := ws[..|ws| - 1];
      TallyCounts(init);
      BumpCounts(TallyFrom([], init), init, ws[|ws| - 1]);
      assert init + [ws[|ws| - 1]] == ws;
    }
  }

  /** `Counter.most_common()`: by decreasing count, ties in counter order. */
  function MostCommon(c: Tally): Tally
  {
    Ranking.SortDesc(c, CountOf)
  }

  /**
    What `count_frequent_words` promises of its result `r` for the counted
    tokens `ws`: one entry per distinct token carrying its number of
    occurrences, by non-increasing count, ties in first-seen order, the counts
    adding up to the number of tokens.
   */
  ghost predicate IsMostCommon(r: Tally, ws: seq<string>) {
    && EntriesCount(r, ws) && Covers(r, ws) && DistinctWords(r)
    && Ranking.NonIncreasing(r, CountOf) && TiesFirstSeen(r, ws) && SumCounts(r) == |ws|
  }

  ghost predicate DistinctWords(r: Tally) {
    forall k, l :: 0 <= k < l < |r| ==> r[k].0 != r[l].0
  }

  /** Entries with equal counts are in the order their words first appear in `ws`. */
  ghost predicate TiesFirstSeen(r: Tally, ws: seq<string>) {
    forall k, l :: 0 <= k < l < |r| && r[k].1 == r[l].1 ==>
      r[k].0 in ws && r[l].0 in ws && IndexOf(ws, r[k].0) < IndexOf(ws, r[l].0)
  }

  /** Ranks by first appearance in `ws` (0 for words not in `ws`). */
  function FirstSeen(ws: seq<string>): ((string, nat)) -> int
  {
    (e: (string, nat)) => if e.0 in ws then IndexOf(ws, e.0) else 0
  }

  /** Every entry of the ranking is an entry of the counter and the other way round. */
  lemma RankedEntries(c: Tally, r: Tally, ws: seq<string>)
    requires CountsOf(c, ws) && multiset(r) == multiset(c)
    ensures EntriesCount(r, ws) && Covers(r, ws)
  {
    forall k | 0 <= k < |r| ensures r[k].0 in ws && r[k].1 == Occurrences(ws, r[k].0) {
      assert r[k] in multiset(c);
    }
    forall w | w in ws ensures exists k :: 0 <= k < |r| && r[k].0 == w {
      var m :| 0 <= m < |c| && c[m].0 == w;
      assert c[m] in multiset(r);
    }
  }

  /** Ties in the ranking keep the first-seen order, which also makes its words distinct. */
  lemma RankedTies(r: Tally, ws: seq<string>)
    requires EntriesCount(r, ws)
    requires Ranking.TiesOrdered(r, CountOf, FirstSeen(ws))
    ensures TiesFirstSeen(r, ws) && DistinctWords(r)
  {
    forall k, l | 0 <= k < l < |r| && r[k].1 == r[l].1
      ensures IndexOf(ws, r[k].0) < IndexOf(ws, r[l].0)
    {
      assert CountOf(r[k]) == CountOf(r[l]);
      assert FirstSeen(ws)(r[k]) < FirstSeen(ws)(r[l]);
    }
    forall k, l | 0 <= k < l < |r| ensures r[k].0 != r[l].0 {
    }
  }

  /** Counting then ranking meets the promise. */
  lemma MostCommonCorrect(ws: seq<string>)
    ensures IsMostCommon(MostCommon(TallyFrom([], ws)), ws)
  {
    var c := TallyFrom([], ws);
    var r := MostCommon(c);
    TallyCounts(ws);
    Ranking.SortDescPermutes(c, CountOf);
    RankedEntries(c, r, ws);
    Ranking.SortDescOrdered(c, CountOf);
    Ranking.SortDescStable(c, CountOf, FirstSeen(ws));
    RankedTies(r, ws);
    Ranking.SortDescKeepsSum(c, CountOf, CountOf);
  }

  // ---------------------------------------------------------------------------
  // count_frequent_words
  // ---------------------------------------------------------------------------

  /** The result of `count_frequent_words(files)` for the stopword set `stop`. */
  function FrequentWords(files: seq<StoredFile>, stop: set<string>): Result<Tally, CountError>
  {
    match Texts(files)
    case Err(e) => Err(e)
    case Ok(ts) => Ok(MostCommon(TallyFrom([], AllWords(ts, stop))))
  }

  /**
    The analyser's promise: on success, the counts of the counted words of all
    documents, each word lowercase, alphabetic and not a stopword.
   */
  lemma FrequentWordsSpec(files: seq<StoredFile>, stop: set<string>)
    requires FrequentWords(files, stop).Ok?
    ensures Texts(files).Ok?
    ensures IsMostCommon(FrequentWords(files, stop).value, AllWords(Texts(files).value, stop))
    ensures forall k :: 0 <= k < |FrequentWords(files, stop).value| ==>
              IsCountable(FrequentWords(files, stop).value[k].0, stop)
  {
    var ws := AllWords(Texts(files).value, stop);
    MostCommonCorrect(ws);
    AllWordsCountable(Texts(files).value, stop);
  }

  /** Counting one document fails exactly when reading it fails, with the same exception. */
  lemma FrequentWordsOfOne(f: StoredFile, stop: set<string>)
    ensures FrequentWords([f], stop).Err? <==> DocumentText(f).Err?
    ensures FrequentWords([f], stop).Err? ==> FrequentWords([f], stop).error == DocumentText(f).error
  {
    assert [f][..0] == [] && [f][0] == f;
    assert Texts([f]) == match DocumentText(f) case Err(e) => Err(e) case Ok(t) => Ok([] + [t]);
  }

  /** `count_frequent_words`: reads each document, feeds its counted words to one counter, ranks it. */
  method CountFrequentWords(files: seq<StoredFile>, stop: set<string>) returns (r: Result<Tally, CountError>)
    ensures r == FrequentWords(files, stop)
  {
    var counter: Tally := [];
    ghost var texts: seq<string> := [];
    var i := 0;
    while i < |files|
      invariant 0 <= i <= |files|
      invariant Texts(files[..i]) == Ok(texts)
      invariant counter == TallyFrom([], AllWords(texts, stop))
    {
      assert files[..i + 1][..i] == files[..i];
      var read := ReadDocument(files[i]);
      if read.Err? {
        FailurePersists(files, i + 1);
        return Err(read.error);
      }
      var text := read.value;
      var words := MeaningfulWords(text, stop);
      counter := UpdateCounter(counter, words);
      TallyFromAppend([], AllWords(texts, stop), words);
      assert (texts + [text])[..|texts|] == texts;
      texts := texts + [text];
      i := i + 1;
    }
    assert files[..i] == files;
    r := Ok(MostCommon(counter));
  }

  /** Opens one document: its paragraphs joined with spaces, or its decoded text, or the exception. */
  method ReadDocument(f: StoredFile) returns (r: Result<string, CountError>)
    ensures r == DocumentText(f)
  {
    var lowered := LowerStr(f.path);
    if EndsWith(lowered, ".docx") {
      if f.paragraphs.None? {
        return Err(UnreadableDocx(f.path));
      }
      var text := SpacedText(f.paragraphs.value);
      return Ok(text);
    } else if EndsWith(lowered, ".txt") {
      var decoded := DecodeStrict(f.data);
      if decoded.None? {
        return Err(NotUtf8(f.path));
      }
      return Ok(TranslateNewlines(decoded.value));
    }
    return Err(Unsupported(f.path));
  }

  /** `Counter.update(words)`: bumps the count of each word in turn. */
  method UpdateCounter(counter: Tally, words: seq<string>) returns (updated: Tally)
    ensures updated == TallyFrom(counter, words)
  {
    updated := counter;
    var j := 0;
    while j < |words|
      invariant 0 <= j <= |words|
      invariant updated == TallyFrom(counter, words[..j])
    {
      assert words[..j + 1][..j] == words[..j];
      updated := Bump(updated, words[j]);
      j := j + 1;
    }
    assert words[..j] == words;
  }
}
