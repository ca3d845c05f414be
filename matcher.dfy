/** Matching a step's text description to one of the detected elements.
    The cascade tries, in order: an exact (substring) match on the
    description or OCR text, a fuzzy match scored by the string-similarity
    library, a partial keyword match, and finally hand-tuned layout rules for
    the Slovak login form and the screens after it. Each stage keeps the
    first element with a strictly better score than every earlier one. The
    similarity scorers are a foreign library and enter as a parameter. */
module Matcher {
  import opened Wrappers
  import opened Text
  import opened Select
  import opened Vision

  /** A score from one of the similarity scorers: a whole percentage. */
  type Percent = x: int | 0 <= x <= 100

  datatype FuzzKind = Ratio | PartialRatio | TokenSortRatio | TokenSetRatio

  /** The similarity scorers of the fuzzy string library. */
  type Fuzz = (FuzzKind, string, string) -> Percent

  datatype MatchType =
    | Exact | Fuzzy | Partial
    | SlovakPosition | SlovakSearch | SlovakPatient | SlovakNewOrder | SlovakCategory

  datatype MatchResult = MatchResult(element: UIElement, score: real, matchType: MatchType)

  /** The matcher's default threshold for fuzzy scores. */
  const DefaultFuzzyThreshold: real := 70.0

  // ---------------------------------------------------------------------
  // Normalisation of OCR misreadings

  /** The OCR fix-up table, in insertion order: (misreading, correction). */
  const OcrFixes: seq<(string, string)> := [
    ("iekara", "lekara"),
    ("vyhiadat", "vyhladat"),
    ("Iekara", "Lekara"),
    ("vyhIadat", "vyhladat"),
    ("zadajte", "zadajte"),
    ("rc/id", "rc/id")
  ]

  /** The matcher's configuration: its fuzzy threshold and its
      OCR fix-up table, both fixed when the matcher is built. */
  datatype Settings = Settings(fuzzyThreshold: real, ocrFixes: seq<(string, string)>)

  /** A matcher built with the given threshold and the standard table. */
  function NewMatcher(fuzzyThreshold: real): (m: Settings)
    ensures m.fuzzyThreshold == fuzzyThreshold && m.ocrFixes == OcrFixes
  {
    Settings(fuzzyThreshold, OcrFixes)
  }

  /** Applies the fixes front to back, each one with both sides lower-cased. */
  function ApplyFixes(s: string, fixes: seq<(string, string)>): (r: string)
    ensures NoUpper(s) ==> NoUpper(r)
    decreases |fixes|
  {
    if fixes == [] then s
    else ApplyFixes(ReplaceAll(s, Lower(fixes[0].0), Lower(fixes[0].1)), fixes[1..])
  }

  /** Lower-cases, then applies the fix-up table; the result is lower-case. */
  function Normalize(text: string, fixes: seq<(string, string)>): (r: string)
    ensures NoUpper(r)
  {
    ApplyFixes(Lower(text), fixes)
  }

  method NormalizeSlovakText(text: string, fixes: seq<(string, string)>) returns (normalized: string)
    ensures normalized == Normalize(text, fixes)
  {
    normalized := Lower(text);
    for i := 0 to |fixes|
      invariant ApplyFixes(normalized, fixes[i..]) == Normalize(text, fixes)
    {
      var (err, fix) := fixes[i];
      assert fixes[i..][1..] == fixes[i + 1..];
      normalized := ReplaceAll(normalized, Lower(err), Lower(fix));
    }
  }

  /** A table leaves the text alone when each of its entries either replaces
      a word by itself or finds nothing to replace. */
  lemma {:induction false} ApplyFixesUntouched(s: string, fixes: seq<(string, string)>)
    requires forall k :: 0 <= k < |fixes| ==>
      Lower(fixes[k].0) == Lower(fixes[k].1) || !Contains(s, Lower(fixes[k].0))
    ensures ApplyFixes(s, fixes) == s
    decreases |fixes|
  {
    if fixes != [] {
      var p := Lower(fixes[0].0);
      if p == Lower(fixes[0].1) {
        ReplaceSelf(s, p);
      }
      assert ReplaceAll(s, p, Lower(fixes[0].1)) == s;
      assert forall k :: 0 <= k < |fixes[1..]| ==> fixes[1..][k] == fixes[k + 1];
      ApplyFixesUntouched(s, fixes[1..]);
    }
  }

  /** Applying two tables one after the other is applying the joined table. */
  lemma {:induction false} ApplyFixesAppend(s: string, f1: seq<(string, string)>, f2: seq<(string, string)>)
    ensures ApplyFixes(s, f1 + f2) == ApplyFixes(ApplyFixes(s, f1), f2)
    decreases |f1|
  {
    if f1 != [] {
      assert (f1 + f2)[1..] == f1[1..] + f2;
      ApplyFixesAppend(ReplaceAll(s, Lower(f1[0].0), Lower(f1[0].1)), f1[1..], f2);
    } else {
      assert f1 + f2 == f2;
    }
  }

  /** A text that reads exactly as the misreading of entry `k` normalises to
      that entry's correction, when the entries before it leave the
      misreading alone and those after it leave the correction alone. */
  lemma NormalizeFix(text: string, fixes: seq<(string, string)>, k: nat)
    requires k < |fixes| && Lower(text) == Lower(fixes[k].0) && Lower(text) != []
    requires forall j :: 0 <= j < k ==>
      Lower(fixes[j].0) == Lower(fixes[j].1) || !Contains(Lower(text), Lower(fixes[j].0))
    requires forall j :: k < j < |fixes| ==>
      Lower(fixes[j].0) == Lower(fixes[j].1) || !Contains(Lower(fixes[k].1), Lower(fixes[j].0))
    ensures Normalize(text, fixes) == Lower(fixes[k].1)
  {
    var w := Lower(text);
    var v := Lower(fixes[k].1);
    var before, after := fixes[..k], fixes[k + 1..];
    assert fixes == before + [fixes[k]] + after;
    ApplyFixesAppend(w, before + [fixes[k]], after);
    ApplyFixesAppend(w, before, [fixes[k]]);
    ApplyFixesUntouched(w, before);
    IndexOfFirst(w, w, 0);
    ReplaceAllFirst(w, w, v, 0);
    assert ReplaceAll(w[|w|..], w, v) == [];
    assert ApplyFixes(w, before + [fixes[k]]) == v;
    ApplyFixesUntouched(v, after);
  }

  // ---------------------------------------------------------------------
  // The scans shared by the stages

  /** A stage whose scan keeps an element when its score reaches
      `threshold` and beats the best score so far (initially 0): the first
      element of highest acceptable score, tagged `tag`. */
  function ThresholdMatch(es: seq<UIElement>, score: UIElement -> real, threshold: real, tag: MatchType)
    : (r: Option<MatchResult>)
    ensures r.None? <==> forall k :: 0 <= k < |es| ==> !(score(es[k]) >= threshold && score(es[k]) > 0.0)
    ensures r.Some? ==> r.value.matchType == tag && r.value.score >= threshold && r.value.score > 0.0
    ensures r.Some? ==> exists k :: (0 <= k < |es| && r.value.element == es[k] && r.value.score == score(es[k])
      && (forall j :: 0 <= j < |es| && score(es[j]) >= threshold ==> score(es[j]) <= r.value.score)
      && (forall j :: 0 <= j < k && score(es[j]) >= threshold ==> score(es[j]) < r.value.score))
  {
    var g := Gated(score, threshold);
    match BestBy(es, g)
    case None =>
      assert forall k :: 0 <= k < |es| ==> g(es[k]) <= 0.0;
      None
    case Some(k) =>
      assert forall j :: 0 <= j < |es| ==> g(es[j]) <= g(es[k]);
      Some(MatchResult(es[k], score(es[k]), tag))
  }

  // ---------------------------------------------------------------------
  // Exact stage

  /** One side of the exact test: the target and the text, raw or
      normalised, contain one another, and the text is not blank. */
  predicate TextHit(t: string, nt: string, x: string, nx: string) {
    (Contains(nx, nt) || Contains(nt, nx) || Contains(x, t) || Contains(t, x)) && !IsBlank(x)
  }

  /** The exact test for one element, on its description or its OCR text. */
  predicate ExactHit(t: string, nt: string, e: UIElement, fixes: seq<(string, string)>) {
    var desc := Lower(e.description);
    var ocr := Lower(e.ocrText);
    TextHit(t, nt, desc, Normalize(desc, fixes)) || TextHit(t, nt, ocr, Normalize(ocr, fixes))
  }

  function ExactTest(t: string, nt: string, fixes: seq<(string, string)>): UIElement -> bool {
    e => ExactHit(t, nt, e, fixes)
  }

  /** The exact stage scores 100 for an element passing `hit` and keeps the
      first such element, since later ones do not score strictly more. */
  function ExactStage(es: seq<UIElement>, hit: UIElement -> bool): (r: Option<MatchResult>)
    ensures r.None? <==> forall k :: 0 <= k < |es| ==> !hit(es[k])
    ensures r.Some? ==> r.value.matchType == Exact && r.value.score == 100.0
    ensures r.Some? ==> exists k :: (0 <= k < |es| && r.value.element == es[k] && hit(es[k])
      && forall j :: 0 <= j < k ==> !hit(es[j]))
  {
    var f := Indicator(hit, 100.0);
    match BestBy(es, f)
    case None =>
      assert forall k :: 0 <= k < |es| ==> f(es[k]) <= 0.0;
      None
    case Some(k) =>
      assert forall j :: 0 <= j < k ==> f(es[j]) < f(es[k]);
      Some(MatchResult(es[k], 100.0, Exact))
  }

  // ---------------------------------------------------------------------
  // Fuzzy stage

  /** Keyword groups of element roles that earn the type boost. */
  const ElementTypeKeywords: seq<seq<string>> := [
    ["button", "btn", "submit", "prihlasit", "login", "sign in"],
    ["field", "input", "text", "password", "email", "username"],
    ["link", "href"]
  ]

  function TypeBoostIn(t: string, desc: string, groups: seq<seq<string>>): (b: real)
    ensures b == 0.0 || b == 10.0
    ensures b == 10.0 <==> exists k :: 0 <= k < |groups| && ContainsAny(t, groups[k]) && ContainsAny(desc, groups[k])
  {
    if groups == [] then 0.0
    else if ContainsAny(t, groups[0]) && ContainsAny(desc, groups[0]) then 10.0
    else
      var b := TypeBoostIn(t, desc, groups[1..]);
      assert forall k :: 1 <= k < |groups| ==> groups[k] == groups[1..][k - 1];
      b
  }

  /** A bonus of 10 when some role group has a keyword in the target and a
      keyword in the element description, else 0. */
  function TypeBoost(t: string, desc: string): (b: real)
    ensures b == 0.0 || b == 10.0
    ensures b == 10.0 <==> exists k :: (0 <= k < |ElementTypeKeywords|
      && ContainsAny(t, ElementTypeKeywords[k]) && ContainsAny(desc, ElementTypeKeywords[k]))
  {
    TypeBoostIn(t, desc, ElementTypeKeywords)
  }

  /** `max(v)` on a non-empty list of percentages. */
  function MaxPercent(v: seq<Percent>): (m: Percent)
    requires |v| > 0
    ensures m in v
    ensures forall k :: 0 <= k < |v| ==> v[k] <= m
  {
    if |v| == 1 then v[0]
    else
      var m := MaxPercent(v[1..]);
      if v[0] >= m then v[0] else m
  }

  /** The thirteen similarity values computed for one element: four scorers
      on the raw description, four on the raw OCR text, and five comparisons
      of the normalised texts. */
  function FuzzValues(t: string, nt: string, desc: string, nd: string, ocr: string, no: string, fuzz: Fuzz)
    : (v: seq<Percent>)
    ensures |v| == 13
  {
    [ fuzz(Ratio, t, desc), fuzz(PartialRatio, t, desc), fuzz(TokenSortRatio, t, desc),
      fuzz(TokenSetRatio, t, desc), fuzz(Ratio, nt, nd),
      fuzz(Ratio, t, ocr), fuzz(PartialRatio, t, ocr), fuzz(TokenSortRatio, t, ocr),
      fuzz(TokenSetRatio, t, ocr), fuzz(Ratio, nt, no),
      fuzz(PartialRatio, nt, nd), fuzz(TokenSortRatio, nt, nd), fuzz(TokenSetRatio, nt, nd) ]
  }

  /** The best similarity value plus the type boost, capped at 100. */
  function BoostedScore(t: string, nt: string, desc: string, nd: string, ocr: string, no: string, fuzz: Fuzz)
    : (s: real)
    ensures 0.0 <= s <= 100.0
    ensures forall k :: 0 <= k < 13 ==> FuzzValues(t, nt, desc, nd, ocr, no, fuzz)[k] as real <= s
    ensures var b := MaxPercent(FuzzValues(t, nt, desc, nd, ocr, no, fuzz)) as real + TypeBoost(t, desc);
      (b <= 100.0 ==> s == b) && (b > 100.0 ==> s == 100.0)
  {
    var m := MaxPercent(FuzzValues(t, nt, desc, nd, ocr, no, fuzz));
    Min(100.0, m as real + TypeBoost(t, desc))
  }

  /** The fuzzy score of one element. */
  function FuzzyScore(t: string, nt: string, e: UIElement, fixes: seq<(string, string)>, fuzz: Fuzz): real {
    var desc := Lower(e.description);
    var ocr := Lower(e.ocrText);
    BoostedScore(t, nt, desc, Normalize(desc, fixes), ocr, Normalize(ocr, fixes), fuzz)
  }

  function FuzzyScorer(t: string, nt: string, fixes: seq<(string, string)>, fuzz: Fuzz): UIElement -> real {
    e => FuzzyScore(t, nt, e, fixes, fuzz)
  }

  // ---------------------------------------------------------------------
  // Partial keyword stage

  const StopWords: set<string> :=
    {"the", "a", "an", "and", "or", "but", "in", "on", "at", "to", "for", "find"}

  predicate IsKeyword(w: string) { w !in StopWords && |w| > 2 }

  /** The lower-cased words of `text` longer than two characters that are not
      stop words, in their original order (Select.FilterAppend), each as often
      as the text holds it. */
  function ExtractKeywords(text: string): (r: seq<string>)
    ensures forall k :: 0 <= k < |r| ==> IsKeyword(r[k]) && r[k] in Words(Lower(text))
    ensures forall k :: 0 <= k < |Words(Lower(text))| && IsKeyword(Words(Lower(text))[k]) ==>
      Words(Lower(text))[k] in r
    ensures forall w :: IsKeyword(w) ==> multiset(r)[w] == multiset(Words(Lower(text)))[w]
    ensures forall w :: !IsKeyword(w) ==> multiset(r)[w] == 0
  {
    var ws := Words(Lower(text));
    forall w
      ensures multiset(Filter(ws, IsKeyword))[w] == if IsKeyword(w) then multiset(ws)[w] else 0
    {
      FilterMultiset(ws, IsKeyword, w);
    }
    Filter(ws, IsKeyword)
  }

  /** A keyword occurs in `desc`. */
  function FoundIn(desc: string): string -> bool {
    w => Contains(desc, w)
  }

  /** How many of the keywords occur in `desc` (see MatchingKeywordsCount). */
  function MatchingKeywords(kws: seq<string>, desc: string): (n: nat)
    ensures n <= |kws|
    ensures n == 0 <==> forall k :: 0 <= k < |kws| ==> !Contains(desc, kws[k])
  {
    if kws == [] then 0
    else
      var rest := MatchingKeywords(kws[1..], desc);
      assert forall k :: 1 <= k < |kws| ==> kws[k] == kws[1..][k - 1];
      (if Contains(desc, kws[0]) then 1 else 0) + rest
  }

  /** The count is the number of keywords that survive filtering by
      occurrence in `desc`. */
  lemma {:induction false} MatchingKeywordsCount(kws: seq<string>, desc: string)
    ensures MatchingKeywords(kws, desc) == |Filter(kws, FoundIn(desc))|
  {
    if kws != [] {
      MatchingKeywordsCount(kws[1..], desc);
    }
  }

  /** `s` is 80 times the fraction `m / n`: `s` times `n` is 80 times `m`. */
  predicate Scaled80(s: real, m: nat, n: nat) {
    s * (n as real) == 80.0 * (m as real)
  }

  /** `m` out of `n`, scaled to 80: it lies in [0, 80], is positive exactly
      when `m` is, and times `n` gives 80 times `m`. */
  function Fraction80(m: nat, n: nat): (s: real)
    requires m <= n && n > 0
    ensures 0.0 <= s <= 80.0
    ensures s > 0.0 <==> m > 0
    ensures Scaled80(s, m, n)
  {
    var x, y := m as real, n as real;
    var q := x / y;
    assert q * y == x;
    assert 0.0 <= x <= y;
    assert 0.0 <= q;
    RatioAtMostOne(x, y);
    q * 80.0
  }

  /** A part divided by a positive whole it does not exceed is at most one. */
  lemma RatioAtMostOne(x: real, y: real)
    requires 0.0 <= x <= y && y > 0.0
    ensures x / y <= 1.0
  {
    assert (x / y) * y == x;
    assert y * (1.0 - x / y) == y - x;
  }

  /** The fraction of keywords found in the lower-cased description, scaled
      to at most 80: the score times the number of keywords is 80 times the
      number found, and it is positive exactly when some keyword is found. */
  function PartialScore(kws: seq<string>, e: UIElement): (s: real)
    requires |kws| > 0
    ensures 0.0 <= s <= 80.0
    ensures s > 0.0 <==> MatchingKeywords(kws, Lower(e.description)) > 0
    ensures Scaled80(s, MatchingKeywords(kws, Lower(e.description)), |kws|)
  {
    Fraction80(MatchingKeywords(kws, Lower(e.description)), |kws|)
  }

  function PartialScorer(kws: seq<string>): UIElement -> real
    requires |kws| > 0
  {
    e => PartialScore(kws, e)
  }

  /** The keyword scan over a non-empty keyword list: the first element
      with the highest fraction of keywords in its description, provided
      that fraction scores at least 50; so its score lies between 50 and 80. */
  function KeywordStage(kws: seq<string>, es: seq<UIElement>): (r: Option<MatchResult>)
    requires |kws| > 0
    ensures r.Some? ==> r.value.matchType == Partial && 50.0 <= r.value.score <= 80.0
    ensures r.Some? ==> exists k :: (0 <= k < |es| && r.value.element == es[k]
      && r.value.score == PartialScore(kws, es[k])
      && (forall j :: 0 <= j < |es| && PartialScore(kws, es[j]) >= 50.0 ==> PartialScore(kws, es[j]) <= r.value.score)
      && (forall j :: 0 <= j < k && PartialScore(kws, es[j]) >= 50.0 ==> PartialScore(kws, es[j]) < r.value.score))
    ensures r.None? <==> forall k :: 0 <= k < |es| ==> PartialScore(kws, es[k]) < 50.0
  {
    var f := PartialScorer(kws);
    var r := ThresholdMatch(es, f, 50.0, Partial);
    assert forall k :: 0 <= k < |es| ==> f(es[k]) == PartialScore(kws, es[k]);
    r
  }

  /** The partial stage: nothing when the target has no keywords. */
  function PartialMatch(t: string, es: seq<UIElement>): (r: Option<MatchResult>)
    ensures ExtractKeywords(t) == [] ==> r.None?
    ensures ExtractKeywords(t) != [] ==> r == KeywordStage(ExtractKeywords(t), es)
  {
    var kws := ExtractKeywords(t);
    if kws == [] then None else KeywordStage(kws, es)
  }

  method PartialKeywordMatch(t: string, es: seq<UIElement>) returns (best: Option<MatchResult>)
    ensures best == PartialMatch(t, es)
  {
    var kws := ExtractKeywords(t);
    if kws == [] {
      return None;
    }
    ghost var g := Gated(PartialScorer(kws), 50.0);
    ghost var bestIdx: Option<nat> := None;
    best := None;
    var bestScore := 0.0;
    for i := 0 to |es|
      invariant bestIdx == BestBy(es[..i], g)
      invariant bestIdx.Some? ==> bestIdx.value < i
      invariant best == if bestIdx.Some? then
        Some(MatchResult(es[bestIdx.value], PartialScore(kws, es[bestIdx.value]), Partial)) else None
      invariant bestScore == if bestIdx.Some? then g(es[bestIdx.value]) else 0.0
    {
      var desc := Lower(es[i].description);
      var matching := MatchingKeywords(kws, desc);
      if matching > 0 {
        var score := (matching as real / |kws| as real) * 80.0;
        assert score == PartialScore(kws, es[i]);
        if score > bestScore && score >= 50.0 {
          bestScore := score;
          best := Some(MatchResult(es[i], score, Partial));
          bestIdx := Some(i);
        }
      }
      BestByStep(es, g, i);
    }
    assert es[..|es|] == es;
  }

  // ---------------------------------------------------------------------
  // Layout rules for the Slovak login form and the screens after it

  const UsernameWords: seq<string> := ["prihlasovacie", "meno", "email", "login", "username"]
  const PasswordWords: seq<string> := ["heslo", "password"]
  const SubmitWords: seq<string> := ["prihlasit", "login", "submit"]
  const SearchWords: seq<string> := ["vyhľadať", "search", "lekara", "doctor"]
  const PatientWords: seq<string> := ["zadajte", "rc", "id", "patient"]
  const NewOrderWords: seq<string> := ["nová", "objednávka", "new", "order"]
  const CategoryWords: seq<string> := ["biochémia", "klinická", "category", "test"]
  const ExcludedSearchWords: seq<string> := ["rc/id", "zadajte", "datum", "dátum", "date"]

  /** Which layout rule a target is sent to: the first keyword list, in this
      order, with a word occurring in the target. */
  datatype Route =
    | UsernameRoute | PasswordRoute | SubmitRoute | SearchRoute
    | PatientRoute | NewOrderRoute | CategoryRoute | NoRoute

  function RouteOf(target: string): (r: Route)
    ensures r == UsernameRoute <==> ContainsAny(target, UsernameWords)
    ensures r == PasswordRoute <==> !ContainsAny(target, UsernameWords) && ContainsAny(target, PasswordWords)
    ensures r == SubmitRoute <==> (!ContainsAny(target, UsernameWords) && !ContainsAny(target, PasswordWords)
      && ContainsAny(target, SubmitWords))
    ensures r == SearchRoute <==> (!ContainsAny(target, UsernameWords) && !ContainsAny(target, PasswordWords)
      && !ContainsAny(target, SubmitWords) && ContainsAny(target, SearchWords))
    ensures r == PatientRoute <==> (!ContainsAny(target, UsernameWords) && !ContainsAny(target, PasswordWords)
      && !ContainsAny(target, SubmitWords) && !ContainsAny(target, SearchWords) && ContainsAny(target, PatientWords))
    ensures r == NewOrderRoute <==> (!ContainsAny(target, UsernameWords) && !ContainsAny(target, PasswordWords)
      && !ContainsAny(target, SubmitWords) && !ContainsAny(target, SearchWords) && !ContainsAny(target, PatientWords)
      && ContainsAny(target, NewOrderWords))
    ensures r == CategoryRoute <==> (!ContainsAny(target, UsernameWords) && !ContainsAny(target, PasswordWords)
      && !ContainsAny(target, SubmitWords) && !ContainsAny(target, SearchWords) && !ContainsAny(target, PatientWords)
      && !ContainsAny(target, NewOrderWords) && ContainsAny(target, CategoryWords))
    ensures r == NoRoute <==> (!ContainsAny(target, UsernameWords) && !ContainsAny(target, PasswordWords)
      && !ContainsAny(target, SubmitWords) && !ContainsAny(target, SearchWords) && !ContainsAny(target, PatientWords)
      && !ContainsAny(target, NewOrderWords) && !ContainsAny(target, CategoryWords))
  {
    if ContainsAny(target, UsernameWords) then UsernameRoute
    else if ContainsAny(target, PasswordWords) then PasswordRoute
    else if ContainsAny(target, SubmitWords) then SubmitRoute
    else if ContainsAny(target, SearchWords) then SearchRoute
    else if ContainsAny(target, PatientWords) then PatientRoute
    else if ContainsAny(target, NewOrderWords) then NewOrderRoute
    else if ContainsAny(target, CategoryWords) then CategoryRoute
    else NoRoute
  }

  /** A target routed nowhere holds no word of any keyword list. */
  lemma NoRouteNoKeyword(target: string)
    requires RouteOf(target) == NoRoute
    ensures !ContainsAny(target, UsernameWords + PasswordWords + SubmitWords + SearchWords
      + PatientWords + NewOrderWords + CategoryWords)
  {
    assert forall w :: (w in UsernameWords + PasswordWords + SubmitWords + SearchWords
      + PatientWords + NewOrderWords + CategoryWords) ==> !Contains(target, w);
  }

  function CenterX(e: UIElement): real { (e.bbox.x1 + e.bbox.x2) / 2.0 }

  function CenterY(e: UIElement): real { (e.bbox.y1 + e.bbox.y2) / 2.0 }

  /** Sort keys: vertical centre; top edge then left edge; left edge. */
  function ByCenterY(e: UIElement): Key { Key(CenterY(e), 0.0) }

  function ByTopLeft(e: UIElement): Key { Key(e.bbox.y1, e.bbox.x1) }

  function ByLeft(e: UIElement): Key { Key(e.bbox.x1, 0.0) }

  /** An input of the login form: an input-like box in the form's area. */
  predicate InFormInputs(e: UIElement) {
    e.elementType in {TextInput, TextField, Banner}
    && 300.0 < e.bbox.y1 < 600.0 && 2200.0 < e.bbox.x1 < 2900.0
  }

  /** The login button: a button-like box below the inputs. */
  predicate InFormButtons(e: UIElement) {
    e.elementType in {Button, Banner, TextField}
    && 600.0 < e.bbox.y1 < 800.0 && 2200.0 < e.bbox.x1 < 2900.0
  }

  /** The form's inputs, or its buttons, top to bottom by vertical centre. */
  function InputFields(es: seq<UIElement>): seq<UIElement> {
    Filter(SortBy(es, ByCenterY), InFormInputs)
  }

  function Buttons(es: seq<UIElement>): seq<UIElement> {
    Filter(SortBy(es, ByCenterY), InFormButtons)
  }

  /** An element whose OCR text shows the login page's password or user
      name label. */
  predicate LoginIndicator(e: UIElement) {
    e.ocrText != "" && (Contains(Lower(e.ocrText), "heslo") || Contains(Lower(e.ocrText), "prihlasovacie"))
  }

  function OnLoginPage(es: seq<UIElement>): (b: bool)
    ensures b <==> exists k :: 0 <= k < |es| && LoginIndicator(es[k])
  {
    FirstIndex(es, LoginIndicator).Some?
  }

  /** `^\d+\.\s*\d+.*\d{4}` at the start of `s`: digits, a dot, optional
      white space, digits, then four digits later on the same line. */
  predicate DatePattern(s: string) {
    var k1 := DigitRun(s);
    k1 > 0 && k1 < |s| && s[k1] == '.' &&
    var p := k1 + 1 + SpaceRun(s[k1 + 1..]);
    p < |s| && IsDigit(s[p]) &&
    exists q :: p + 1 <= q <= |s| && YearAt(s, q) && '\n' !in s[p + 1..q]
  }

  /** Four digits start at offset `q`. */
  predicate YearAt(s: string, q: int) {
    0 <= q && q + 4 <= |s| && IsDigits(s[q..q + 4])
  }

  /** Length of the run of digits, or of white space, that starts `s`. */
  function DigitRun(s: string): (k: nat)
    ensures k <= |s|
  {
    if s == [] || !IsDigit(s[0]) then 0 else 1 + DigitRun(s[1..])
  }

  function SpaceRun(s: string): (k: nat)
    ensures k <= |s|
  {
    if s == [] || !IsSpace(s[0]) then 0 else 1 + SpaceRun(s[1..])
  }

  /** A search box: an input-like box near the top left whose OCR text does
      not look like the patient field, a date or the current year. */
  predicate SearchCandidate(e: UIElement) {
    e.elementType in {TextInput, TextField, PhoneNumber}
    && 100.0 < e.bbox.y1 < 400.0 && 50.0 < e.bbox.x1 < 1000.0
    && !(e.ocrText != "" && (ContainsAny(Lower(e.ocrText), ExcludedSearchWords)
                             || DatePattern(Strip(e.ocrText))
                             || Contains(e.ocrText, "2025")))
  }

  /** The label of the patient field. */
  predicate PatientLabel(e: UIElement) {
    e.ocrText != "" && Contains(Lower(e.ocrText), "rc/id")
  }

  /** An input on the same row as `caption` and to the right of its centre. */
  predicate NearInput(caption: UIElement, el: UIElement) {
    el.elementType in {TextInput, TextField, PhoneNumber}
    && Abs(CenterY(el) - CenterY(caption)) < 100.0
    && el.bbox.x1 > CenterX(caption)
  }

  function NearTo(caption: UIElement): UIElement -> bool {
    el => NearInput(caption, el)
  }

  /** `v` is the leftmost input beside the `k`-th caption of `scan`, which
      is a patient label, and no earlier patient label has an input beside
      it. */
  predicate LabelledAt(scan: seq<UIElement>, es: seq<UIElement>, v: UIElement, k: int) {
    && 0 <= k < |scan| && PatientLabel(scan[k])
    && NearInput(scan[k], v)
    && (forall j :: 0 <= j < k && PatientLabel(scan[j]) ==> Filter(es, NearTo(scan[j])) == [])
    && (forall x :: x in es && NearInput(scan[k], x) ==> v.bbox.x1 <= x.bbox.x1)
  }

  /** The first patient label, in list order, with an input beside it gives
      the leftmost such input: every earlier label has no input beside it,
      and no input beside the chosen label starts further left. */
  function LabelledInput(scan: seq<UIElement>, es: seq<UIElement>): (r: Option<UIElement>)
    ensures r.Some? ==> r.value in es && exists k :: LabelledAt(scan, es, r.value, k)
    ensures r.None? ==> forall k :: 0 <= k < |scan| && PatientLabel(scan[k]) ==> Filter(es, NearTo(scan[k])) == []
  {
    if scan == [] then None
    else
      var near := Filter(es, NearTo(scan[0]));
      if PatientLabel(scan[0]) && near != [] then
        LeftmostNear(scan[0], es);
        assert LabelledAt(scan, es, SortBy(near, ByLeft)[0], 0);
        Some(SortBy(near, ByLeft)[0])
      else
        var r := LabelledInput(scan[1..], es);
        LabelledTail(scan, es);
        r
  }

  /** A first caption without an input beside it moves every choice made
      on the rest one place on. */
  lemma LabelledTail(scan: seq<UIElement>, es: seq<UIElement>)
    requires scan != [] && !(PatientLabel(scan[0]) && Filter(es, NearTo(scan[0])) != [])
    ensures forall v, k :: LabelledAt(scan[1..], es, v, k) ==> LabelledAt(scan, es, v, k + 1)
    ensures (forall k :: 0 <= k < |scan| - 1 && PatientLabel(scan[1..][k]) ==> Filter(es, NearTo(scan[1..][k])) == [])
      ==> forall k :: 0 <= k < |scan| && PatientLabel(scan[k]) ==> Filter(es, NearTo(scan[k])) == []
  {
    assert forall k :: 1 <= k < |scan| ==> scan[k] == scan[1..][k - 1];
    forall v, k | LabelledAt(scan[1..], es, v, k) ensures LabelledAt(scan, es, v, k + 1) {
      forall j | 0 <= j < k + 1 && PatientLabel(scan[j]) ensures Filter(es, NearTo(scan[j])) == [] {
        if j > 0 {
          assert scan[j] == scan[1..][j - 1];
        }
      }
    }
  }

  /** The leftmost input beside a caption, when there is one. */
  lemma LeftmostNear(caption: UIElement, es: seq<UIElement>)
    requires Filter(es, NearTo(caption)) != []
    ensures var h := SortBy(Filter(es, NearTo(caption)), ByLeft)[0];
      h in es && NearInput(caption, h) && forall x :: x in es && NearInput(caption, x) ==> h.bbox.x1 <= x.bbox.x1
  {
    var h := SortBy(Filter(es, NearTo(caption)), ByLeft)[0];
    FilterSortHead(es, NearTo(caption), ByLeft);
    forall x | x in es && NearInput(caption, x) ensures h.bbox.x1 <= x.bbox.x1 {
      var i :| 0 <= i < |es| && es[i] == x;
    }
  }

  /** Fallback patient inputs: input-like boxes near the top, not leftmost. */
  predicate PatientZone(e: UIElement) {
    e.elementType in {TextInput, TextField, PhoneNumber} && 100.0 < e.bbox.y1 < 400.0 && e.bbox.x1 > 300.0
  }

  predicate MentionsNewOrder(e: UIElement) {
    e.ocrText != "" && (Contains(Lower(e.ocrText), "nova") || Contains(Lower(e.ocrText), "objednav"))
  }

  predicate OrderZone(e: UIElement) {
    e.elementType in {Button, Banner, Label} && 100.0 < e.bbox.y1 < 500.0 && e.bbox.x1 > 1500.0
  }

  predicate CategoryZone(e: UIElement) {
    e.elementType in {Button, Banner, Container} && e.bbox.y1 > 1000.0
  }

  function First(s: seq<UIElement>, score: real, tag: MatchType): (r: Option<MatchResult>)
    ensures r.Some? <==> s != []
    ensures r.Some? ==> r.value == MatchResult(s[0], score, tag)
  {
    if s == [] then None else Some(MatchResult(s[0], score, tag))
  }

  /** The patient rule: the input beside the first labelled caption, else
      the second input of the patient zone from the left, or its only one. */
  function PatientMatch(es: seq<UIElement>): Option<MatchResult> {
    match LabelledInput(es, es)
    case Some(e) => Some(MatchResult(e, 90.0, SlovakPatient))
    case None =>
      var p := SortBy(Filter(es, PatientZone), ByLeft);
      if |p| > 1 then Some(MatchResult(p[1], 85.0, SlovakPatient))
      else First(p, 85.0, SlovakPatient)
  }

  /** The layout rules, dispatched on the target's route. The rules for the
      screens after login give nothing while the login page is showing. */
  function LoginFormMatch(target: string, es: seq<UIElement>): (r: Option<MatchResult>)
    ensures r.Some? ==> r.value.matchType !in {Exact, Fuzzy, Partial}
    ensures RouteOf(Lower(target)) == NoRoute ==> r.None?
    ensures OnLoginPage(es) && RouteOf(Lower(target)) in {SearchRoute, PatientRoute, NewOrderRoute, CategoryRoute}
      ==> r.None?
  {
    var tl := Lower(target);
    match RouteOf(tl)
    case UsernameRoute => First(InputFields(es), 90.0, SlovakPosition)
    case PasswordRoute =>
      var f := InputFields(es);
      if |f| >= 2 then Some(MatchResult(f[1], 90.0, SlovakPosition)) else None
    case SubmitRoute => First(Buttons(es), 90.0, SlovakPosition)
    case SearchRoute =>
      if OnLoginPage(es) then None
      else First(SortBy(Filter(es, SearchCandidate), ByTopLeft), 85.0, SlovakSearch)
    case PatientRoute =>
      if OnLoginPage(es) then None
      else PatientMatch(es)
    case NewOrderRoute =>
      if OnLoginPage(es) then None
      else
        (match FirstIndex(es, MentionsNewOrder)
         case Some(k) => Some(MatchResult(es[k], 95.0, SlovakNewOrder))
         case None => First(Filter(es, OrderZone), 85.0, SlovakNewOrder))
    case CategoryRoute =>
      if OnLoginPage(es) then None
      else First(Filter(es, CategoryZone), 85.0, SlovakCategory)
    case NoRoute => None
  }

  /** The inputs of the login form are exactly the elements in the form's
      input area, ordered top to bottom; likewise its buttons. */
  lemma FormLayout(es: seq<UIElement>)
    ensures forall x :: x in InputFields(es) <==> x in es && InFormInputs(x)
    ensures forall i, j :: 0 <= i < j < |InputFields(es)| ==> CenterY(InputFields(es)[i]) <= CenterY(InputFields(es)[j])
    ensures forall x :: x in Buttons(es) <==> x in es && InFormButtons(x)
    ensures forall i, j :: 0 <= i < j < |Buttons(es)| ==> CenterY(Buttons(es)[i]) <= CenterY(Buttons(es)[j])
  {
    SortThenFilter(es, ByCenterY, InFormInputs);
    SortThenFilter(es, ByCenterY, InFormButtons);
  }

  /** A user-name target takes the topmost input of the form, and finds
      nothing only when the form shows no input. */
  lemma UsernameTakesTopInput(target: string, es: seq<UIElement>)
    requires RouteOf(Lower(target)) == UsernameRoute
    ensures LoginFormMatch(target, es).Some? <==> exists k :: 0 <= k < |es| && InFormInputs(es[k])
    ensures LoginFormMatch(target, es).Some? ==>
      var m := LoginFormMatch(target, es).value;
      m.score == 90.0 && m.element in es && InFormInputs(m.element)
      && forall k :: 0 <= k < |es| && InFormInputs(es[k]) ==> CenterY(m.element) <= CenterY(es[k])
  {
    FormLayout(es);
    var f := InputFields(es);
    if exists k :: 0 <= k < |es| && InFormInputs(es[k]) {
      var k :| 0 <= k < |es| && InFormInputs(es[k]);
      assert es[k] in f;
    }
    forall k | 0 <= k < |es| && InFormInputs(es[k]) ensures CenterY(f[0]) <= CenterY(es[k]) {
      assert es[k] in f;
      var j :| 0 <= j < |f| && f[j] == es[k];
    }
  }

  /** A submit target takes the topmost button of the form, and finds
      nothing only when the form shows no button. */
  lemma SubmitTakesTopButton(target: string, es: seq<UIElement>)
    requires RouteOf(Lower(target)) == SubmitRoute
    ensures LoginFormMatch(target, es).Some? <==> exists k :: 0 <= k < |es| && InFormButtons(es[k])
    ensures LoginFormMatch(target, es).Some? ==>
      var m := LoginFormMatch(target, es).value;
      m.score == 90.0 && m.element in es && InFormButtons(m.element)
      && forall k :: 0 <= k < |es| && InFormButtons(es[k]) ==> CenterY(m.element) <= CenterY(es[k])
  {
    FormLayout(es);
    var f := Buttons(es);
    if exists k :: 0 <= k < |es| && InFormButtons(es[k]) {
      var k :| 0 <= k < |es| && InFormButtons(es[k]);
      assert es[k] in f;
    }
    forall k | 0 <= k < |es| && InFormButtons(es[k]) ensures CenterY(f[0]) <= CenterY(es[k]) {
      assert es[k] in f;
      var j :| 0 <= j < |f| && f[j] == es[k];
    }
  }

  /** A password target takes the second input from the top: every form
      input other than the topmost lies no higher than it. */
  lemma PasswordTakesSecondInput(target: string, es: seq<UIElement>)
    requires RouteOf(Lower(target)) == PasswordRoute
    ensures LoginFormMatch(target, es).Some? <==> |InputFields(es)| >= 2
    ensures LoginFormMatch(target, es).Some? ==>
      var m := LoginFormMatch(target, es).value;
      m.score == 90.0 && m.element in es && InFormInputs(m.element)
      && CenterY(InputFields(es)[0]) <= CenterY(m.element)
      && forall k :: 0 <= k < |es| && InFormInputs(es[k]) ==>
           es[k] == InputFields(es)[0] || CenterY(m.element) <= CenterY(es[k])
  {
    FormLayout(es);
    var f := InputFields(es);
    if |f| >= 2 {
      assert f[1] in f;
      forall k | 0 <= k < |es| && InFormInputs(es[k])
        ensures es[k] == f[0] || CenterY(f[1]) <= CenterY(es[k])
      {
        assert es[k] in f;
        var j :| 0 <= j < |f| && f[j] == es[k];
      }
    }
  }

  /** A submit target only reaches the button rule without "login" in it:
      the user-name rule, tried first, takes every target mentioning it. */
  lemma SubmitRouteShadowed(target: string)
    requires RouteOf(target) == SubmitRoute
    ensures !Contains(target, "login")
    ensures Contains(target, "prihlasit") || Contains(target, "submit")
  {
    assert UsernameWords[3] == "login";
    var k :| 0 <= k < |SubmitWords| && Contains(target, SubmitWords[k]);
    assert SubmitWords[1] == "login";
  }

  /** Away from the login page, a search target takes a search candidate
      whose (top, left) corner comes first in reading order. */
  lemma SearchTakesTopLeft(target: string, es: seq<UIElement>)
    requires RouteOf(Lower(target)) == SearchRoute && !OnLoginPage(es)
    ensures LoginFormMatch(target, es).Some? <==> exists k :: 0 <= k < |es| && SearchCandidate(es[k])
    ensures LoginFormMatch(target, es).Some? ==>
      var m := LoginFormMatch(target, es).value;
      m.score == 85.0 && m.matchType == SlovakSearch && m.element in es && SearchCandidate(m.element)
      && forall k :: 0 <= k < |es| && SearchCandidate(es[k]) ==> KeyLe(ByTopLeft(m.element), ByTopLeft(es[k]))
  {
    var c := Filter(es, SearchCandidate);
    assert LoginFormMatch(target, es) == First(SortBy(c, ByTopLeft), 85.0, SlovakSearch);
    FilterSortHead(es, SearchCandidate, ByTopLeft);
  }

  /** Away from the login page, a new-order target takes the first element
      whose OCR text mentions a new order, with score 95. */
  lemma NewOrderPrefersText(target: string, es: seq<UIElement>, k: nat)
    requires RouteOf(Lower(target)) == NewOrderRoute && !OnLoginPage(es)
    requires k < |es| && MentionsNewOrder(es[k]) && forall j :: 0 <= j < k ==> !MentionsNewOrder(es[j])
    ensures LoginFormMatch(target, es) == Some(MatchResult(es[k], 95.0, SlovakNewOrder))
  {
    assert FirstIndex(es, MentionsNewOrder) == Some(k);
  }

  /** Away from the login page, a patient target follows the patient rule. */
  lemma PatientRule(target: string, es: seq<UIElement>)
    requires RouteOf(Lower(target)) == PatientRoute && !OnLoginPage(es)
    ensures LoginFormMatch(target, es) == PatientMatch(es)
  {
  }

  /** The patient rule takes the input beside the first labelled caption
      (score 90); failing that, the second input of the patient zone from
      the left, or its only one (score 85), and nothing when the zone is
      empty. */
  lemma PatientMatchSpec(es: seq<UIElement>)
    ensures LabelledInput(es, es).Some? ==>
      PatientMatch(es) == Some(MatchResult(LabelledInput(es, es).value, 90.0, SlovakPatient))
    ensures LabelledInput(es, es).None? ==>
      (PatientMatch(es).Some? <==> exists k :: 0 <= k < |es| && PatientZone(es[k]))
    ensures LabelledInput(es, es).None? && PatientMatch(es).Some? ==>
      var m := PatientMatch(es).value;
      var h := SortBy(Filter(es, PatientZone), ByLeft)[0];
      && m.score == 85.0 && m.matchType == SlovakPatient && m.element in es && PatientZone(m.element)
      && (forall k :: 0 <= k < |es| && PatientZone(es[k]) ==> h.bbox.x1 <= es[k].bbox.x1)
      && (forall k :: 0 <= k < |es| && PatientZone(es[k]) ==> es[k] == h || m.element.bbox.x1 <= es[k].bbox.x1)
  {
    var c := Filter(es, PatientZone);
    var p := SortBy(c, ByLeft);
    FilterSortHead(es, PatientZone, ByLeft);
    if LabelledInput(es, es).None? && p != [] {
      var e := if |p| > 1 then p[1] else p[0];
      assert PatientMatch(es) == Some(MatchResult(e, 85.0, SlovakPatient));
      SecondFromLeft(c);
      forall k | 0 <= k < |es| && PatientZone(es[k]) ensures es[k] == p[0] || e.bbox.x1 <= es[k].bbox.x1 {
        assert es[k] in c;
      }
    }
  }

  /** In a list sorted from the left, the second element (or the only one)
      starts no further left than any element other than the first. */
  lemma SecondFromLeft(c: seq<UIElement>)
    requires c != []
    ensures var p := SortBy(c, ByLeft);
      var e := if |p| > 1 then p[1] else p[0];
      e in c && forall x :: x in c ==> x == p[0] || e.bbox.x1 <= x.bbox.x1
  {
    var p := SortBy(c, ByLeft);
    var e := if |p| > 1 then p[1] else p[0];
    SortBySpec(c, ByLeft);
    SortByMembers(c, ByLeft, e);
    forall x | x in c ensures x == p[0] || e.bbox.x1 <= x.bbox.x1 {
      SortByMembers(c, ByLeft, x);
      var j :| 0 <= j < |p| && p[j] == x;
    }
  }

  /** Away from the login page, when no element mentions a new order, a
      new-order target takes the first element of the order zone, with
      score 85, and nothing when the zone is empty. */
  lemma NewOrderFallback(target: string, es: seq<UIElement>)
    requires RouteOf(Lower(target)) == NewOrderRoute && !OnLoginPage(es)
    requires forall j :: 0 <= j < |es| ==> !MentionsNewOrder(es[j])
    ensures LoginFormMatch(target, es).Some? <==> exists k :: 0 <= k < |es| && OrderZone(es[k])
    ensures LoginFormMatch(target, es).Some? ==> exists k :: (0 <= k < |es| && OrderZone(es[k])
      && (forall j :: 0 <= j < k ==> !OrderZone(es[j]))
      && LoginFormMatch(target, es).value == MatchResult(es[k], 85.0, SlovakNewOrder))
  {
    assert FirstIndex(es, MentionsNewOrder).None?;
    FilterFirst(es, OrderZone);
  }

  /** Away from the login page, a category target takes the first element
      of the category zone, with score 85, and nothing when the zone is
      empty. */
  lemma CategoryTakesFirst(target: string, es: seq<UIElement>)
    requires RouteOf(Lower(target)) == CategoryRoute && !OnLoginPage(es)
    ensures LoginFormMatch(target, es).Some? <==> exists k :: 0 <= k < |es| && CategoryZone(es[k])
    ensures LoginFormMatch(target, es).Some? ==> exists k :: (0 <= k < |es| && CategoryZone(es[k])
      && (forall j :: 0 <= j < k ==> !CategoryZone(es[j]))
      && LoginFormMatch(target, es).value == MatchResult(es[k], 85.0, SlovakCategory))
  {
    FilterFirst(es, CategoryZone);
  }

  // ---------------------------------------------------------------------
  // The cascade

  /** The stages in order, each consulted only when the earlier ones found
      nothing: the exact stage under test `hit`, the fuzzy stage under
      `score` and `threshold`, then the partial and the layout results. */
  function Cascade(es: seq<UIElement>, hit: UIElement -> bool, score: UIElement -> real, threshold: real,
                   partial: Option<MatchResult>, layout: Option<MatchResult>): Option<MatchResult>
  {
    if es == [] then None
    else
      var exact := ExactStage(es, hit);
      if exact.Some? then exact
      else
        var fuzzy := ThresholdMatch(es, score, threshold, Fuzzy);
        if fuzzy.Some? then fuzzy
        else if partial.Some? then partial
        else layout
  }

  /** `find_best_match`: the target is lower-cased and stripped, and its
      normalised form is computed once for the exact and fuzzy stages. */
  function BestMatch(m: Settings, target: string, es: seq<UIElement>, fuzz: Fuzz): Option<MatchResult> {
    var t := Strip(Lower(target));
    var nt := Normalize(t, m.ocrFixes);
    Cascade(es, ExactTest(t, nt, m.ocrFixes), FuzzyScorer(t, nt, m.ocrFixes, fuzz), m.fuzzyThreshold,
            PartialMatch(t, es), LoginFormMatch(t, es))
  }

  /** Which stage produced a match: an exact match exactly when some element
      passes `hit`; otherwise a fuzzy one exactly when some element's score
      reaches the threshold; otherwise the partial result if there is one,
      else the layout result. */
  lemma {:induction false} CascadeOrder(es: seq<UIElement>, hit: UIElement -> bool, score: UIElement -> real,
                                        threshold: real, partial: Option<MatchResult>, layout: Option<MatchResult>)
    requires partial.Some? ==> partial.value.matchType == Partial
    requires layout.Some? ==> layout.value.matchType !in {Exact, Fuzzy, Partial}
    ensures var r := Cascade(es, hit, score, threshold, partial, layout);
      && (es == [] ==> r.None?)
      && ((r.Some? && r.value.matchType == Exact) <==> exists k :: 0 <= k < |es| && hit(es[k]))
      && ((r.Some? && r.value.matchType == Fuzzy) <==>
            (forall k :: 0 <= k < |es| ==> !hit(es[k]))
            && exists k :: 0 <= k < |es| && score(es[k]) >= threshold && score(es[k]) > 0.0)
      && (r.Some? && r.value.matchType == Fuzzy ==> r.value.score >= threshold)
      && (r.Some? && r.value.matchType !in {Exact, Fuzzy} ==>
            forall k :: 0 <= k < |es| ==> !hit(es[k]) && !(score(es[k]) >= threshold && score(es[k]) > 0.0))
      && ((es != [] && forall k :: 0 <= k < |es| ==> !hit(es[k]) && !(score(es[k]) >= threshold && score(es[k]) > 0.0))
          ==> r == if partial.Some? then partial else layout)
  {
  }

  /** The cascade of `find_best_match`, stage by stage (see CascadeOrder). */
  lemma BestMatchCascade(m: Settings, target: string, es: seq<UIElement>, fuzz: Fuzz)
    ensures var r := BestMatch(m, target, es, fuzz);
      var t := Strip(Lower(target));
      var hit := ExactTest(t, Normalize(t, m.ocrFixes), m.ocrFixes);
      var score := FuzzyScorer(t, Normalize(t, m.ocrFixes), m.ocrFixes, fuzz);
      && (es == [] ==> r.None?)
      && ((r.Some? && r.value.matchType == Exact) <==> exists k :: 0 <= k < |es| && hit(es[k]))
      && (r.Some? && r.value.matchType == Fuzzy ==> r.value.score >= m.fuzzyThreshold)
      && (r.Some? && r.value.matchType !in {Exact, Fuzzy} ==>
            forall k :: 0 <= k < |es| ==>
              (!hit(es[k]) && (score(es[k]) < m.fuzzyThreshold || score(es[k]) <= 0.0)))
      && (r.Some? && r.value.matchType !in {Exact, Fuzzy, Partial} ==> PartialMatch(t, es).None?)
  {
    var t := Strip(Lower(target));
    var nt := Normalize(t, m.ocrFixes);
    CascadeOrder(es, ExactTest(t, nt, m.ocrFixes), FuzzyScorer(t, nt, m.ocrFixes, fuzz), m.fuzzyThreshold,
                 PartialMatch(t, es), LoginFormMatch(t, es));
  }

  /** Some text of the element is not blank. */
  predicate HasText(e: UIElement) {
    !IsBlank(e.description) || !IsBlank(e.ocrText)
  }

  /** Fix-ups whose misreadings are not empty leave the empty text empty. */
  lemma NormalizeEmpty(fixes: seq<(string, string)>)
    requires forall k :: 0 <= k < |fixes| ==> fixes[k].0 != ""
    ensures Normalize("", fixes) == ""
  {
    forall k | 0 <= k < |fixes| ensures !Contains("", Lower(fixes[k].0)) {
      assert |Lower(fixes[k].0)| > 0;
    }
    ApplyFixesUntouched("", fixes);
  }

  /** Against the empty target, an element passes the exact test exactly
      when one of its texts is not blank. */
  lemma EmptyTargetHits(e: UIElement, fixes: seq<(string, string)>)
    ensures ExactTest("", "", fixes)(e) <==> HasText(e)
  {
    LowerBlank(e.description);
    LowerBlank(e.ocrText);
    assert Contains(Normalize(Lower(e.description), fixes), "");
    assert Contains(Normalize(Lower(e.ocrText), fixes), "");
  }

  /** A blank target contains, and is contained in, every text: it matches
      exactly the first element with a non-blank description or OCR text. */
  lemma BlankTargetMatchesFirstText(m: Settings, target: string, es: seq<UIElement>, fuzz: Fuzz, k: nat)
    requires forall j :: 0 <= j < |m.ocrFixes| ==> m.ocrFixes[j].0 != ""
    requires IsBlank(target)
    requires k < |es| && HasText(es[k]) && forall j :: 0 <= j < k ==> !HasText(es[j])
    ensures BestMatch(m, target, es, fuzz) == Some(MatchResult(es[k], 100.0, Exact))
  {
    LowerBlank(target);
    assert Strip(Lower(target)) == "";
    NormalizeEmpty(m.ocrFixes);
    var hit := ExactTest("", "", m.ocrFixes);
    forall j | 0 <= j <= k ensures hit(es[j]) <==> HasText(es[j]) {
      EmptyTargetHits(es[j], m.ocrFixes);
    }
    var r := ExactStage(es, hit);
    var i :| 0 <= i < |es| && r.value.element == es[i] && hit(es[i]) && forall j :: 0 <= j < i ==> !hit(es[j]);
    assert i <= k;
    assert i == k;
  }

  /** The standard fix-up table has no empty misreading. */
  lemma StandardFixesNonEmpty()
    ensures forall j :: 0 <= j < |OcrFixes| ==> OcrFixes[j].0 != ""
  {
  }

  /** The exact test on one element, normalising its texts. */
  method ExactTestOf(t: string, nt: string, e: UIElement, fixes: seq<(string, string)>) returns (b: bool)
    ensures b == ExactTest(t, nt, fixes)(e)
  {
    var desc := Lower(e.description);
    var ocr := Lower(e.ocrText);
    var nd := NormalizeSlovakText(desc, fixes);
    var no := NormalizeSlovakText(ocr, fixes);
    var descMatch := TextHit(t, nt, desc, nd);
    var ocrMatch := TextHit(t, nt, ocr, no);
    b := descMatch || ocrMatch;
  }

  /** The fuzzy score of one element, normalising its texts. */
  method FuzzyScoreOf(t: string, nt: string, e: UIElement, fixes: seq<(string, string)>, fuzz: Fuzz)
    returns (maxScore: real)
    ensures maxScore == FuzzyScorer(t, nt, fixes, fuzz)(e)
  {
    var desc := Lower(e.description);
    var ocr := Lower(e.ocrText);
    var nd := NormalizeSlovakText(desc, fixes);
    var no := NormalizeSlovakText(ocr, fixes);
    var scores := FuzzValues(t, nt, desc, nd, ocr, no, fuzz);
    maxScore := MaxPercent(scores) as real;
    var typeBoost := TypeBoost(t, desc);
    maxScore := Min(100.0, maxScore + typeBoost);
  }

  /** The exact scan of `find_best_match`. */
  method ExactScan(t: string, nt: string, es: seq<UIElement>, fixes: seq<(string, string)>)
    returns (best: Option<MatchResult>)
    ensures best == ExactStage(es, ExactTest(t, nt, fixes))
  {
    best := None;
    var bestScore := 0.0;
    ghost var exact := Indicator(ExactTest(t, nt, fixes), 100.0);
    ghost var bestIdx: Option<nat> := None;
    for i := 0 to |es|
      invariant bestIdx == BestBy(es[..i], exact)
      invariant bestIdx.Some? ==> bestIdx.value < i
      invariant best == if bestIdx.Some? then Some(MatchResult(es[bestIdx.value], 100.0, Exact)) else None
      invariant bestScore == if bestIdx.Some? then 100.0 else 0.0
    {
      var matched := ExactTestOf(t, nt, es[i], fixes);
      if matched {
        var score := 100.0;
        if score > bestScore {
          bestScore := score;
          best := Some(MatchResult(es[i], score, Exact));
          bestIdx := Some(i);
        }
      }
      BestByStep(es, exact, i);
    }
    assert es[..|es|] == es;
  }

  /** The fuzzy scan of `find_best_match`, run after an exact scan that
      found nothing, so that the best score so far is still 0. */
  method FuzzyScan(t: string, nt: string, es: seq<UIElement>, fixes: seq<(string, string)>, threshold: real, fuzz: Fuzz)
    returns (best: Option<MatchResult>)
    ensures best == ThresholdMatch(es, FuzzyScorer(t, nt, fixes, fuzz), threshold, Fuzzy)
  {
    best := None;
    var bestScore := 0.0;
    ghost var score := FuzzyScorer(t, nt, fixes, fuzz);
    ghost var g := Gated(score, threshold);
    ghost var bestIdx: Option<nat> := None;
    for i := 0 to |es|
      invariant bestIdx == BestBy(es[..i], g)
      invariant bestIdx.Some? ==> bestIdx.value < i
      invariant best == if bestIdx.Some? then
        Some(MatchResult(es[bestIdx.value], score(es[bestIdx.value]), Fuzzy)) else None
      invariant bestScore == if bestIdx.Some? then g(es[bestIdx.value]) else 0.0
    {
      var maxScore := FuzzyScoreOf(t, nt, es[i], fixes, fuzz);
      if maxScore > bestScore && maxScore >= threshold {
        bestScore := maxScore;
        best := Some(MatchResult(es[i], maxScore, Fuzzy));
        bestIdx := Some(i);
      }
      BestByStep(es, g, i);
    }
    assert es[..|es|] == es;
  }

  method FindBestMatch(m: Settings, targetDescription: string, es: seq<UIElement>, fuzz: Fuzz)
    returns (best: Option<MatchResult>)
    ensures best == BestMatch(m, targetDescription, es, fuzz)
  {
    if es == [] {
      return None;
    }
    var t := Strip(Lower(targetDescription));
    var nt := NormalizeSlovakText(t, m.ocrFixes);
    best := ExactScan(t, nt, es, m.ocrFixes);
    if best.None? {
      best := FuzzyScan(t, nt, es, m.ocrFixes, m.fuzzyThreshold, fuzz);
    }
    if best.None? {
      best := PartialKeywordMatch(t, es);
    }
    if best.None? {
      best := LoginFormMatch(t, es);
    }
  }

  // ---------------------------------------------------------------------
  // Ranking several candidates

  const DefaultMaxMatches: int := 3

  /** The better of the plain and the partial similarity of the target and
      the lower-cased description. */
  function MultiScore(target: string, e: UIElement, fuzz: Fuzz): Percent {
    var a := fuzz(Ratio, Lower(target), Lower(e.description));
    var b := fuzz(PartialRatio, Lower(target), Lower(e.description));
    if a >= b then a else b
  }

  /** Every element scoring at least the threshold, in list order, tagged
      exact when it scores 100. */
  function Candidates(target: string, es: seq<UIElement>, threshold: real, fuzz: Fuzz): seq<MatchResult> {
    if es == [] then []
    else
      var prev := Candidates(target, es[..|es| - 1], threshold, fuzz);
      var e := es[|es| - 1];
      var score := MultiScore(target, e, fuzz) as real;
      if score >= threshold then prev + [MatchResult(e, score, if score == 100.0 then Exact else Fuzzy)] else prev
  }

  /** The element reaches the threshold of the multiple-match search. */
  function Reaches(target: string, threshold: real, fuzz: Fuzz): UIElement -> bool {
    e => MultiScore(target, e, fuzz) as real >= threshold
  }

  /** The result the search records for an element: its score, tagged exact
      exactly at 100. */
  function ToResult(target: string, fuzz: Fuzz): UIElement -> MatchResult {
    e => var s := MultiScore(target, e, fuzz) as real;
      MatchResult(e, s, if s == 100.0 then Exact else Fuzzy)
  }

  /** The candidates are one result per element reaching the threshold, in
      the order of the list: the qualifying elements, filtered in order, each
      turned into its result. */
  lemma {:induction false} CandidatesInOrder(target: string, es: seq<UIElement>, threshold: real, fuzz: Fuzz)
    ensures Candidates(target, es, threshold, fuzz)
      == MapSeq(Filter(es, Reaches(target, threshold, fuzz)), ToResult(target, fuzz))
  {
    if es != [] {
      var init, e := es[..|es| - 1], es[|es| - 1];
      var p, f := Reaches(target, threshold, fuzz), ToResult(target, fuzz);
      CandidatesInOrder(target, init, threshold, fuzz);
      assert es == init + [e];
      FilterAppend(init, [e], p);
      assert Filter([e], p) == if p(e) then [e] else [] by {
        assert [e][1..] == [];
      }
      MapSeqAppend(Filter(init, p), Filter([e], p), f);
    }
  }

  /** Each candidate is an element reaching the threshold, with its score
      and tag, and every such element has a candidate. */
  lemma {:induction false} CandidatesMembers(target: string, es: seq<UIElement>, threshold: real, fuzz: Fuzz)
    ensures var r := Candidates(target, es, threshold, fuzz);
      && (forall k :: 0 <= k < |r| ==>
            (r[k].score >= threshold && r[k].element in es
            && r[k].score == MultiScore(target, r[k].element, fuzz) as real
            && (r[k].matchType == if r[k].score == 100.0 then Exact else Fuzzy)))
      && (forall k :: 0 <= k < |es| && MultiScore(target, es[k], fuzz) as real >= threshold ==>
            exists m :: 0 <= m < |r| && r[m].element == es[k])
  {
    if es != [] {
      var init := es[..|es| - 1];
      var prev := Candidates(target, init, threshold, fuzz);
      CandidatesMembers(target, init, threshold, fuzz);
      var r := Candidates(target, es, threshold, fuzz);
      assert forall k :: 0 <= k < |prev| ==> prev[k] == r[k];
      assert forall x :: x in init ==> x in es;
      forall k | 0 <= k < |es| && MultiScore(target, es[k], fuzz) as real >= threshold
        ensures exists m :: 0 <= m < |r| && r[m].element == es[k]
      {
        if k < |es| - 1 {
          assert init[k] == es[k];
          var m :| 0 <= m < |prev| && prev[m].element == init[k];
          assert r[m] == prev[m];
        } else {
          assert r[|r| - 1].element == es[k];
        }
      }
    }
  }

  /** The candidates are exactly the elements reaching the threshold, each
      with its score and the tag that score calls for, one per qualifying
      element in list order. */
  lemma CandidatesSpec(target: string, es: seq<UIElement>, threshold: real, fuzz: Fuzz)
    ensures var r := Candidates(target, es, threshold, fuzz);
      && (forall k :: 0 <= k < |r| ==>
            (r[k].score >= threshold && r[k].element in es
            && r[k].score == MultiScore(target, r[k].element, fuzz) as real
            && (r[k].matchType == if r[k].score == 100.0 then Exact else Fuzzy)))
      && (forall k :: 0 <= k < |es| && MultiScore(target, es[k], fuzz) as real >= threshold ==>
            exists m :: 0 <= m < |r| && r[m].element == es[k])
    ensures Candidates(target, es, threshold, fuzz)
      == MapSeq(Filter(es, Reaches(target, threshold, fuzz)), ToResult(target, fuzz))
  {
    CandidatesMembers(target, es, threshold, fuzz);
    CandidatesInOrder(target, es, threshold, fuzz);
  }

  /** One candidate: an element of the list reaching the threshold, tagged
      exact exactly when it scores 100. */
  lemma CandidateAt(target: string, es: seq<UIElement>, threshold: real, fuzz: Fuzz, k: nat)
    requires k < |Candidates(target, es, threshold, fuzz)|
    ensures var x := Candidates(target, es, threshold, fuzz)[k];
      x.score >= threshold && x.element in es && (x.matchType == Exact <==> x.score == 100.0)
  {
    CandidatesMembers(target, es, threshold, fuzz);
    var r := Candidates(target, es, threshold, fuzz);
    assert r[k].score >= threshold && r[k].element in es
      && r[k].score == MultiScore(target, r[k].element, fuzz) as real
      && (r[k].matchType == if r[k].score == 100.0 then Exact else Fuzzy);
  }

  /** Sorting key of `sort(key=score, reverse=True)`, as an ascending key. */
  function ByScoreDesc(m: MatchResult): Key { Key(-m.score, 0.0) }

  function MultipleMatches(m: Settings, target: string, es: seq<UIElement>, fuzz: Fuzz, maxMatches: int)
    : seq<MatchResult>
  {
    PyTake(SortBy(Candidates(target, es, m.fuzzyThreshold, fuzz), ByScoreDesc), maxMatches)
  }

  /** `r` is the `n` best of `c` (all of them when there are fewer, and
      any number is ignored when `n` is negative), drawn from `c` without
      repetition, best first, each acceptable; a candidate of `c` scoring
      above the last one kept is kept, and the results of one score are the
      first candidates of that score in the order they were found. */
  predicate BestKept(r: seq<MatchResult>, c: seq<MatchResult>, threshold: real, es: seq<UIElement>, n: int) {
    && (n >= 0 ==> |r| == (if n <= |c| then n else |c|))
    && DrawnStably(r, c)
    && (forall x :: x in c && |r| > 0 && x.score > r[|r| - 1].score ==> x in r)
    && (forall i, j :: 0 <= i < j < |r| ==> r[i].score >= r[j].score)
    && AllAcceptable(r, threshold, es)
  }

  /** `r` takes each of `c` at most as often as `c` holds it, and the results
      of one score are the first candidates of that score in `c`'s order. */
  predicate DrawnStably(r: seq<MatchResult>, c: seq<MatchResult>) {
    && multiset(r) <= multiset(c)
    && (forall x :: x in r ==> Filter(r, KeyIs(ByScoreDesc, ByScoreDesc(x))) <= Filter(c, KeyIs(ByScoreDesc, ByScoreDesc(x))))
  }

  /** Keeping the first `n` of the stable sort by score draws them stably. */
  lemma TakeDrawnStably(c: seq<MatchResult>, n: int)
    ensures DrawnStably(PyTake(SortBy(c, ByScoreDesc), n), c)
  {
    TakeSortedStable(c, ByScoreDesc, n);
  }

  /** Each of `c` reaches the threshold, comes from `es` and is tagged
      exact exactly when it scores 100. */
  predicate AllAcceptable(c: seq<MatchResult>, threshold: real, es: seq<UIElement>) {
    forall k :: 0 <= k < |c| ==>
      (c[k].score >= threshold && c[k].element in es && (c[k].matchType == Exact <==> c[k].score == 100.0))
  }

  /** The `maxMatches` best candidates (all of them when there are fewer),
      best first, each from the list, scoring at least the threshold, and
      tagged exact exactly when it scores 100; a candidate scoring above the
      last one kept is kept. */
  lemma MultipleMatchesSpec(m: Settings, target: string, es: seq<UIElement>, fuzz: Fuzz, maxMatches: int)
    ensures BestKept(MultipleMatches(m, target, es, fuzz, maxMatches), Candidates(target, es, m.fuzzyThreshold, fuzz),
                     m.fuzzyThreshold, es, maxMatches)
  {
    CandidatesAcceptable(target, es, m.fuzzyThreshold, fuzz);
    TakeAcceptable(Candidates(target, es, m.fuzzyThreshold, fuzz), m.fuzzyThreshold, es, maxMatches);
  }

  /** Every candidate is acceptable. */
  lemma CandidatesAcceptable(target: string, es: seq<UIElement>, threshold: real, fuzz: Fuzz)
    ensures AllAcceptable(Candidates(target, es, threshold, fuzz), threshold, es)
  {
    var c := Candidates(target, es, threshold, fuzz);
    forall k | 0 <= k < |c|
      ensures c[k].score >= threshold && c[k].element in es && (c[k].matchType == Exact <==> c[k].score == 100.0)
    {
      CandidateAt(target, es, threshold, fuzz, k);
    }
  }

  /** A candidate as the multiple-match search keeps it. */
  function Acceptable(threshold: real, es: seq<UIElement>): MatchResult -> bool {
    (x: MatchResult) => x.score >= threshold && x.element in es && (x.matchType == Exact <==> x.score == 100.0)
  }

  /** Sorting acceptable candidates by score and keeping the first `n`
      keeps the `n` best. */
  lemma TakeAcceptable(c: seq<MatchResult>, threshold: real, es: seq<UIElement>, n: int)
    requires AllAcceptable(c, threshold, es)
    ensures BestKept(PyTake(SortBy(c, ByScoreDesc), n), c, threshold, es, n)
  {
    var ok := Acceptable(threshold, es);
    TakeSorted(c, ByScoreDesc, ok, n);
    TakeDrawnStably(c, n);
    var r := PyTake(SortBy(c, ByScoreDesc), n);
    forall i, j | 0 <= i < j < |r| ensures r[i].score >= r[j].score {
      assert KeyLe(ByScoreDesc(r[i]), ByScoreDesc(r[j]));
    }
    forall k | 0 <= k < |r| ensures ok(r[k]) {
    }
  }

  method MatchMultiple(m: Settings, target: string, es: seq<UIElement>, fuzz: Fuzz, maxMatches: int)
    returns (r: seq<MatchResult>)
    ensures r == MultipleMatches(m, target, es, fuzz, maxMatches)
  {
    var matches: seq<MatchResult> := [];
    for i := 0 to |es|
      invariant matches == Candidates(target, es[..i], m.fuzzyThreshold, fuzz)
    {
      var desc := Lower(es[i].description);
      var a := fuzz(Ratio, Lower(target), desc);
      var b := fuzz(PartialRatio, Lower(target), desc);
      var maxScore := if a >= b then a else b;
      assert es[..i + 1][..i] == es[..i];
      if maxScore as real >= m.fuzzyThreshold {
        var matchType := if maxScore == 100 then Exact else Fuzzy;
        matches := matches + [MatchResult(es[i], maxScore as real, matchType)];
      }
    }
    assert es[..|es|] == es;
    matches := SortBy(matches, ByScoreDesc);
    r := PyTake(matches, maxMatches);
  }
}
