/** Filling the coordinate variables of a hand-written main flow
    (`SEARCH_DOCTOR_X: "…"` and the like) from analysed screenshots: each
    screenshot whose name picks a list of targets has every target matched
    against its elements, the centre of a matched element becomes whole
    percentages under the variables whose search term the target mentions,
    the screenshots' results are merged in order, and the quoted values in
    the flow text are replaced. Reading and writing files and measuring
    images are left to the caller: the flow text and the image sizes enter
    as values. */
module Updater {
  import opened Wrappers
  import opened Text
  import opened Select
  import opened Scan
  import opened Vision
  import opened Matcher
  import opened Yaml
  import opened Generator

  // ---------------------------------------------------------------------
  // Substituting a variable's value in the flow text

  /** Where `NAME:\s*"[^"]*"` matches at `i`: the span of the quoted value. */
  function VarMatch(s: string, name: string, i: nat): (r: Option<Span>)
    ensures r.Some? ==> i + |name| + 1 < r.value.0 <= r.value.1 < |s|
  {
    if !OccursAt(s, name + ":", i) then None
    else
      var j := SpaceEnd(s, i + |name| + 1);
      if j < |s| && s[j] == '"' then
        var e := QuoteEnd(s, j + 1);
        if e < |s| then Some((j + 1, e)) else None
      else None
  }

  /** A match is the variable's name and a colon, white space, and a quoted
      text without quotes. */
  lemma VarMatchSpec(s: string, name: string, i: nat, a: nat, b: nat)
    requires VarMatch(s, name, i) == Some((a, b))
    ensures OccursAt(s, name + ":", i)
    ensures forall k :: i + |name| + 1 <= k < a - 1 ==> IsSpace(s[k])
    ensures s[a - 1] == '"' && s[b] == '"'
    ensures forall k :: a <= k < b ==> s[k] != '"'
  {
  }

  /** ...and those facts make a match. */
  lemma VarMatchAt(t: string, name: string, p: nat, a: nat, e: nat)
    requires OccursAt(t, name + ":", p)
    requires p + |name| + 1 < a <= e < |t|
    requires forall k :: p + |name| + 1 <= k < a - 1 ==> IsSpace(t[k])
    requires t[a - 1] == '"' && t[e] == '"'
    requires forall k :: a <= k < e ==> t[k] != '"'
    ensures VarMatch(t, name, p) == Some((a, e))
  {
    SpaceEndAt(t, p + |name| + 1, a - 1);
    QuoteEndAt(t, a, e);
  }

  /** A compiled pattern with one group to replace, as `re.sub` uses it:
      for each position, the span of the group in a match starting there. */
  type Finder = nat -> Option<Span>

  /** Every match found in `s` starts at or before its group, which lies in
      `s`. */
  ghost predicate SpansWithin(s: string, find: Finder) {
    forall q: nat :: q < |s| && find(q).Some? ==> q <= find(q).value.0 <= find(q).value.1 < |s|
  }

  /** The pattern `NAME:\s*"([^"]*)"` on `s`. */
  function VarFinder(s: string, name: string): (find: Finder)
    ensures SpansWithin(s, find)
  {
    (q: nat) => VarMatch(s, name, q)
  }

  /** `re.sub` from position `i`: every match, found left to right, keeps its
      text up to the group and from the group's end, and has the group
      replaced by `value`; scanning resumes after the match. */
  function SubFrom(s: string, find: Finder, value: string, i: nat): string
    requires i <= |s| && SpansWithin(s, find)
    decreases |s| - i
  {
    if i == |s| then []
    else
      match find(i)
      case Some(sp) => s[i..sp.0] + value + [s[sp.1]] + SubFrom(s, find, value, sp.1 + 1)
      case None => [s[i]] + SubFrom(s, find, value, i + 1)
  }

  /** `re.sub(r'(\s*NAME:\s*")[^"]*(")', r'\g<1>VALUE\g<2>', s)`. The leading
      `\s*` of the pattern is kept by the replacement, so where a match
      starts does not change the result, and matches are taken here from
      the variable's name. */
  function SubVar(s: string, name: string, value: string): string {
    SubFrom(s, VarFinder(s, name), value, 0)
  }

  /** Where nothing matches from `i` on, the text is kept as it is. */
  lemma {:induction false} SubFromNoMatch(s: string, find: Finder, value: string, i: nat)
    requires i <= |s| && SpansWithin(s, find)
    requires forall q :: i <= q < |s| ==> find(q).None?
    ensures SubFrom(s, find, value, i) == s[i..]
    decreases |s| - i
  {
    if i < |s| {
      SubFromNoMatch(s, find, value, i + 1);
      SubFromSkip(s, find, value, i);
      ConsSlice(s, i, |s|);
    }
  }

  /** A flow that does not mention the variable is left unchanged. */
  lemma SubVarAbsent(s: string, name: string, value: string)
    requires !Contains(s, name + ":")
    ensures SubVar(s, name, value) == s
  {
    ContainsSpec(s, name + ":");
    forall q: nat | q < |s| ensures VarFinder(s, name)(q).None? {
      assert !OccursAt(s, name + ":", q);
    }
    SubFromNoMatch(s, VarFinder(s, name), value, 0);
  }

  /** Where nothing matches at `i`, its character is kept. */
  lemma SubFromSkip(s: string, find: Finder, value: string, i: nat)
    requires i < |s| && SpansWithin(s, find) && find(i).None?
    ensures SubFrom(s, find, value, i) == [s[i]] + SubFrom(s, find, value, i + 1)
  {
  }

  /** Up to the first match, the text is kept. */
  lemma {:induction false} SubFromFirstMatch(s: string, find: Finder, value: string, i: nat, p: nat)
    requires i <= p <= |s| && SpansWithin(s, find)
    requires forall q :: i <= q < p ==> find(q).None?
    ensures SubFrom(s, find, value, i) == s[i..p] + SubFrom(s, find, value, p)
    decreases p - i
  {
    if i < p {
      SubFromFirstMatch(s, find, value, i + 1, p);
      SubFromSkip(s, find, value, i);
      AppendAssoc([s[i]], s[i + 1..p], SubFrom(s, find, value, p));
      ConsSlice(s, i, p);
    }
  }

  /** At a match, the text up to the group is kept, the group is replaced,
      and the text from the group's end is substituted in turn. */
  lemma SubFromHit(s: string, find: Finder, value: string, i: nat, a: nat, b: nat)
    requires i < |s| && SpansWithin(s, find) && find(i) == Some((a, b))
    ensures i <= a <= b < |s|
    ensures SubFrom(s, find, value, i) == s[i..a] + value + [s[b]] + SubFrom(s, find, value, b + 1)
  {
  }

  /** The text after substituting a first match at `p`, position by
      position. */
  lemma SubstitutedAt(s: string, find: Finder, value: string, p: nat, a: nat, b: nat, r: string)
    requires p < |s| && SpansWithin(s, find) && find(p) == Some((a, b))
    requires r == s[..p] + SubFrom(s, find, value, p)
    ensures p <= a && a + |value| < |r|
    ensures forall k :: 0 <= k < a ==> r[k] == s[k]
    ensures forall k :: 0 <= k < |value| ==> r[a + k] == value[k]
    ensures r[a + |value|] == s[b]
  {
    SubFromHit(s, find, value, p, a, b);
    SplicedAfter(s, p, a, value, s[b], SubFrom(s, find, value, b + 1), SubFrom(s, find, value, p), r);
  }

  /** A text that agrees with `s` up to a match's value, then holds `value`
      and a closing quote, matches there with `value` as its value. */
  lemma MatchKept(s: string, r: string, name: string, value: string, p: nat, a: nat)
    requires '"' !in value && p + |name| + 1 < a <= |s|
    requires OccursAt(s, name + ":", p)
    requires forall k :: p + |name| + 1 <= k < a - 1 ==> IsSpace(s[k])
    requires s[a - 1] == '"'
    requires a + |value| < |r|
    requires forall k :: 0 <= k < a ==> r[k] == s[k]
    requires forall k :: 0 <= k < |value| ==> r[a + k] == value[k]
    requires r[a + |value|] == '"'
    ensures VarMatch(r, name, p) == Some((a, a + |value|))
  {
    OccursAgree(s, r, name + ":", p);
    forall k | a <= k < a + |value| ensures r[k] != '"' {
      assert r[a + (k - a)] == value[k - a];
    }
    VarMatchAt(r, name, p, a, a + |value|);
  }

  /** After the substitution, the variable's first definition reads back as
      the new value, provided the value holds no quote. */
  lemma SubVarReadsBack(s: string, name: string, value: string, p: nat, a: nat, b: nat)
    requires p < |s| && '"' !in value
    requires forall q :: 0 <= q < p ==> VarMatch(s, name, q).None?
    requires VarMatch(s, name, p) == Some((a, b))
    ensures VarMatch(SubVar(s, name, value), name, p) == Some((a, a + |value|))
  {
    var find := VarFinder(s, name);
    VarMatchSpec(s, name, p, a, b);
    SubFromFirstMatch(s, find, value, 0, p);
    SubstitutedAt(s, find, value, p, a, b, SubVar(s, name, value));
    MatchKept(s, SubVar(s, name, value), name, value, p, a);
  }

  /** The substitution of every update in turn: the flow text after the
      first `k` updates. */
  function SubstituteAll(content: string, updates: PyDict<string>, k: nat): string
    requires k <= |updates|
  {
    if k == 0 then content else SubVar(SubstituteAll(content, updates, k - 1), updates[k - 1].0, updates[k - 1].1)
  }

  /** Updates whose variables the flow does not mention leave it unchanged. */
  lemma {:induction false} SubstituteAllAbsent(content: string, updates: PyDict<string>, k: nat)
    requires k <= |updates|
    requires forall i :: 0 <= i < k ==> !Contains(content, updates[i].0 + ":")
    ensures SubstituteAll(content, updates, k) == content
  {
    if k > 0 {
      SubstituteAllAbsent(content, updates, k - 1);
      SubVarAbsent(content, updates[k - 1].0, updates[k - 1].1);
    }
  }

  /** `update_main_flow_coordinates`: None when there is no main flow file,
      else the flow text with each update substituted in order. */
  method UpdateMainFlowCoordinates(mainFlow: Option<string>, coordinateUpdates: PyDict<string>)
    returns (written: Option<string>)
    ensures mainFlow.None? ==> written.None?
    ensures mainFlow.Some? ==> written == Some(SubstituteAll(mainFlow.value, coordinateUpdates, |coordinateUpdates|))
  {
    if mainFlow.None? {
      return None;
    }
    var content := mainFlow.value;
    for i := 0 to |coordinateUpdates|
      invariant content == SubstituteAll(mainFlow.value, coordinateUpdates, i)
    {
      var (varName, newValue) := coordinateUpdates[i];
      content := SubVar(content, varName, newValue);
    }
    return Some(content);
  }

  // ---------------------------------------------------------------------
  // Coordinates from one screenshot

  /** `FlowCoordinateUpdater`: its matcher's `find_best_match`, the table
      from coordinate variables to the search terms that set them, and the
      table from screenshot names to the targets looked for in them (a
      constant of `analyze_and_update_flow`). */
  datatype FlowCoordinateUpdater = FlowCoordinateUpdater(
    find: (string, seq<UIElement>) -> Option<MatchResult>,
    coordinateMappings: PyDict<string>,
    screenshotTargets: seq<(string, seq<string>)>)

  const CoordinateMappings: PyDict<string> := [
    ("SEARCH_DOCTOR_X", "Vyhľadať Lekára"),
    ("SEARCH_DOCTOR_Y", "Vyhľadať Lekára"),
    ("PATIENT_ID_X", "Zadajte RC/ID"),
    ("PATIENT_ID_Y", "Zadajte RC/ID"),
    ("NEW_ORDER_X", "Nová objednávka"),
    ("NEW_ORDER_Y", "Nová objednávka"),
    ("CATEGORY_X", "Biochémia a Klinická biológia"),
    ("CATEGORY_Y", "Biochémia a Klinická biológia")
  ]

  const ScreenshotTargets: seq<(string, seq<string>)> := [
    ("objednavka_step_11", ["Vyhľadať Lekára", "Zadajte RC/ID", "Nová objednávka"]),
    ("objednavka_step_20", ["Biochémia a Klinická biológia"])
  ]

  /** A new updater: a matcher with the default fuzzy threshold, and the two
      tables above. */
  function NewFlowCoordinateUpdater(fuzz: Fuzz): (u: FlowCoordinateUpdater)
    ensures forall d, es :: u.find(d, es) == BestMatch(NewMatcher(DefaultFuzzyThreshold), d, es, fuzz)
    ensures u.coordinateMappings == CoordinateMappings && u.screenshotTargets == ScreenshotTargets
  {
    FlowCoordinateUpdater((d, es) => BestMatch(NewMatcher(DefaultFuzzyThreshold), d, es, fuzz),
                          CoordinateMappings, ScreenshotTargets)
  }

  /** The centre of the box as whole percentages of the image, truncated
      toward zero as `int()` does. */
  function CenterPercent(b: BBox, width: int, height: int): (int, int)
    requires width > 0 && height > 0
  {
    (Trunc((b.x1 + b.x2) / 2.0 / width as real * 100.0), Trunc((b.y1 + b.y2) / 2.0 / height as real * 100.0))
  }

  /** These are the generator's tap percentages truncated, and lie between
      0 and 100 for a box inside the image. */
  lemma CenterPercentSpec(b: BBox, width: int, height: int)
    requires width > 0 && height > 0
    ensures var p := PixelToPercentage(b, (width, height));
      CenterPercent(b, width, height) == (Trunc(p.x), Trunc(p.y))
    ensures 0.0 <= b.x1 <= b.x2 <= width as real && 0.0 <= b.y1 <= b.y2 <= height as real ==>
      0 <= CenterPercent(b, width, height).0 <= 100 && 0 <= CenterPercent(b, width, height).1 <= 100
  {
    if 0.0 <= b.x1 <= b.x2 <= width as real && 0.0 <= b.y1 <= b.y2 <= height as real {
      PercentInside(b, (width, height));
    }
  }

  /** The variable of `entry` is set for `description` when its search
      term, lower-cased, occurs in the lower-cased description and its name
      ends in `_X` or `_Y`. */
  predicate Assigns(entry: (string, string), description: string) {
    Contains(Lower(description), Lower(entry.1)) && (EndsWith(entry.0, "_X") || EndsWith(entry.0, "_Y"))
  }

  /** The value an `_X` variable takes is the horizontal percentage, any
      other the vertical one. */
  function Assigned(entry: (string, string), px: int, py: int): string {
    if EndsWith(entry.0, "_X") then IntToString(px) else IntToString(py)
  }

  /** What one mapping entry does for a description matched at `(px, py)`:
      the value its variable takes, or None when it is not set. */
  function Setter(description: string, px: int, py: int): ((string, string)) -> Option<string> {
    entry => if Assigns(entry, description) then Some(Assigned(entry, px, py)) else None
  }

  /** One entry for a description, case by case as the source tests it. */
  lemma SetterCases(description: string, px: int, py: int, entry: (string, string))
    ensures Setter(description, px, py)(entry)
      == if !Contains(Lower(description), Lower(entry.1)) then None
         else if EndsWith(entry.0, "_X") then Some(IntToString(px))
         else if EndsWith(entry.0, "_Y") then Some(IntToString(py))
         else None
  {
  }

  /** The coordinates after the first `j` mappings were tried. */
  function MapVars(coords: PyDict<string>, mappings: PyDict<string>, j: nat, setter: ((string, string)) -> Option<string>)
    : PyDict<string>
    requires j <= |mappings|
  {
    if j == 0 then coords
    else
      var c := MapVars(coords, mappings, j - 1, setter);
      match setter(mappings[j - 1])
      case Some(x) => Put(c, mappings[j - 1].0, x)
      case None => c
  }

  /** The value the last of the first `j` mappings under `v` that sets its
      variable gives, if any. */
  function VarValue(mappings: PyDict<string>, j: nat, v: string, setter: ((string, string)) -> Option<string>)
    : Option<string>
    requires j <= |mappings|
  {
    if j == 0 then None
    else if mappings[j - 1].0 == v && setter(mappings[j - 1]).Some? then setter(mappings[j - 1])
    else VarValue(mappings, j - 1, v, setter)
  }

  /** A variable some mapping sets takes the last such value; any other
      keeps what it had. */
  lemma {:induction false} MapVarsGet(coords: PyDict<string>, mappings: PyDict<string>, j: nat,
                                      setter: ((string, string)) -> Option<string>, v: string)
    requires j <= |mappings|
    ensures Get(MapVars(coords, mappings, j, setter), v)
      == if VarValue(mappings, j, v, setter).Some? then VarValue(mappings, j, v, setter) else Get(coords, v)
  {
    if j > 0 {
      MapVarsGet(coords, mappings, j - 1, setter, v);
      var c := MapVars(coords, mappings, j - 1, setter);
      var m := mappings[j - 1];
      match setter(m)
      case Some(x) =>
        assert MapVars(coords, mappings, j, setter) == Put(c, m.0, x);
        PutGet(c, m.0, x, v);
      case None =>
    }
  }

  /** In a mapping table whose variables are distinct, the value of a
      variable is decided by its own entry alone. */
  lemma {:induction false} VarValueOf(mappings: PyDict<string>, j: nat, k: nat, setter: ((string, string)) -> Option<string>)
    requires UniqueKeys(mappings) && k < j <= |mappings|
    ensures VarValue(mappings, j, mappings[k].0, setter) == setter(mappings[k])
  {
    if j - 1 > k {
      VarValueOf(mappings, j - 1, k, setter);
    } else if setter(mappings[k]).None? {
      VarValueNone(mappings, k, mappings[k].0, setter);
    }
  }

  /** A variable with no entry among the first `j` is given no value. */
  lemma {:induction false} VarValueNone(mappings: PyDict<string>, j: nat, v: string, setter: ((string, string)) -> Option<string>)
    requires j <= |mappings| && forall k :: 0 <= k < j ==> mappings[k].0 != v
    ensures VarValue(mappings, j, v, setter).None?
  {
    if j > 0 {
      VarValueNone(mappings, j - 1, v, setter);
    }
  }

  /** Every variable set is one of the mapping table's. */
  lemma {:induction false} MapVarsKeys(coords: PyDict<string>, mappings: PyDict<string>, j: nat,
                                       setter: ((string, string)) -> Option<string>, v: string)
    requires j <= |mappings| && HasKey(MapVars(coords, mappings, j, setter), v)
    ensures HasKey(coords, v) || HasKey(mappings, v)
  {
    MapVarsGet(coords, mappings, j, setter, v);
    if VarValue(mappings, j, v, setter).Some? {
      VarValueSome(mappings, j, v, setter);
    }
  }

  /** A variable that is given a value has an entry. */
  lemma {:induction false} VarValueSome(mappings: PyDict<string>, j: nat, v: string, setter: ((string, string)) -> Option<string>)
    requires j <= |mappings| && VarValue(mappings, j, v, setter).Some?
    ensures HasKey(mappings, v)
  {
    if mappings[j - 1].0 != v || setter(mappings[j - 1]).None? {
      VarValueSome(mappings, j - 1, v, setter);
    }
  }

  /** The variables stay distinct. */
  lemma {:induction false} MapVarsUnique(coords: PyDict<string>, mappings: PyDict<string>, j: nat,
                                         setter: ((string, string)) -> Option<string>)
    requires j <= |mappings| && UniqueKeys(coords)
    ensures UniqueKeys(MapVars(coords, mappings, j, setter))
  {
    if j > 0 {
      MapVarsUnique(coords, mappings, j - 1, setter);
      var c := MapVars(coords, mappings, j - 1, setter);
      var m := mappings[j - 1];
      match setter(m)
      case Some(x) =>
        assert MapVars(coords, mappings, j, setter) == Put(c, m.0, x);
        PutUnique(c, m.0, x);
      case None =>
    }
  }

  /** What one target adds to the coordinates: nothing when no element was
      found for it, else every mapping applied at the centre of the element. */
  function AddTarget(c: PyDict<string>, mappings: PyDict<string>, description: string, found: Option<MatchResult>,
                     width: int, height: int): PyDict<string>
    requires width > 0 && height > 0
  {
    match found
    case None => c
    case Some(m) =>
      var (px, py) := CenterPercent(m.element.bbox, width, height);
      MapVars(c, mappings, |mappings|, Setter(description, px, py))
  }

  /** A target adds only variables of the mapping table, each once. */
  lemma AddTargetKeys(c: PyDict<string>, mappings: PyDict<string>, description: string, found: Option<MatchResult>,
                      width: int, height: int, v: string)
    requires width > 0 && height > 0 && UniqueKeys(c)
    ensures HasKey(AddTarget(c, mappings, description, found, width, height), v) ==> HasKey(c, v) || HasKey(mappings, v)
    ensures UniqueKeys(AddTarget(c, mappings, description, found, width, height))
  {
    if found.Some? {
      var (px, py) := CenterPercent(found.value.element.bbox, width, height);
      MapVarsUnique(c, mappings, |mappings|, Setter(description, px, py));
      if HasKey(MapVars(c, mappings, |mappings|, Setter(description, px, py)), v) {
        MapVarsKeys(c, mappings, |mappings|, Setter(description, px, py), v);
      }
    }
  }

  /** The coordinates found for the first `i` target descriptions. */
  function Coordinates(u: FlowCoordinateUpdater, elements: seq<UIElement>, descriptions: seq<string>,
                       width: int, height: int, i: nat): PyDict<string>
    requires width > 0 && height > 0 && i <= |descriptions|
  {
    if i == 0 then []
    else
      AddTarget(Coordinates(u, elements, descriptions, width, height, i - 1), u.coordinateMappings,
                descriptions[i - 1], u.find(descriptions[i - 1], elements), width, height)
  }

  /** The coordinates found name only variables of the mapping table, each
      once. */
  lemma {:induction false} CoordinatesKeys(u: FlowCoordinateUpdater, elements: seq<UIElement>, descriptions: seq<string>,
                                           width: int, height: int, i: nat, v: string)
    requires width > 0 && height > 0 && i <= |descriptions|
    ensures HasKey(Coordinates(u, elements, descriptions, width, height, i), v) ==> HasKey(u.coordinateMappings, v)
    ensures UniqueKeys(Coordinates(u, elements, descriptions, width, height, i))
  {
    if i > 0 {
      CoordinatesKeys(u, elements, descriptions, width, height, i - 1, v);
      AddTargetKeys(Coordinates(u, elements, descriptions, width, height, i - 1), u.coordinateMappings,
                    descriptions[i - 1], u.find(descriptions[i - 1], elements), width, height, v);
    }
  }

  /** The inner loop of `analyze_screenshot_for_coordinates`: every mapping
      whose search term the matched description mentions sets its variable
      to the centre's percentage along its axis. */
  method MapVariables(coordinates: PyDict<string>, mappings: PyDict<string>, description: string,
                      percentX: int, percentY: int)
    returns (updated: PyDict<string>)
    ensures updated == MapVars(coordinates, mappings, |mappings|, Setter(description, percentX, percentY))
  {
    updated := coordinates;
    for j := 0 to |mappings|
      invariant updated == MapVars(coordinates, mappings, j, Setter(description, percentX, percentY))
    {
      var (varName, searchTerm) := mappings[j];
      SetterCases(description, percentX, percentY, mappings[j]);
      if Contains(Lower(description), Lower(searchTerm)) {
        if EndsWith(varName, "_X") {
          updated := Put(updated, varName, IntToString(percentX));
        } else if EndsWith(varName, "_Y") {
          updated := Put(updated, varName, IntToString(percentY));
        }
      }
    }
  }

  /** `analyze_screenshot_for_coordinates` on an image of the given size. */
  method AnalyzeScreenshotForCoordinates(u: FlowCoordinateUpdater, elements: seq<UIElement>,
                                         targetDescriptions: seq<string>, width: int, height: int)
    returns (coordinates: PyDict<string>)
    requires width > 0 && height > 0
    ensures coordinates == Coordinates(u, elements, targetDescriptions, width, height, |targetDescriptions|)
  {
    coordinates := [];
    for i := 0 to |targetDescriptions|
      invariant coordinates == Coordinates(u, elements, targetDescriptions, width, height, i)
    {
      var description := targetDescriptions[i];
      var matchResult := u.find(description, elements);
      if matchResult.Some? {
        var (percentX, percentY) := CenterPercent(matchResult.value.element.bbox, width, height);
        coordinates := MapVariables(coordinates, u.coordinateMappings, description, percentX, percentY);
      }
    }
  }

  // ---------------------------------------------------------------------
  // Several screenshots

  /** `Path(path).name`: the text after the last '/', the whole path when
      it has none. */
  function BaseName(path: string): (r: string)
    ensures '/' !in r
    ensures EndsWith(path, r)
    ensures r == path || path[|path| - |r| - 1] == '/'
  {
    if path == [] then []
    else if path[|path| - 1] == '/' then []
    else
      var p := path[..|path| - 1];
      var r := BaseName(p);
      assert path[|path| - |r| - 1..|path| - 1] == r;
      assert r == p ==> r + [path[|path| - 1]] == path;
      assert r != p ==> path[|path| - |r| - 2] == p[|p| - |r| - 1];
      r + [path[|path| - 1]]
  }

  /** The position of the last `c` in `s`, if any. */
  function LastIndexOf(s: string, c: char): (r: Option<nat>)
    ensures r.Some? ==> r.value < |s| && s[r.value] == c && forall k :: r.value < k < |s| ==> s[k] != c
    ensures r.None? ==> c !in s
  {
    if s == [] then None
    else if s[|s| - 1] == c then Some(|s| - 1)
    else LastIndexOf(s[..|s| - 1], c)
  }

  /** `Path(path).stem`: the name without its last suffix, which starts at
      the last dot; the name is kept whole when it has no dot, ends with a
      dot, or has a single dot at its start. */
  function Stem(path: string): (r: string)
    ensures StartsWith(BaseName(path), r)
    ensures var name := BaseName(path);
      r == name <==> ('.' !in name || name[|name| - 1] == '.' || (name[0] == '.' && '.' !in name[1..]))
    ensures var name := BaseName(path);
      r != name ==> 0 < |r| < |name| - 1 && name[|r|] == '.' && '.' !in name[|r| + 1..]
  {
    var name := BaseName(path);
    match LastIndexOf(name, '.')
    case Some(i) => if 0 < i < |name| - 1 then name[..i] else name
    case None => name
  }

  predicate KeyIn(name: string, entry: (string, seq<string>)) {
    Contains(name, entry.0)
  }

  /** The targets of the first table entry, in table order, whose key occurs
      in the screenshot's name; none when no key does. */
  function TargetsFor(table: seq<(string, seq<string>)>, name: string): (r: seq<string>)
    ensures (forall k :: 0 <= k < |table| ==> !Contains(name, table[k].0)) ==> r == []
    ensures forall k :: (0 <= k < |table| && Contains(name, table[k].0)
                         && forall m :: 0 <= m < k ==> !Contains(name, table[m].0)) ==> r == table[k].1
  {
    match FirstIndex(table, e => KeyIn(name, e))
    case Some(k) => table[k].1
    case None => []
  }

  /** Every measured image has a positive size. */
  ghost predicate SizesPositive(imageSize: string -> Dimensions) {
    forall path :: Positive(imageSize(path))
  }

  /** The coordinates a screenshot contributes: none when its name selects
      no targets. */
  function ScreenshotCoordinates(u: FlowCoordinateUpdater, path: string, elements: seq<UIElement>,
                                 imageSize: string -> Dimensions): PyDict<string>
    requires SizesPositive(imageSize)
  {
    var targets := TargetsFor(u.screenshotTargets, Stem(path));
    if targets == [] then []
    else
      assert Positive(imageSize(path));
      Coordinates(u, elements, targets, imageSize(path).0, imageSize(path).1, |targets|)
  }

  /** What each screenshot, by its path and elements, contributes. */
  type Contribution = (string, seq<UIElement>) -> PyDict<string>

  /** The contributions of the updater's tables on images of the given
      sizes. */
  function Contributions(u: FlowCoordinateUpdater, imageSize: string -> Dimensions): (contribute: Contribution)
    requires SizesPositive(imageSize)
    ensures forall path, elements :: contribute(path, elements) == ScreenshotCoordinates(u, path, elements, imageSize)
  {
    (path: string, elements: seq<UIElement>) => ScreenshotCoordinates(u, path, elements, imageSize)
  }

  /** The coordinates merged from the first `k` screenshots, each later
      screenshot's entries put over the earlier ones. */
  function Collected(contribute: Contribution, results: PyDict<seq<UIElement>>, k: nat): PyDict<string>
    requires k <= |results|
  {
    if k == 0 then []
    else Update(Collected(contribute, results, k - 1), contribute(results[k - 1].0, results[k - 1].1))
  }

  /** A screenshot contributes only variables of the mapping table, each
      once. */
  lemma ScreenshotKeys(u: FlowCoordinateUpdater, path: string, elements: seq<UIElement>,
                       imageSize: string -> Dimensions, v: string)
    requires SizesPositive(imageSize)
    ensures HasKey(ScreenshotCoordinates(u, path, elements, imageSize), v) ==> HasKey(u.coordinateMappings, v)
    ensures UniqueKeys(ScreenshotCoordinates(u, path, elements, imageSize))
  {
    var targets := TargetsFor(u.screenshotTargets, Stem(path));
    if targets != [] {
      assert Positive(imageSize(path));
      CoordinatesKeys(u, elements, targets, imageSize(path).0, imageSize(path).1, |targets|, v);
    }
  }

  /** A later screenshot's value for a variable replaces an earlier one;
      variables it does not set keep theirs. */
  lemma CollectedOverwrites(u: FlowCoordinateUpdater, results: PyDict<seq<UIElement>>, imageSize: string -> Dimensions,
                            k: nat, v: string)
    requires SizesPositive(imageSize) && 0 < k <= |results|
    ensures var contribute := Contributions(u, imageSize);
      var latest := ScreenshotCoordinates(u, results[k - 1].0, results[k - 1].1, imageSize);
      Get(Collected(contribute, results, k), v)
      == if HasKey(latest, v) then Get(latest, v) else Get(Collected(contribute, results, k - 1), v)
  {
    var contribute := Contributions(u, imageSize);
    ScreenshotKeys(u, results[k - 1].0, results[k - 1].1, imageSize, v);
    UpdateGet(Collected(contribute, results, k - 1), contribute(results[k - 1].0, results[k - 1].1), v);
  }

  /** Merging keeps to the variables the contributions name. */
  lemma {:induction false} CollectedWithin(contribute: Contribution, results: PyDict<seq<UIElement>>, k: nat,
                                           v: string, m: PyDict<string>)
    requires k <= |results|
    requires forall path, elements :: HasKey(contribute(path, elements), v) ==> HasKey(m, v)
    ensures HasKey(Collected(contribute, results, k), v) ==> HasKey(m, v)
  {
    if k > 0 {
      CollectedWithin(contribute, results, k - 1, v, m);
      UpdateKeysWithin(Collected(contribute, results, k - 1), contribute(results[k - 1].0, results[k - 1].1), v, m);
    }
  }

  /** Every variable collected is one of the mapping table's. */
  lemma CollectedKeys(u: FlowCoordinateUpdater, results: PyDict<seq<UIElement>>,
                      imageSize: string -> Dimensions, k: nat, v: string)
    requires SizesPositive(imageSize) && k <= |results|
    ensures HasKey(Collected(Contributions(u, imageSize), results, k), v) ==> HasKey(u.coordinateMappings, v)
  {
    var contribute := Contributions(u, imageSize);
    forall path, elements ensures HasKey(contribute(path, elements), v) ==> HasKey(u.coordinateMappings, v) {
      ScreenshotKeys(u, path, elements, imageSize, v);
    }
    CollectedWithin(contribute, results, k, v, u.coordinateMappings);
  }

  /** `analyze_and_update_flow`: the merged coordinates, and the new main
      flow text, written only when some coordinate was found and the main
      flow file exists. */
  method AnalyzeAndUpdateFlow(u: FlowCoordinateUpdater, screenshotAnalysisResults: PyDict<seq<UIElement>>,
                              imageSize: string -> Dimensions, mainFlow: Option<string>)
    returns (allCoordinates: PyDict<string>, written: Option<string>)
    requires SizesPositive(imageSize)
    ensures allCoordinates == Collected(Contributions(u, imageSize), screenshotAnalysisResults, |screenshotAnalysisResults|)
    ensures allCoordinates == [] || mainFlow.None? ==> written.None?
    ensures allCoordinates != [] && mainFlow.Some? ==>
      written == Some(SubstituteAll(mainFlow.value, allCoordinates, |allCoordinates|))
  {
    allCoordinates := [];
    for i := 0 to |screenshotAnalysisResults|
      invariant allCoordinates == Collected(Contributions(u, imageSize), screenshotAnalysisResults, i)
    {
      var (screenshotPath, elements) := screenshotAnalysisResults[i];
      var screenshotName := Stem(screenshotPath);
      var targets := TargetsFor(u.screenshotTargets, screenshotName);
      if targets != [] {
        assert Positive(imageSize(screenshotPath));
        var (width, height) := imageSize(screenshotPath);
        var coordinates := AnalyzeScreenshotForCoordinates(u, elements, targets, width, height);
        allCoordinates := Update(allCoordinates, coordinates);
      } else {
        assert Update(allCoordinates, []) == allCoordinates;
      }
    }
    if allCoordinates != [] {
      written := UpdateMainFlowCoordinates(mainFlow, allCoordinates);
    } else {
      written := None;
    }
  }
}
