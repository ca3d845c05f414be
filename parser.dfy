/** The test-script parser: each line of a plain-text test case becomes zero,
    one or two actions. A line is recognised by the first of a fixed list of
    case-insensitive patterns that occurs anywhere in it. Patterns are matched
    on the lower-cased line (lower-casing keeps every position), and captured
    text is cut from the line as written. */
module Parser {
  import opened Wrappers
  import opened Text
  import opened Scan

  datatype ActionType = Open | Wait | Screenshot | MaestroScreenshot | Analyze | Find | Tap | Enter | Click

  datatype TestAction = TestAction(actionType: ActionType, target: string, value: string, waitTime: real,
                                   lineNumber: int)

  /** The groups a pattern captured; a group that did not take part is None. */
  datatype Groups = Groups(g1: Option<Span>, g2: Option<Span>)

  predicate GroupsIn(g: Groups, n: nat) {
    (g.g1.Some? ==> SpanIn(g.g1.value, n)) && (g.g2.Some? ==> SpanIn(g.g2.value, n))
  }

  /** A compiled pattern: what it matches at one position of the
      lower-cased line, with the groups it captured. */
  type Pattern = (string, nat) -> Option<Groups>

  // ---------------------------------------------------------------------
  // The patterns, each at one position of the lower-cased line

  /** `open\s+(?:web\s+)?(?:application\s+)?(.+)` */
  function OpenAt(l: string, p: nat): (r: Option<Groups>)
    ensures r.Some? ==> GroupsIn(r.value, |l|) && r.value.g1.Some? && r.value.g2.None?
    ensures r.Some? ==> OccursAt(l, "open", p)
  {
    if !OccursAt(l, "open", p) then None
    else
      match Sep(l, p + 4)
      case None => None
      case Some(a) =>
        var c := OptWord(l, OptWord(l, a, "web"), "application");
        if c < |l| then Some(Groups(Some((c, |l|)), None)) else None
  }

  /** `wait\s+(\d+(?:\.\d+)?)\s+seconds?` */
  function WaitAt(l: string, p: nat): (r: Option<Groups>)
    ensures r.Some? ==> GroupsIn(r.value, |l|) && r.value.g1.Some? && r.value.g2.None?
    ensures r.Some? ==> OccursAt(l, "wait", p)
  {
    if !OccursAt(l, "wait", p) then None
    else
      match Sep(l, p + 4)
      case None => None
      case Some(a) =>
        var b := DigitEnd(l, a);
        if b == a then None
        else
          var g := if b < |l| && l[b] == '.' && DigitEnd(l, b + 1) > b + 1 then DigitEnd(l, b + 1) else b;
          match Sep(l, g)
          case None => None
          case Some(h) => if OccursAt(l, "second", h) then Some(Groups(Some((a, g)), None)) else None
  }

  /** `take\s+(?:a\s+)?screenshot`: the position after "screenshot". */
  function ScreenshotHead(l: string, p: nat): (r: Option<nat>)
    ensures r.Some? ==> p < r.value <= |l|
    ensures r.Some? ==> OccursAt(l, "take", p)
  {
    if !OccursAt(l, "take", p) then None
    else
      match Sep(l, p + 4)
      case None => None
      case Some(a) =>
        var b := OptWord(l, a, "a");
        if OccursAt(l, "screenshot", b) then Some(b + 10) else None
  }

  /** `take\s+(?:a\s+)?screenshot(?:\s+with\s+name\s+"([^"]+)")?(?:\s+at\s+path\s+"([^"]+)")?` */
  function ScreenshotAt(l: string, p: nat): (r: Option<Groups>)
    ensures r.Some? ==> GroupsIn(r.value, |l|)
    ensures r.Some? ==> OccursAt(l, "take", p)
  {
    match ScreenshotHead(l, p)
    case None => None
    case Some(q) =>
      var name := Clause(l, q, "with", "name");
      var e := if name.Some? then name.value.1 else q;
      var path := Clause(l, e, "at", "path");
      Some(Groups(if name.Some? then Some(name.value.0) else None, if path.Some? then Some(path.value.0) else None))
  }

  /** `take\s+maestro\s+screenshot\s+and\s+call\s+omniparser\s+for\s+analyzing` */
  function MaestroAt(l: string, p: nat): (r: Option<Groups>)
    ensures r.Some? ==> r.value == Groups(None, None)
    ensures r.Some? ==> OccursAt(l, "take", p)
  {
    if Phrase(l, p, ["take", "maestro", "screenshot", "and", "call", "omniparser", "for", "analyzing"]).Some? then
      Some(Groups(None, None))
    else None
  }

  /** `(?:call\s+omniparser\s+for\s+analyzing|annotated?\s+(?:this\s+)?screenshot\s+with\s+omniparser)` */
  function AnalyzeAt(l: string, p: nat): (r: Option<Groups>)
    ensures r.Some? ==> r.value == Groups(None, None)
    ensures r.Some? ==> OccursAt(l, "call", p) || OccursAt(l, "annotate", p)
  {
    if Phrase(l, p, ["call", "omniparser", "for", "analyzing"]).Some? then Some(Groups(None, None))
    else if !OccursAt(l, "annotate", p) then None
    else
      var d := if OccursAt(l, "d", p + 8) then p + 9 else p + 8;
      match Sep(l, d)
      case None => None
      case Some(a) =>
        if Phrase(l, OptWord(l, a, "this"), ["screenshot", "with", "omniparser"]).Some? then Some(Groups(None, None))
        else None
  }

  /** `\s+and\s+(?:tap|click)` at `c`: the tail that ends a find command. */
  predicate AndTapAt(l: string, c: nat) {
    match Sep(l, c)
    case None => false
    case Some(a) =>
      OccursAt(l, "and", a) &&
      match Sep(l, a + 3)
      case None => false
      case Some(b) => OccursAt(l, "tap", b) || OccursAt(l, "click", b)
  }

  /** The end of the lazy group of the find pattern: the first position
      from `c` on where the and-tap tail starts, else the end of the line. */
  function FindGroupEnd(l: string, c: nat): (e: nat)
    requires c <= |l|
    ensures c <= e <= |l|
    ensures e == |l| || AndTapAt(l, e)
    ensures forall k :: c <= k < e ==> !AndTapAt(l, k)
    decreases |l| - c
  {
    if c == |l| || AndTapAt(l, c) then c else FindGroupEnd(l, c + 1)
  }

  /** `find\s+(.+?)(?:\s+and\s+(?:tap|click).*)?$`: the group is as short as
      possible, so it stops before the first and-tap tail. */
  function FindAt(l: string, p: nat): (r: Option<Groups>)
    ensures r.Some? ==> GroupsIn(r.value, |l|) && r.value.g1.Some? && r.value.g2.None?
    ensures r.Some? ==> OccursAt(l, "find", p)
  {
    if !OccursAt(l, "find", p) then None
    else
      match Sep(l, p + 4)
      case None => None
      case Some(w) =>
        if w < |l| then Some(Groups(Some((w, FindGroupEnd(l, w + 1))), None)) else None
  }

  /** `(?:it|(.+))` at `a`: "it" is tried first and leaves the group out. */
  function ItOrRest(l: string, a: nat): (r: Option<Groups>)
    ensures r.Some? ==> GroupsIn(r.value, |l|) && r.value.g2.None?
  {
    if OccursAt(l, "it", a) then Some(Groups(None, None))
    else if a < |l| then Some(Groups(Some((a, |l|)), None))
    else None
  }

  /** `(?:verb\s*on|verb)\s+(?:it|(.+))`, for verb "tap" or "click". */
  function VerbAt(l: string, p: nat, verb: string): (r: Option<Groups>)
    ensures r.Some? ==> GroupsIn(r.value, |l|) && r.value.g2.None?
    ensures r.Some? ==> OccursAt(l, verb, p)
  {
    if !OccursAt(l, verb, p) then None
    else
      var k := p + |verb|;
      var s := SpaceEnd(l, k);
      var withOn :=
        if OccursAt(l, "on", s) then
          match Sep(l, s + 2)
          case None => None
          case Some(a) => ItOrRest(l, a)
        else None;
      if withOn.Some? then withOn
      else
        match Sep(l, k)
        case None => None
        case Some(a) => ItOrRest(l, a)
  }

  /** `enter\s+(?:here\s+)?(.+)` */
  function EnterAt(l: string, p: nat): (r: Option<Groups>)
    ensures r.Some? ==> GroupsIn(r.value, |l|) && r.value.g1.Some? && r.value.g2.None?
    ensures r.Some? ==> OccursAt(l, "enter", p)
  {
    if !OccursAt(l, "enter", p) then None
    else
      match Sep(l, p + 5)
      case None => None
      case Some(a) =>
        var b := OptWord(l, a, "here");
        if b < |l| then Some(Groups(Some((b, |l|)), None)) else None
  }

  function TapAt(l: string, p: nat): (r: Option<Groups>)
    ensures r.Some? ==> GroupsIn(r.value, |l|) && r.value.g2.None?
    ensures r.Some? ==> OccursAt(l, "tap", p)
  {
    VerbAt(l, p, "tap")
  }

  function ClickAt(l: string, p: nat): (r: Option<Groups>)
    ensures r.Some? ==> GroupsIn(r.value, |l|) && r.value.g2.None?
    ensures r.Some? ==> OccursAt(l, "click", p)
  {
    VerbAt(l, p, "click")
  }

  /** `pattern.search(line)` from position `p` on: the match at the first
      position where the pattern matches. */
  function SearchFrom(pat: Pattern, l: string, p: nat): Option<Groups>
    decreases |l| + 1 - p
  {
    if p > |l| then None
    else if pat(l, p).Some? then pat(l, p)
    else SearchFrom(pat, l, p + 1)
  }

  function Search(pat: Pattern, l: string): Option<Groups> {
    SearchFrom(pat, l, 0)
  }

  /** The search finds the match at the first position where the pattern
      matches, and nothing when it matches nowhere. */
  lemma {:induction false} SearchFromSpec(pat: Pattern, l: string, p: nat)
    requires p <= |l| + 1
    ensures SearchFrom(pat, l, p).None? <==> forall q :: p <= q <= |l| ==> pat(l, q).None?
    ensures SearchFrom(pat, l, p).Some? ==> exists q :: (p <= q <= |l| && pat(l, q) == SearchFrom(pat, l, p)
      && forall j :: p <= j < q ==> pat(l, j).None?)
    decreases |l| + 1 - p
  {
    if p <= |l| && pat(l, p).None? {
      SearchFromSpec(pat, l, p + 1);
    }
  }

  /** A pattern that matches only where one of the words `ws` starts is not
      found in a line that contains none of them. */
  lemma NotFoundWithout(pat: Pattern, l: string, ws: seq<string>)
    requires forall p: nat :: pat(l, p).Some? ==> exists i :: 0 <= i < |ws| && OccursAt(l, ws[i], p)
    requires !ContainsAny(l, ws)
    ensures Search(pat, l).None?
  {
    SearchFromSpec(pat, l, 0);
    if Search(pat, l).Some? {
      var q: nat :| q <= |l| && pat(l, q).Some?;
      var i :| 0 <= i < |ws| && OccursAt(l, ws[i], q);
      ContainsSpec(l, ws[i]);
    }
  }

  /** The parser: its table of patterns, one per action type, in the order
      in which they are tried. */
  datatype TestCaseParser = TestCaseParser(actionPatterns: seq<(ActionType, Pattern)>)

  /** The table the parser is built with, in its insertion order. */
  const ActionPatterns: seq<(ActionType, Pattern)> :=
    [(Open, OpenAt), (Wait, WaitAt), (Screenshot, ScreenshotAt), (MaestroScreenshot, MaestroAt), (Analyze, AnalyzeAt),
     (Find, FindAt), (Tap, TapAt), (Click, ClickAt), (Enter, EnterAt)]

  function NewParser(): TestCaseParser {
    TestCaseParser(ActionPatterns)
  }

  /** The first entry of `table` whose pattern occurs in the line, with that
      pattern's match. */
  function FirstPattern(table: seq<(ActionType, Pattern)>, l: string): Option<(ActionType, Groups)> {
    if table == [] then None
    else
      match Search(table[0].1, l)
      case Some(g) => Some((table[0].0, g))
      case None => FirstPattern(table[1..], l)
  }

  lemma {:induction false} FirstPatternSpec(table: seq<(ActionType, Pattern)>, l: string)
    ensures var r := FirstPattern(table, l);
      && (r.None? <==> forall k :: 0 <= k < |table| ==> Search(table[k].1, l).None?)
      && (r.Some? ==> exists k :: (0 <= k < |table| && table[k].0 == r.value.0 && Search(table[k].1, l) == Some(r.value.1)
            && forall j :: 0 <= j < k ==> Search(table[j].1, l).None?))
  {
    if table != [] && Search(table[0].1, l).None? {
      FirstPatternSpec(table[1..], l);
      assert forall k :: 1 <= k < |table| ==> table[1..][k - 1] == table[k];
      var r := FirstPattern(table, l);
      if r.Some? {
        var k :| 0 <= k < |table[1..]| && table[1..][k].0 == r.value.0 && Search(table[1..][k].1, l) == Some(r.value.1)
          && forall j :: 0 <= j < k ==> Search(table[1..][j].1, l).None?;
        assert table[k + 1] == table[1..][k];
        forall j | 0 <= j < k + 1 ensures Search(table[j].1, l).None? {
          if j > 0 { assert table[j] == table[1..][j - 1]; }
        }
      }
    }
  }

  // ---------------------------------------------------------------------
  // One line

  /** The captured text of a group, or "" when it did not take part. */
  function GroupText(s: string, g: Option<Span>): string {
    if g.Some? && SpanIn(g.value, |s|) then s[g.value.0..g.value.1] else ""
  }

  /** The message of the error raised when the analyze branch asks for a
      group its pattern does not have. */
  const NoSuchGroup: string := "IndexError: no such group"

  /** `_parse_line`: the action built from the first pattern of the table
      that occurs in the stripped line, None when none does, and the error
      the analyze branch raises on a line without "annotated". */
  function ParseLine(parser: TestCaseParser, line: string, n: int): (r: Result<Option<TestAction>, string>)
    ensures r.Ok? && r.value.Some? ==> r.value.value.lineNumber == n
  {
    var s := Strip(line);
    var l := Lower(s);
    match FirstPattern(parser.actionPatterns, l)
    case None => Ok(None)
    case Some((t, g)) => Build(t, g, s, l, n)
  }

  /** The action for a matched pattern, as each branch of `_parse_line`
      builds it. */
  function Build(t: ActionType, g: Groups, s: string, l: string, n: int): (r: Result<Option<TestAction>, string>)
    ensures r.Err? <==> t == Analyze && !Contains(l, "annotated")
    ensures r.Ok? ==> r.value.Some? && r.value.value.lineNumber == n
    ensures r.Ok? ==> r.value.value.actionType == t || (t == Find && r.value.value.actionType == Tap && Contains(l, "tap"))
    ensures r.Ok? && t in {Open, Find, Tap, Click} ==>
      r.value.value.target == Strip(GroupText(s, g.g1)) && r.value.value.value == "" && r.value.value.waitTime == 0.0
    ensures r.Ok? && t == Enter ==>
      r.value.value.target == "" && r.value.value.value == Strip(GroupText(s, g.g1)) && r.value.value.waitTime == 0.0
    ensures r.Ok? && t == Wait ==>
      r.value.value.target == "" && r.value.value.value == "" && r.value.value.waitTime == DecimalValue(GroupText(s, g.g1))
    ensures r.Ok? && t == Screenshot ==>
      r.value.value.target == GroupText(s, g.g1) && r.value.value.value == GroupText(s, g.g2) && r.value.value.waitTime == 0.0
    ensures r.Ok? && t == MaestroScreenshot ==> r.value.value.target == "maestro_with_analysis"
    ensures r.Ok? && t == Analyze ==> r.value.value.target == "current_screenshot"
  {
    var text1 := GroupText(s, g.g1);
    match t
    case Open => Ok(Some(TestAction(Open, Strip(text1), "", 0.0, n)))
    case Wait => Ok(Some(TestAction(Wait, "", "", DecimalValue(text1), n)))
    case Screenshot => Ok(Some(TestAction(Screenshot, text1, GroupText(s, g.g2), 0.0, n)))
    case MaestroScreenshot => Ok(Some(TestAction(MaestroScreenshot, "maestro_with_analysis", "", 0.0, n)))
    case Analyze =>
      if Contains(l, "annotated") then Ok(Some(TestAction(Analyze, "current_screenshot", "", 0.0, n)))
      else Err(NoSuchGroup)
    case Find =>
      if Contains(l, "tap") then Ok(Some(TestAction(Tap, Strip(text1), "", 0.0, n)))
      else Ok(Some(TestAction(Find, Strip(text1), "", 0.0, n)))
    case Tap => Ok(Some(TestAction(Tap, Strip(text1), "", 0.0, n)))
    case Click => Ok(Some(TestAction(Click, Strip(text1), "", 0.0, n)))
    case Enter => Ok(Some(TestAction(Enter, "", Strip(text1), 0.0, n)))
  }

  /** The parser's outcome follows the first entry of its table whose
      pattern occurs in the line: no action when none does; the analyze
      pattern's error exactly when it comes first and the line does not say
      "annotated"; otherwise an action of that entry's type on line `n`,
      except that a find line mentioning "tap" becomes a tap. */
  lemma ParseLineDispatch(parser: TestCaseParser, line: string, n: int)
    ensures var table := parser.actionPatterns;
      var l := Lower(Strip(line));
      var r := ParseLine(parser, line, n);
      && ((forall k :: 0 <= k < |table| ==> Search(table[k].1, l).None?) <==> r == Ok(None))
      && (r.Err? <==> (exists k :: (0 <= k < |table| && table[k].0 == Analyze && Search(table[k].1, l).Some?
                                    && forall j :: 0 <= j < k ==> Search(table[j].1, l).None?))
                      && !Contains(l, "annotated"))
      && (r.Ok? && r.value.Some? ==>
            r.value.value.lineNumber == n
            && exists k :: (0 <= k < |table| && Search(table[k].1, l).Some?
                 && (forall j :: 0 <= j < k ==> Search(table[j].1, l).None?)
                 && (r.value.value.actionType == table[k].0
                     || (table[k].0 == Find && r.value.value.actionType == Tap && Contains(l, "tap")))))
  {
    var table := parser.actionPatterns;
    var l := Lower(Strip(line));
    var f := FirstPattern(table, l);
    FirstPatternSpec(table, l);
    if f.Some? {
      var k :| 0 <= k < |table| && table[k].0 == f.value.0 && Search(table[k].1, l) == Some(f.value.1)
        && forall j :: 0 <= j < k ==> Search(table[j].1, l).None?;
      forall k' | 0 <= k' < |table| && table[k'].0 == Analyze && Search(table[k'].1, l).Some?
        && (forall j :: 0 <= j < k' ==> Search(table[j].1, l).None?)
        ensures k' == k
      {
      }
    }
  }

  // ---------------------------------------------------------------------
  // The file

  /** `re.sub(r'^\d+(?:\.\d+)?[-\s]+', '', line)`: the step number in front
      of a line, with the dashes and white space after it, is removed. */
  function DropStepNumber(s: string): string {
    var b := DigitEnd(s, 0);
    if b == 0 then s
    else
      var g := if b < |s| && s[b] == '.' && DigitEnd(s, b + 1) > b + 1 then DigitEnd(s, b + 1) else b;
      var e := DashSpaceEnd(s, g);
      if e == g then s else s[e..]
  }

  predicate IsDashOrSpace(c: char) {
    c == '-' || IsSpace(c)
  }

  /** `[-\s]*` from `i`: the end of the longest run of dashes and white space. */
  function DashSpaceEnd(s: string, i: nat): (j: nat)
    requires i <= |s|
    ensures i <= j <= |s|
    ensures forall k :: i <= k < j ==> IsDashOrSpace(s[k])
    ensures j == |s| || !IsDashOrSpace(s[j])
    decreases |s| - i
  {
    if i < |s| && IsDashOrSpace(s[i]) then DashSpaceEnd(s, i + 1) else i
  }

  /** `and\s+call\s+omniparser` starts somewhere from `c` on (the `.*` in
      front of it takes any text). */
  predicate AndCallFrom(l: string, c: nat)
    decreases |l| + 1 - c
  {
    c <= |l| && (Phrase(l, c, ["and", "call", "omniparser"]).Some? || AndCallFrom(l, c + 1))
  }

  /** The combined pattern `take\s+(?:a\s+)?screenshot(?:\s+with\s+name\s+"([^"]+)")?(?:\s+at\s+path\s+"([^"]+)")?.*and\s+call\s+omniparser`
      at one position. The engine keeps both optional clauses if it can,
      then gives up the path clause, then the name clause, then both. */
  function CombinedAt(l: string, p: nat): (r: Option<Groups>)
    ensures r.Some? ==> GroupsIn(r.value, |l|)
    ensures r.Some? ==> OccursAt(l, "take", p)
  {
    match ScreenshotHead(l, p)
    case None => None
    case Some(q) =>
      var name := Clause(l, q, "with", "name");
      var pathAfterName := if name.Some? then Clause(l, name.value.1, "at", "path") else None;
      var path := Clause(l, q, "at", "path");
      if name.Some? && pathAfterName.Some? && AndCallFrom(l, pathAfterName.value.1) then
        Some(Groups(Some(name.value.0), Some(pathAfterName.value.0)))
      else if name.Some? && AndCallFrom(l, name.value.1) then Some(Groups(Some(name.value.0), None))
      else if path.Some? && AndCallFrom(l, path.value.1) then Some(Groups(None, Some(path.value.0)))
      else if AndCallFrom(l, q) then Some(Groups(None, None))
      else None
  }

  /** The actions of line number `n` of the file, given the line once it is
      stripped and its step number is gone: none for an empty line; a
      screenshot followed by an analysis of it for a combined line; else
      what `_parse_line` gives. */
  function LineActions(parser: TestCaseParser, line: string, n: int): (r: Result<seq<TestAction>, string>)
    ensures r.Ok? ==> |r.value| <= 2 && forall i :: 0 <= i < |r.value| ==> r.value[i].lineNumber == n
  {
    if line == [] then Ok([])
    else
      match Search(CombinedAt, Lower(line))
      case Some(g) =>
        Ok([TestAction(Screenshot, GroupText(line, g.g1), GroupText(line, g.g2), 0.0, n),
            TestAction(Analyze, "current_screenshot", "", 0.0, n)])
      case None =>
        match ParseLine(parser, line, n)
        case Err(e) => Err(e)
        case Ok(None) => Ok([])
        case Ok(Some(a)) => Ok([a])
  }

  /** What one line of the file contributes, given the line and its number. */
  type LineFn = (string, int) -> Result<seq<TestAction>, string>

  /** The per-line work of `parse_file`: the line is stripped, its step
      number dropped, and what is left parsed. */
  function FileLine(parser: TestCaseParser): (step: LineFn)
    ensures forall line: string, n: int :: step(line, n) == LineActions(parser, DropStepNumber(Strip(line)), n)
  {
    (line: string, n: int) => LineActions(parser, DropStepNumber(Strip(line)), n)
  }

  /** The actions of the first `k` lines, numbered from 1; the first error
      raised ends the parse. */
  function ParseLines(step: LineFn, lines: seq<string>, k: nat): (r: Result<seq<TestAction>, string>)
    requires k <= |lines|
  {
    if k == 0 then Ok([])
    else
      match ParseLines(step, lines, k - 1)
      case Err(e) => Err(e)
      case Ok(acts) =>
        match step(lines[k - 1], k)
        case Err(e) => Err(e)
        case Ok(more) => Ok(acts + more)
  }

  /** `parse_file`, over the lines of the file. */
  method ParseFile(parser: TestCaseParser, lines: seq<string>) returns (r: Result<seq<TestAction>, string>)
    ensures r == ParseLines(FileLine(parser), lines, |lines|)
  {
    r := ParseEach(FileLine(parser), lines);
  }

  /** The loop of `parse_file`: each line's actions are appended in turn,
      and the first error is returned at once. */
  method ParseEach(step: LineFn, lines: seq<string>) returns (r: Result<seq<TestAction>, string>)
    ensures r == ParseLines(step, lines, |lines|)
  {
    var actions: seq<TestAction> := [];
    for i := 0 to |lines|
      invariant ParseLines(step, lines, i) == Ok(actions)
    {
      var more := step(lines[i], i + 1);
      if more.Err? {
        ErrorEndsParse(step, lines, i + 1, |lines|);
        return Err(more.error);
      }
      actions := actions + more.value;
    }
    return Ok(actions);
  }

  /** Once a line raises, the parse of any longer prefix raises the same. */
  lemma {:induction false} ErrorEndsParse(step: LineFn, lines: seq<string>, j: nat, k: nat)
    requires j <= k <= |lines| && ParseLines(step, lines, j).Err?
    ensures ParseLines(step, lines, k) == ParseLines(step, lines, j)
    decreases k
  {
    if j < k {
      ErrorEndsParse(step, lines, j, k - 1);
    }
  }

  /** The line numbers of `acts` lie between 1 and `k` and never decrease. */
  predicate NumberedInOrder(acts: seq<TestAction>, k: int) {
    (forall i :: 0 <= i < |acts| ==> 1 <= acts[i].lineNumber <= k)
    && (forall i, j :: 0 <= i < j < |acts| ==> acts[i].lineNumber <= acts[j].lineNumber)
  }

  lemma AppendLine(prev: seq<TestAction>, more: seq<TestAction>, k: int)
    requires NumberedInOrder(prev, k - 1) && 1 <= k
    requires forall i :: 0 <= i < |more| ==> more[i].lineNumber == k
    ensures NumberedInOrder(prev + more, k)
  {
    var acts := prev + more;
    forall i | 0 <= i < |acts| ensures acts[i] == if i < |prev| then prev[i] else more[i - |prev|] {
    }
  }

  /** Every action a line contributes carries that line's number. */
  ghost predicate NumbersLines(step: LineFn) {
    forall line: string, n: int :: step(line, n).Ok? ==>
      forall i :: 0 <= i < |step(line, n).value| ==> step(line, n).value[i].lineNumber == n
  }

  lemma {:induction false} StepsInOrder(step: LineFn, lines: seq<string>, k: nat)
    requires k <= |lines| && NumbersLines(step)
    ensures ParseLines(step, lines, k).Ok? ==> NumberedInOrder(ParseLines(step, lines, k).value, k)
  {
    if k > 0 {
      StepsInOrder(step, lines, k - 1);
      var prev := ParseLines(step, lines, k - 1);
      var more := step(lines[k - 1], k);
      if prev.Ok? && more.Ok? {
        AppendLine(prev.value, more.value, k);
      }
    }
  }

  /** Actions carry the 1-based number of the line they come from, in file
      order, so line numbers never decrease along the result. */
  lemma LineNumbersInOrder(parser: TestCaseParser, lines: seq<string>, k: nat)
    requires k <= |lines|
    ensures ParseLines(FileLine(parser), lines, k).Ok? ==> NumberedInOrder(ParseLines(FileLine(parser), lines, k).value, k)
  {
    var step := FileLine(parser);
    forall line: string, n: int | step(line, n).Ok?
      ensures forall i :: 0 <= i < |step(line, n).value| ==> step(line, n).value[i].lineNumber == n
    {
      assert step(line, n) == LineActions(parser, DropStepNumber(Strip(line)), n);
    }
    StepsInOrder(step, lines, k);
  }

  /** A line that is blank once stripped adds no action and raises nothing. */
  lemma BlankLineSkipped(parser: TestCaseParser, lines: seq<string>, k: nat)
    requires 0 < k <= |lines| && IsBlank(lines[k - 1])
    ensures ParseLines(FileLine(parser), lines, k) == ParseLines(FileLine(parser), lines, k - 1)
  {
    var step := FileLine(parser);
    assert Strip(lines[k - 1]) == [];
    assert step(lines[k - 1], k) == Ok([]);
    var prev := ParseLines(step, lines, k - 1);
    if prev.Ok? {
      assert prev.value + [] == prev.value;
    }
  }

  /** A combined screenshot-and-analyze line gives a screenshot action and
      then an analyze action on the current screenshot, both on its line. */
  lemma CombinedLineGivesTwo(parser: TestCaseParser, line: string, n: int)
    requires Search(CombinedAt, Lower(line)).Some?
    ensures LineActions(parser, line, n).Ok?
    ensures var acts := LineActions(parser, line, n).value;
      |acts| == 2 && acts[0].actionType == Screenshot && acts[1] == TestAction(Analyze, "current_screenshot", "", 0.0, n)
      && acts[0].lineNumber == n
  {
  }

  /** A step number such as "1-" or "2.5 - " in front of a line changes
      nothing. */
  lemma StepNumberDropped(number: string, fraction: string, sep: string, s: string)
    requires IsDigits(number) && (fraction == [] || IsDigits(fraction))
    requires |sep| > 0 && forall k :: 0 <= k < |sep| ==> IsDashOrSpace(sep[k])
    requires s == [] || !IsDashOrSpace(s[0])
    ensures DropStepNumber(number + (if fraction == [] then "" else "." + fraction) + sep + s) == s
  {
    var dot := if fraction == [] then "" else "." + fraction;
    var t := number + dot + sep + s;
    var b := |number|;
    var g := b + |dot|;
    var e := g + |sep|;
    assert forall k :: 0 <= k < b ==> t[k] == number[k];
    assert forall k :: g <= k < e ==> t[k] == sep[k - g];
    assert t[e..] == s;
    if fraction != [] {
      assert forall k :: b < k < g ==> t[k] == fraction[k - b - 1];
      assert t[b] == '.' && !IsDashOrSpace(t[g - 1]);
    } else {
      assert t[b] == sep[0];
    }
    StepPrefixEnds(t, b, g, e);
  }

  /** The step number is removed up to the end of the dashes and white space
      that follow the number. */
  lemma StepPrefixEnds(t: string, b: nat, g: nat, e: nat)
    requires 0 < b <= g < e <= |t|
    requires forall k :: 0 <= k < b ==> IsDigit(t[k])
    requires b == g ==> !IsDigit(t[b]) && t[b] != '.'
    requires b < g ==> t[b] == '.' && b + 1 < g && forall k :: b < k < g ==> IsDigit(t[k])
    requires forall k :: g <= k < e ==> IsDashOrSpace(t[k])
    requires e == |t| || !IsDashOrSpace(t[e])
    ensures DropStepNumber(t) == t[e..]
  {
    DigitRunIn(t, 0, b);
    if b < g {
      DigitRunIn(t, b + 1, g);
    }
    DashRunIn(t, g, e);
  }

  lemma {:induction false} DigitRunIn(t: string, i: nat, j: nat)
    requires i <= j <= |t|
    requires forall k :: i <= k < j ==> IsDigit(t[k])
    requires j == |t| || !IsDigit(t[j])
    ensures DigitEnd(t, i) == j
    decreases j - i
  {
    if i < j {
      DigitRunIn(t, i + 1, j);
    }
  }

  lemma {:induction false} DashRunIn(t: string, i: nat, j: nat)
    requires i <= j <= |t|
    requires forall k :: i <= k < j ==> IsDashOrSpace(t[k])
    requires j == |t| || !IsDashOrSpace(t[j])
    ensures DashSpaceEnd(t, i) == j
    decreases j - i
  {
    if i < j {
      DashRunIn(t, i + 1, j);
    }
  }

  // ---------------------------------------------------------------------
  // Validation

  /** An enter action that is first, or that does not follow a find, a tap
      or a click. */
  predicate Unprepared(actions: seq<TestAction>, i: nat)
    requires i < |actions|
  {
    actions[i].actionType == Enter && (i == 0 || actions[i - 1].actionType !in {Find, Tap, Click})
  }

  function EnterWarning(lineNumber: int): string {
    "Line " + IntToString(lineNumber) + ": ENTER action without preceding FIND/TAP action"
  }

  /** The positions of the unprepared enter actions among the first `k`. */
  function Unprepareds(actions: seq<TestAction>, k: nat): (r: seq<nat>)
    requires k <= |actions|
  {
    if k == 0 then []
    else Unprepareds(actions, k - 1) + (if Unprepared(actions, k - 1) then [k - 1] else [])
  }

  /** The warnings for the first `k` actions, in order. */
  function Warnings(actions: seq<TestAction>, k: nat): (r: seq<string>)
    requires k <= |actions|
  {
    if k == 0 then []
    else Warnings(actions, k - 1) + (if Unprepared(actions, k - 1) then [EnterWarning(actions[k - 1].lineNumber)] else [])
  }

  /** `validate_actions` */
  method ValidateActions(actions: seq<TestAction>) returns (warnings: seq<string>)
    ensures warnings == Warnings(actions, |actions|)
  {
    warnings := [];
    for i := 0 to |actions|
      invariant warnings == Warnings(actions, i)
    {
      var action := actions[i];
      assert Warnings(actions, i + 1) == warnings + if Unprepared(actions, i) then [EnterWarning(action.lineNumber)] else [];
      if action.actionType == Enter {
        if i == 0 || actions[i - 1].actionType !in {Find, Tap, Click} {
          warnings := warnings + [EnterWarning(action.lineNumber)];
        }
      }
    }
  }

  /** The unprepared enter actions among the first `k` are listed once
      each, in increasing position. */
  lemma {:induction false} UnpreparedsSpec(actions: seq<TestAction>, k: nat)
    requires k <= |actions|
    ensures var u := Unprepareds(actions, k);
      && (forall i :: 0 <= i < k ==> (Unprepared(actions, i) <==> i in u))
      && (forall i :: 0 <= i < |u| ==> u[i] < k)
      && (forall i, j :: 0 <= i < j < |u| ==> u[i] < u[j])
  {
    if k > 0 {
      UnpreparedsSpec(actions, k - 1);
      var u0 := Unprepareds(actions, k - 1);
      var u := Unprepareds(actions, k);
      assert k - 1 !in u0;
      if Unprepared(actions, k - 1) {
        assert u == u0 + [k - 1];
        forall i | 0 <= i < k ensures Unprepared(actions, i) <==> i in u {
          assert i in u <==> i in u0 || i == k - 1;
        }
      } else {
        assert u == u0;
      }
    }
  }

  /** `w` holds, for each position in `u` (all below `k`), the warning
      naming that action's line. */
  predicate WarnsFor(actions: seq<TestAction>, k: nat, u: seq<nat>, w: seq<string>)
    requires k <= |actions|
  {
    |w| == |u| && forall i :: 0 <= i < |u| ==> u[i] < k && w[i] == EnterWarning(actions[u[i]].lineNumber)
  }

  /** The next action adds its warning exactly when it adds its position. */
  lemma WarnsForStep(actions: seq<TestAction>, k: nat, u: seq<nat>, w: seq<string>)
    requires k < |actions| && WarnsFor(actions, k, u, w)
    ensures WarnsFor(actions, k + 1,
      u + (if Unprepared(actions, k) then [k] else []),
      w + (if Unprepared(actions, k) then [EnterWarning(actions[k].lineNumber)] else []))
  {
    if Unprepared(actions, k) {
      var u', w' := u + [k], w + [EnterWarning(actions[k].lineNumber)];
      forall i | 0 <= i < |u'| ensures u'[i] < k + 1 && w'[i] == EnterWarning(actions[u'[i]].lineNumber) {
        if i < |u| {
          assert u'[i] == u[i] && w'[i] == w[i];
        }
      }
    } else {
      assert u + [] == u && w + [] == w;
    }
  }

  /** Exactly one warning per unprepared enter action, in order, naming its
      line. */
  lemma {:induction false} WarningsPerEnter(actions: seq<TestAction>, k: nat)
    requires k <= |actions|
    ensures var u := Unprepareds(actions, k);
      && |Warnings(actions, k)| == |u|
      && forall i :: 0 <= i < |u| ==> u[i] < k && Warnings(actions, k)[i] == EnterWarning(actions[u[i]].lineNumber)
  {
    WarningsFor(actions, k);
  }

  lemma {:induction false} WarningsFor(actions: seq<TestAction>, k: nat)
    requires k <= |actions|
    ensures WarnsFor(actions, k, Unprepareds(actions, k), Warnings(actions, k))
  {
    if k > 0 {
      var u, w := Unprepareds(actions, k - 1), Warnings(actions, k - 1);
      WarningsFor(actions, k - 1);
      WarnsForStep(actions, k - 1, u, w);
      assert Unprepareds(actions, k) == u + (if Unprepared(actions, k - 1) then [k - 1] else []);
      assert Warnings(actions, k) == w + (if Unprepared(actions, k - 1) then [EnterWarning(actions[k - 1].lineNumber)] else []);
    }
  }
}
