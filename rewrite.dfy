/** Writing matched coordinates back into a generated flow: every `tapOn`
    command whose comment names a target has the target looked up among the
    elements of an analysed screenshot; a found element's centre becomes the
    command's tap point and its text is noted in the comment. Also the
    orchestrator's choice of which analysis to search for an action.
    Reading and writing the YAML file and measuring the screenshot are left
    to the caller: the documents and the screenshot's size enter as values. */
module Rewrite {
  import opened Wrappers
  import opened Text
  import opened Vision
  import opened Matcher
  import opened Yaml
  import opened Generator

  /** The phrase a comment asks for coordinates with. */
  const PromptMarker: string := "PROSIM NAJDI SURADNICE PRE"

  /** The tap point the generator writes when no element was found. */
  const TodoPoint: string := "TODO%,TODO%"

  /** The size assumed when no screenshot could be measured. */
  const FallbackDimensions: Dimensions := (3492, 1912)

  /** How the matcher is consulted: a target and the elements to search. */
  type MatchFn = (string, seq<UIElement>) -> Option<MatchResult>

  /** `matcher.find_best_match` of a matcher with the given settings. */
  function MatcherFind(matcher: Settings, fuzz: Fuzz): (find: MatchFn)
    ensures forall target, es :: find(target, es) == BestMatch(matcher, target, es, fuzz)
  {
    (target, es) => BestMatch(matcher, target, es, fuzz)
  }

  // ---------------------------------------------------------------------
  // The target named by a comment

  /** `p in s` holds exactly when `s.find(p)` finds it. */
  lemma ContainsIndex(s: string, p: string)
    ensures Contains(s, p) <==> IndexOf(s, p).Some?
  {
    ContainsSpec(s, p);
    if IndexOf(s, p).Some? {
      assert OccursAt(s, p, IndexOf(s, p).value);
    }
  }

  /** `t.split(sep)[0]`: the text of `t` before the first `sep`. */
  function FirstPiece(t: string, sep: string): string
    requires |sep| > 0
  {
    SplitOn(t, sep)[0]
  }

  /** The first piece is the longest prefix of `t` in which no `sep`
      starts: it runs up to the first `sep` or to the end. */
  lemma FirstPieceSpec(t: string, sep: string)
    requires |sep| > 0
    ensures StartsWith(t, FirstPiece(t, sep))
    ensures forall q :: 0 <= q < |FirstPiece(t, sep)| ==> !OccursAt(t, sep, q)
    ensures |FirstPiece(t, sep)| == |t| || OccursAt(t, sep, |FirstPiece(t, sep)|)
  {
  }

  /** `s.split(sep)[1]` where `sep` first occurs at `i`: the text after it,
      up to the next `sep`. */
  lemma SplitSecond(s: string, sep: string, i: nat)
    requires |sep| > 0 && IndexOf(s, sep) == Some(i)
    ensures |SplitOn(s, sep)| >= 2 && SplitOn(s, sep)[1] == FirstPiece(s[i + |sep|..], sep)
  {
  }

  /** The target text of a comment: between the first two quotes of a
      prompt comment (to the end when the second is missing, nothing when
      there is no quote); otherwise after the first `# `, up to the next
      `# ` and then up to ` (OCR:`; nothing when there is no `# `. */
  function ExtractTarget(comment: string): string {
    if Contains(comment, PromptMarker) then
      if Contains(comment, "\"") then
        ContainsIndex(comment, "\"");
        SplitSecond(comment, "\"", IndexOf(comment, "\"").value);
        SplitOn(comment, "\"")[1]
      else ""
    else if Contains(comment, "# ") then
      ContainsIndex(comment, "# ");
      SplitSecond(comment, "# ", IndexOf(comment, "# ").value);
      FirstPiece(SplitOn(comment, "# ")[1], " (OCR:")
    else ""
  }

  /** A prompt comment's target is the run of text without quotes that
      follows its first quote. */
  lemma ExtractPrompted(comment: string, i: nat)
    requires Contains(comment, PromptMarker) && IndexOf(comment, "\"") == Some(i)
    ensures var r := ExtractTarget(comment);
      StartsWith(comment[i + 1..], r) && '"' !in r
      && (i + 1 + |r| == |comment| || comment[i + 1 + |r|] == '"')
  {
    ContainsIndex(comment, "\"");
    SplitSecond(comment, "\"", i);
    var t := comment[i + 1..];
    var r := FirstPiece(t, "\"");
    FirstPieceSpec(t, "\"");
    forall q | 0 <= q < |r| ensures r[q] != '"' {
      assert t[q] == r[q];
      assert !OccursAt(t, "\"", q);
    }
    if |r| < |t| {
      assert t[|r|] == comment[i + 1 + |r|];
    }
  }

  /** The comment the generator writes for a target it could not locate
      reads back as the cleaned target. */
  lemma PlaceholderReadsBack(target: string)
    ensures ExtractTarget(PlaceholderPrefix + " \"" + TargetClean(target) + "\"") == TargetClean(target)
  {
    PlaceholderPrompt();
    TargetCleanUnquoted(target);
    QuotedReadsBack(PlaceholderPrefix, TargetClean(target));
  }

  /** The placeholder text opens with the prompt and holds no quote. */
  lemma PlaceholderPrompt()
    ensures StartsWith(PlaceholderPrefix, PromptMarker)
    ensures forall j :: 0 <= j < |PlaceholderPrefix| ==> PlaceholderPrefix[j] != '"'
  {
    assert PlaceholderPrefix[..|PromptMarker|] == PromptMarker;
  }

  /** A prompt, a space and a quoted text without quotes reads back as that
      text. */
  lemma QuotedReadsBack(p: string, tc: string)
    requires StartsWith(p, PromptMarker)
    requires forall j :: 0 <= j < |p| ==> p[j] != '"'
    requires '"' !in tc
    ensures ExtractTarget(p + " \"" + tc + "\"") == tc
  {
    var c := p + " \"" + tc + "\"";
    var i := |p| + 1;
    assert StartsWith(c, PromptMarker) by {
      assert c[..|PromptMarker|] == p[..|PromptMarker|];
    }
    assert c[|p|] == ' ' && c[i] == '"';
    assert OccursAt(c, "\"", i) by {
      assert c[i..i + 1] == "\"";
    }
    assert forall j :: 0 <= j < i ==> !OccursAt(c, "\"", j) by {
      forall j | 0 <= j < i ensures !OccursAt(c, "\"", j) {
        if j < |p| {
          assert c[j] == p[j];
        }
      }
    }
    IndexOfFirst(c, "\"", i);
    ExtractPrompted(c, i);
    var r := ExtractTarget(c);
    assert c[i + 1..] == tc + "\"";
    assert r == c[i + 1..][..|r|] == tc;
  }

  /** A prompt comment without a quote names no target. */
  lemma ExtractPromptedUnquoted(comment: string)
    requires Contains(comment, PromptMarker) && '"' !in comment
    ensures ExtractTarget(comment) == ""
  {
    ContainsSpec(comment, "\"");
  }

  /** Any other comment with a `# ` names the text after its first `# `, up
      to the first place where `# ` or ` (OCR:` starts. */
  lemma ExtractHashed(comment: string, i: nat)
    requires !Contains(comment, PromptMarker) && IndexOf(comment, "# ") == Some(i)
    ensures var t := comment[i + 2..];
      var r := ExtractTarget(comment);
      StartsWith(t, r)
      && (forall q :: 0 <= q < |r| ==> !OccursAt(t, "# ", q) && !OccursAt(t, " (OCR:", q))
      && (|r| == |t| || OccursAt(t, "# ", |r|) || OccursAt(t, " (OCR:", |r|))
  {
    ContainsIndex(comment, "# ");
    SplitSecond(comment, "# ", i);
    var t := comment[i + 2..];
    var p := FirstPiece(t, "# ");
    var r := FirstPiece(p, " (OCR:");
    FirstPieceSpec(t, "# ");
    FirstPieceSpec(p, " (OCR:");
    assert ExtractTarget(comment) == r;
    PrefixOfPrefix(t, p, r);
    forall q | 0 <= q < |r| ensures !OccursAt(t, " (OCR:", q) {
      NoteNotAcrossHash(t, p, q);
    }
    if |r| < |p| {
      OccursAgree(p, t, " (OCR:", |r|);
    }
  }

  /** A prefix of a prefix is a prefix. */
  lemma PrefixOfPrefix(t: string, p: string, r: string)
    requires StartsWith(t, p) && StartsWith(p, r)
    ensures StartsWith(t, r)
  {
    assert t[..|r|] == t[..|p|][..|r|];
  }

  /** ` (OCR:` holds no `#`, so an occurrence of it in `t` that starts
      within the first piece `p` before a `# ` lies inside `p`. */
  lemma NoteNotAcrossHash(t: string, p: string, q: nat)
    requires StartsWith(t, p) && q < |p|
    requires |p| == |t| || OccursAt(t, "# ", |p|)
    ensures OccursAt(t, " (OCR:", q) ==> OccursAt(p, " (OCR:", q)
  {
    if OccursAt(t, " (OCR:", q) {
      forall k | q <= k < q + 6 ensures t[k] != '#' {
        assert t[k] == t[q..q + 6][k - q];
      }
      if |p| < |t| {
        assert t[|p|] == t[|p|..|p| + 2][0];
      }
      OccursAgree(t, p, " (OCR:", q);
    }
  }

  /** A comment with neither the prompt nor a `# ` names no target. */
  lemma ExtractNothing(comment: string)
    requires !Contains(comment, PromptMarker) && !Contains(comment, "# ")
    ensures ExtractTarget(comment) == ""
  {
  }

  // ---------------------------------------------------------------------
  // One command

  /** What happened to one command. */
  datatype Outcome =
    | Untouched
    | Updated(wasTodo: bool)
    | NotFound(target: string)

  /** The `tapOn` entries of a command that is a dictionary with a `tapOn`
      dictionary holding a `point`; None for any other command. */
  function TapOf(command: Value): (r: Option<PyDict<Value>>)
    ensures r.Some? ==> command.Dict? && Get(command.entries, "tapOn") == Some(Dict(r.value))
    ensures r.Some? ==> HasKey(r.value, "point")
    ensures r.None? ==> !command.Dict? || match Get(command.entries, "tapOn")
                                          case None => true
                                          case Some(tap) => !tap.Dict? || !HasKey(tap.entries, "point")
  {
    if command.Dict? then
      match Get(command.entries, "tapOn")
      case Some(tap) => if tap.Dict? && HasKey(tap.entries, "point") then Some(tap.entries) else None
      case None => None
    else None
  }

  /** `tap.get('_comment', '')` */
  function CommentOf(tap: PyDict<Value>): (r: Value)
    ensures HasKey(tap, "_comment") ==> Some(r) == Get(tap, "_comment")
    ensures !HasKey(tap, "_comment") ==> r == Str("")
  {
    match Get(tap, "_comment")
    case Some(c) => c
    case None => Str("")
  }

  /** The target a comment names. A text comment is read as above; a point
      stands for its formatted text, which holds neither marker. Membership
      in a mapping tests its keys and in a list its items, and the tests run
      as for a text: with the prompt present, a quote present means a call
      of `split`, which such a comment lacks, so the update fails, and no
      quote means no target; without the prompt, a `# ` present fails the
      same way, and otherwise there is no target. Null and numbers cannot
      be searched and fail too. */
  function TargetOf(comment: Value): (r: Result<string, string>)
    ensures comment.Str? ==> r == Ok(ExtractTarget(comment.s))
    ensures comment.Point? ==> r == Ok("")
    ensures comment.Dict? ==>
      (r.Err? <==> if HasKey(comment.entries, PromptMarker) then HasKey(comment.entries, "\"")
                   else HasKey(comment.entries, "# "))
    ensures comment.List? ==>
      (r.Err? <==> if Str(PromptMarker) in comment.items then Str("\"") in comment.items
                   else Str("# ") in comment.items)
    ensures comment.Null? || comment.Int? ==> r.Err?
    ensures r.Ok? && r.value != "" ==> comment.Str? && r.value == ExtractTarget(comment.s)
  {
    match comment
    case Str(c) => Ok(ExtractTarget(c))
    case Point(_, _) => Ok("")
    case Dict(entries) =>
      if HasKey(entries, PromptMarker) then
        if HasKey(entries, "\"") then Err("'dict' object has no attribute 'split'") else Ok("")
      else if HasKey(entries, "# ") then Err("'dict' object has no attribute 'split'")
      else Ok("")
    case List(items) =>
      if Str(PromptMarker) in items then
        if Str("\"") in items then Err("'list' object has no attribute 'split'") else Ok("")
      else if Str("# ") in items then Err("'list' object has no attribute 'split'")
      else Ok("")
    case Null => Err("argument of type 'NoneType' is not iterable")
    case Int(_) => Err("argument of type 'int' is not iterable")
  }

  /** The comment after a match: the element's text noted once. */
  function NotedComment(comment: string, e: UIElement): string {
    if Contains(comment, "OCR:") then comment else comment + " (OCR: " + e.ocrText + ")"
  }

  /** One command of the loop in `update_yaml_coordinates`, on a
      screenshot of size `d`. A command that is not a tap with a point, or
      whose comment names no target, is left untouched; one whose comment
      cannot be searched fails the update. A target the matcher does not
      find is reported and the command kept, old point and all. Otherwise
      the command's tap is replaced by the tap with the found element's
      centre and text, and it counts as a TODO item exactly when its old
      point was the placeholder. */
  function RewriteCommand(command: Value, find: MatchFn, elements: seq<UIElement>, d: Dimensions)
    : (r: Result<(Value, Outcome), string>)
    requires Positive(d)
    ensures r.Ok? && !r.value.1.Updated? ==> r.value.0 == command
    ensures r == Ok((command, Untouched))
            <==> TapOf(command).None? || TargetOf(CommentOf(TapOf(command).value)) == Ok("")
    ensures r.Err? <==> TapOf(command).Some? && TargetOf(CommentOf(TapOf(command).value)).Err?
    ensures r.Ok? && r.value.1.NotFound? ==>
      TapOf(command).Some? && CommentOf(TapOf(command).value).Str?
      && r.value.1.target == ExtractTarget(CommentOf(TapOf(command).value).s) != ""
      && find(r.value.1.target, elements).None?
    ensures r.Ok? && r.value.1.Updated? ==>
      TapOf(command).Some?
      && var tap := TapOf(command).value;
         var comment := CommentOf(tap);
         comment.Str? && Get(tap, "_comment") == Some(comment) && ExtractTarget(comment.s) != ""
         && find(ExtractTarget(comment.s), elements).Some?
         && (r.value.1.wasTodo <==> Get(tap, "point") == Some(Str(TodoPoint)))
         && r.value.0 == Dict(Put(command.entries, "tapOn",
                                  Dict(Tapped(tap, comment.s, find(ExtractTarget(comment.s), elements).value.element, d))))
  {
    match TapOf(command)
    case None => Ok((command, Untouched))
    case Some(tap) =>
      var comment := CommentOf(tap);
      match TargetOf(comment)
      case Err(e) => Err(e)
      case Ok(target) =>
        if target == "" then Ok((command, Untouched))
        else
          var isTodo := Get(tap, "point") == Some(Str(TodoPoint));
          match find(target, elements)
          case None => Ok((command, NotFound(target)))
          case Some(m) =>
            Ok((Dict(Put(command.entries, "tapOn", Dict(Tapped(tap, comment.s, m.element, d)))), Updated(isTodo)))
  }

  /** A noted comment holds `OCR:`, so noting it again changes nothing:
      the element's text is noted at most once. */
  lemma NotedOnce(comment: string, e: UIElement, e': UIElement)
    ensures Contains(NotedComment(comment, e), "OCR:")
    ensures NotedComment(NotedComment(comment, e), e') == NotedComment(comment, e)
  {
    var r := NotedComment(comment, e);
    if !Contains(comment, "OCR:") {
      assert OccursAt(r, "OCR:", |comment| + 2) by {
        assert r[|comment| + 2..|comment| + 6] == " (OCR: "[2..6];
      }
      ContainsSpec(r, "OCR:");
    }
  }

  /** The tap after a match on `e`: its point set to the percentages of
      the element's centre, and its comment noted. */
  function Tapped(tap: PyDict<Value>, comment: string, e: UIElement, d: Dimensions): PyDict<Value>
    requires Positive(d)
  {
    var withPoint := Put(tap, "point", PixelToPercentage(e.bbox, d));
    if Contains(comment, "OCR:") then withPoint
    else Put(withPoint, "_comment", Str(NotedComment(comment, e)))
  }

  /** In the new tap the point is the element's centre and the comment is
      noted; every other entry keeps its value, and no key moves. */
  lemma TappedSpec(tap: PyDict<Value>, comment: string, e: UIElement, d: Dimensions)
    requires Positive(d) && HasKey(tap, "point") && Get(tap, "_comment") == Some(Str(comment))
    ensures var t := Tapped(tap, comment, e, d);
      Get(t, "point") == Some(PixelToPercentage(e.bbox, d))
      && Get(t, "_comment") == Some(Str(NotedComment(comment, e)))
      && (forall k :: k != "point" && k != "_comment" ==> Get(t, k) == Get(tap, k))
      && |t| == |tap| && (forall i :: 0 <= i < |t| ==> t[i].0 == tap[i].0)
  {
    var p := PixelToPercentage(e.bbox, d);
    var withPoint := Put(tap, "point", p);
    forall k ensures Get(withPoint, k) == if k == "point" then Some(p) else Get(tap, k) {
      PutGet(tap, "point", p, k);
    }
    if !Contains(comment, "OCR:") {
      var c := Str(NotedComment(comment, e));
      forall k ensures Get(Put(withPoint, "_comment", c), k) == if k == "_comment" then Some(c) else Get(withPoint, k) {
        PutGet(withPoint, "_comment", c, k);
      }
    }
  }

  /** The updated command keeps every entry but `tapOn`, whose point and
      comment alone change, and no key moves. */
  lemma UpdatedCommandSpec(command: PyDict<Value>, tap: PyDict<Value>, comment: string, e: UIElement, d: Dimensions)
    requires Positive(d) && Get(command, "tapOn") == Some(Dict(tap))
    requires HasKey(tap, "point") && Get(tap, "_comment") == Some(Str(comment))
    ensures var v := Put(command, "tapOn", Dict(Tapped(tap, comment, e, d)));
      TapOf(Dict(v)) == Some(Tapped(tap, comment, e, d))
      && (forall k :: k != "tapOn" ==> Get(v, k) == Get(command, k))
      && |v| == |command| && (forall i :: 0 <= i < |v| ==> v[i].0 == command[i].0)
  {
    var t := Tapped(tap, comment, e, d);
    TappedSpec(tap, comment, e, d);
    assert HasKey(t, "point");
    forall k ensures Get(Put(command, "tapOn", Dict(t)), k) == if k == "tapOn" then Some(Dict(t)) else Get(command, k) {
      PutGet(command, "tapOn", Dict(t), k);
    }
  }

  /** The command loop of `update_yaml_coordinates` for one command, as the
      source writes it: the tap and its comment are read, the target is
      looked up, and on a match the point and then the comment are set. */
  method UpdateCommand(command: Value, elements: seq<UIElement>, matcher: Settings, fuzz: Fuzz, d: Dimensions)
    returns (r: Result<(Value, Outcome), string>)
    requires Positive(d)
    ensures r == RewriteCommand(command, MatcherFind(matcher, fuzz), elements, d)
  {
    var tap := TapOf(command);
    if tap.None? {
      return Ok((command, Untouched));
    }
    var tapCommand := tap.value;
    var comment := CommentOf(tapCommand);
    var target := TargetOf(comment);
    if target.Err? {
      return Err(target.error);
    }
    var targetText := target.value;
    if targetText == "" {
      return Ok((command, Untouched));
    }
    var isTodo := Get(tapCommand, "point") == Some(Str(TodoPoint));
    var matchResult := FindBestMatch(matcher, targetText, elements, fuzz);
    if matchResult.None? {
      return Ok((command, NotFound(targetText)));
    }
    var element := matchResult.value.element;
    tapCommand := Put(tapCommand, "point", PixelToPercentage(element.bbox, d));
    if !Contains(comment.s, "OCR:") {
      tapCommand := Put(tapCommand, "_comment", Str(NotedComment(comment.s, element)));
    }
    r := Ok((Dict(Put(command.entries, "tapOn", Dict(tapCommand))), Updated(isTodo)));
  }

  // ---------------------------------------------------------------------
  // All commands

  /** The first `k` commands rewritten in order, with what happened to
      each; the first failure ends the update. */
  function RewriteAll(items: seq<Value>, find: MatchFn, elements: seq<UIElement>, d: Dimensions, k: nat)
    : (r: Result<(seq<Value>, seq<Outcome>), string>)
    requires Positive(d) && k <= |items|
    ensures r.Ok? ==> |r.value.0| == k && |r.value.1| == k
  {
    if k == 0 then Ok(([], []))
    else
      match RewriteAll(items, find, elements, d, k - 1)
      case Err(e) => Err(e)
      case Ok((vs, os)) =>
        match RewriteCommand(items[k - 1], find, elements, d)
        case Err(e) => Err(e)
        case Ok((v, o)) => Ok((vs + [v], os + [o]))
  }

  /** Each command is rewritten on its own: the `j`-th new command and
      outcome are those of the `j`-th command. */
  lemma {:induction false} RewriteAllAt(items: seq<Value>, find: MatchFn, elements: seq<UIElement>, d: Dimensions,
                                        k: nat, j: nat)
    requires Positive(d) && j < k <= |items| && RewriteAll(items, find, elements, d, k).Ok?
    ensures var (vs, os) := RewriteAll(items, find, elements, d, k).value;
      RewriteCommand(items[j], find, elements, d) == Ok((vs[j], os[j]))
  {
    RewriteAllOkStep(items, find, elements, d, k);
    if j < k - 1 {
      RewriteAllAt(items, find, elements, d, k - 1, j);
    }
  }

  /** A success over the first `k` commands extends the success over the
      first `k - 1` by the `k`-th command's own. */
  lemma RewriteAllOkStep(items: seq<Value>, find: MatchFn, elements: seq<UIElement>, d: Dimensions, k: nat)
    requires Positive(d) && 0 < k <= |items| && RewriteAll(items, find, elements, d, k).Ok?
    ensures RewriteAll(items, find, elements, d, k - 1).Ok?
    ensures RewriteCommand(items[k - 1], find, elements, d).Ok?
    ensures RewriteAll(items, find, elements, d, k).value
      == (RewriteAll(items, find, elements, d, k - 1).value.0 + [RewriteCommand(items[k - 1], find, elements, d).value.0],
          RewriteAll(items, find, elements, d, k - 1).value.1 + [RewriteCommand(items[k - 1], find, elements, d).value.1])
  {
  }

  /** How many outcomes satisfy `p`. */
  function Count(os: seq<Outcome>, p: Outcome -> bool): (n: nat)
    ensures n <= |os|
  {
    if os == [] then 0
    else Count(os[..|os| - 1], p) + if p(os[|os| - 1]) then 1 else 0
  }

  /** The targets not found, in order. */
  function NotFoundTargets(os: seq<Outcome>): (r: seq<string>)
    ensures |r| <= |os|
  {
    if os == [] then []
    else NotFoundTargets(os[..|os| - 1]) + if os[|os| - 1].NotFound? then [os[|os| - 1].target] else []
  }

  function UpdatedCount(os: seq<Outcome>): nat { Count(os, (o: Outcome) => o.Updated?) }

  function TodoCount(os: seq<Outcome>): nat { Count(os, o => o == Updated(true)) }

  function ExistingCount(os: seq<Outcome>): nat { Count(os, o => o == Updated(false)) }

  /** Every update is either of a TODO item or of an existing one. */
  lemma {:induction false} CountsAdd(os: seq<Outcome>)
    ensures UpdatedCount(os) == TodoCount(os) + ExistingCount(os)
  {
    if os != [] {
      CountsAdd(os[..|os| - 1]);
    }
  }

  /** What `update_yaml_coordinates` reports. */
  datatype Report =
    | InvalidStructure
    | Failed(error: string)
    | Summary(updated: nat, todo: nat, existing: nat, notFound: seq<string>, written: Option<seq<Value>>)

  /** The size used: the screenshot's when one was measured, else the
      fallback. */
  function SizeOr(screenshotSize: Option<Dimensions>): (d: Dimensions)
    requires screenshotSize.Some? ==> Positive(screenshotSize.value)
    ensures Positive(d)
  {
    match screenshotSize
    case Some(d) => d
    case None => FallbackDimensions
  }

  /** The report for the loaded documents. The second document is the
      command list; any other node holds no dictionaries to update, except
      null and numbers, which cannot be iterated. The file is rewritten, as
      the first document and the updated commands, only when some command
      was updated. */
  function ExpectedReport(documents: seq<Value>, find: MatchFn, elements: seq<UIElement>, d: Dimensions)
    : (r: Report)
    requires Positive(d)
    ensures |documents| < 2 <==> r == InvalidStructure
    ensures r.Summary? ==> r.updated == r.todo + r.existing
    ensures r.Summary? ==> (r.written.Some? <==> r.updated > 0)
    ensures r.Summary? && r.written.Some? ==>
      |r.written.value| == 2 && r.written.value[0] == documents[0] && documents[1].List?
  {
    if |documents| < 2 then InvalidStructure
    else
      match documents[1]
      case Null => Failed("'NoneType' object is not iterable")
      case Int(_) => Failed("'int' object is not iterable")
      case List(items) =>
        (match RewriteAll(items, find, elements, d, |items|)
         case Err(e) => Failed(e)
         case Ok((vs, os)) =>
           CountsAdd(os);
           Summary(UpdatedCount(os), TodoCount(os), ExistingCount(os), NotFoundTargets(os),
                   if UpdatedCount(os) > 0 then Some([documents[0], List(vs)]) else None))
      case _ => Summary(0, 0, 0, [], None)
  }

  /** The report on a command list, command by command: the update fails
      exactly when rewriting the list fails, with that failure; otherwise
      each new command and outcome are those of the command in the same
      place, the counts and the targets not found are those of the
      outcomes, and the file written is the first document and the new
      commands. */
  lemma ReportOfCommands(documents: seq<Value>, find: MatchFn, elements: seq<UIElement>, d: Dimensions)
    requires Positive(d) && |documents| >= 2 && documents[1].List?
    ensures var items := documents[1].items;
      var r := ExpectedReport(documents, find, elements, d);
      && (r.Failed? <==> RewriteAll(items, find, elements, d, |items|).Err?)
      && (r.Failed? ==> r.error == RewriteAll(items, find, elements, d, |items|).error)
      && (r.Summary? ==>
            RewriteAll(items, find, elements, d, |items|).Ok?
            && var (vs, os) := RewriteAll(items, find, elements, d, |items|).value;
            && (forall i :: 0 <= i < |items| ==> RewriteCommand(items[i], find, elements, d) == Ok((vs[i], os[i])))
            && r.updated == UpdatedCount(os) && r.todo == TodoCount(os) && r.existing == ExistingCount(os)
            && r.notFound == NotFoundTargets(os)
            && (r.written.Some? ==> r.written.value == [documents[0], List(vs)]))
  {
    var items := documents[1].items;
    if RewriteAll(items, find, elements, d, |items|).Ok? {
      forall i | 0 <= i < |items| ensures
        RewriteCommand(items[i], find, elements, d)
        == Ok((RewriteAll(items, find, elements, d, |items|).value.0[i], RewriteAll(items, find, elements, d, |items|).value.1[i]))
      {
        RewriteAllAt(items, find, elements, d, |items|, i);
      }
    }
  }

  /** The loop over the command list: the new commands, the counts of
      updated, TODO and existing items, and the targets not found; or the
      first failure. */
  method RewriteCommands(items: seq<Value>, elements: seq<UIElement>, matcher: Settings, fuzz: Fuzz, d: Dimensions)
    returns (r: Result<(seq<Value>, nat, nat, nat, seq<string>), string>)
    requires Positive(d)
    ensures match RewriteAll(items, MatcherFind(matcher, fuzz), elements, d, |items|)
            case Err(e) => r == Err(e)
            case Ok((vs, os)) => r == Ok((vs, UpdatedCount(os), TodoCount(os), ExistingCount(os), NotFoundTargets(os)))
  {
    var updatedCount, todoCount, existingCount := 0, 0, 0;
    var notFoundItems: seq<string> := [];
    var newItems: seq<Value> := [];
    ghost var outcomes: seq<Outcome> := [];
    ghost var find := MatcherFind(matcher, fuzz);
    for i := 0 to |items|
      invariant RewriteAll(items, find, elements, d, i) == Ok((newItems, outcomes))
      invariant updatedCount == UpdatedCount(outcomes) && todoCount == TodoCount(outcomes)
      invariant existingCount == ExistingCount(outcomes) && notFoundItems == NotFoundTargets(outcomes)
    {
      var step := UpdateCommand(items[i], elements, matcher, fuzz, d);
      if step.Err? {
        RewriteAllFails(items, find, elements, d, i + 1, |items|, step.error);
        return Err(step.error);
      }
      var (command, outcome) := step.value;
      CountSnoc(outcomes, outcome, (o: Outcome) => o.Updated?);
      CountSnoc(outcomes, outcome, (o: Outcome) => o == Updated(true));
      CountSnoc(outcomes, outcome, (o: Outcome) => o == Updated(false));
      NotFoundSnoc(outcomes, outcome);
      match outcome {
        case Updated(isTodo) =>
          updatedCount := updatedCount + 1;
          if isTodo {
            todoCount := todoCount + 1;
          } else {
            existingCount := existingCount + 1;
          }
        case NotFound(target) =>
          notFoundItems := notFoundItems + [target];
        case Untouched =>
      }
      newItems := newItems + [command];
      outcomes := outcomes + [outcome];
    }
    r := Ok((newItems, updatedCount, todoCount, existingCount, notFoundItems));
  }

  /** Once a command fails, so does the whole update, with that failure. */
  lemma {:induction false} RewriteAllFails(items: seq<Value>, find: MatchFn, elements: seq<UIElement>, d: Dimensions,
                                           k: nat, k': nat, e: string)
    requires Positive(d) && k <= k' <= |items| && RewriteAll(items, find, elements, d, k) == Err(e)
    ensures RewriteAll(items, find, elements, d, k') == Err(e)
    decreases k' - k
  {
    if k < k' {
      RewriteAllFails(items, find, elements, d, k, k' - 1, e);
      RewriteAllErrStep(items, find, elements, d, k');
    }
  }

  /** A failure before the `k`-th command is the failure after it. */
  lemma RewriteAllErrStep(items: seq<Value>, find: MatchFn, elements: seq<UIElement>, d: Dimensions, k: nat)
    requires Positive(d) && 0 < k <= |items| && RewriteAll(items, find, elements, d, k - 1).Err?
    ensures RewriteAll(items, find, elements, d, k) == RewriteAll(items, find, elements, d, k - 1)
  {
  }

  /** Counting one more outcome. */
  lemma CountSnoc(os: seq<Outcome>, o: Outcome, p: Outcome -> bool)
    ensures Count(os + [o], p) == Count(os, p) + if p(o) then 1 else 0
  {
    assert (os + [o])[..|os|] == os;
  }

  /** Reporting one more outcome. */
  lemma NotFoundSnoc(os: seq<Outcome>, o: Outcome)
    ensures NotFoundTargets(os + [o]) == NotFoundTargets(os) + if o.NotFound? then [o.target] else []
  {
    assert (os + [o])[..|os|] == os;
  }

  /** `update_yaml_coordinates` on the loaded documents, with the size of
      the most recent screenshot when one was found. */
  method UpdateYamlCoordinates(documents: seq<Value>, elements: seq<UIElement>, matcher: Settings, fuzz: Fuzz,
                               screenshotSize: Option<Dimensions>)
    returns (report: Report)
    requires screenshotSize.Some? ==> Positive(screenshotSize.value)
    ensures report == ExpectedReport(documents, MatcherFind(matcher, fuzz), elements, SizeOr(screenshotSize))
  {
    if |documents| < 2 {
      return InvalidStructure;
    }
    var urlConfig := documents[0];
    var flowCommands := documents[1];
    var screenSize := SizeOr(screenshotSize);
    if flowCommands.Null? {
      return Failed("'NoneType' object is not iterable");
    } else if flowCommands.Int? {
      return Failed("'int' object is not iterable");
    } else if !flowCommands.List? {
      return Summary(0, 0, 0, [], None);
    }
    var r := RewriteCommands(flowCommands.items, elements, matcher, fuzz, screenSize);
    if r.Err? {
      return Failed(r.error);
    }
    var (newItems, updatedCount, todoCount, existingCount, notFoundItems) := r.value;
    var written := if updatedCount > 0 then Some([urlConfig, List(newItems)]) else None;
    report := Summary(updatedCount, todoCount, existingCount, notFoundItems, written);
  }

  // ---------------------------------------------------------------------
  // The orchestrator's element lookup

  /** The analyses recorded per action, after recording `elements` for
      `actionIndex`; the table is created by the first recording. */
  function Recorded(detected: Option<map<int, seq<UIElement>>>, actionIndex: int, elements: seq<UIElement>)
    : (r: map<int, seq<UIElement>>)
    ensures actionIndex in r && r[actionIndex] == elements
    ensures forall j :: j != actionIndex ==> (j in r <==> detected.Some? && j in detected.value)
    ensures forall j :: j != actionIndex && j in r ==> r[j] == detected.value[j]
  {
    (if detected.Some? then detected.value else map[])[actionIndex := elements]
  }

  /** The elements `_find_element_for_action` searches: the analysis
      recorded for the action when there is one, else the latest analysis,
      if any. Before anything was recorded the table does not exist and the
      lookup fails. */
  function ElementsFor(detected: Option<map<int, seq<UIElement>>>, current: Option<seq<UIElement>>, actionIndex: int)
    : (r: Result<Option<seq<UIElement>>, string>)
    ensures r.Err? <==> detected.None?
    ensures detected.Some? && actionIndex in detected.value ==> r == Ok(Some(detected.value[actionIndex]))
    ensures detected.Some? && actionIndex !in detected.value ==> r == Ok(current)
  {
    match detected
    case None => Err("'ScreenAIOrchestrator' object has no attribute 'detected_elements'")
    case Some(table) => if actionIndex in table then Ok(Some(table[actionIndex])) else Ok(current)
  }

  /** After a recording, every lookup succeeds: an action finds its own
      analysis when it has one, and any other action the analysis just
      recorded. */
  lemma LookupAfterRecording(detected: Option<map<int, seq<UIElement>>>, actionIndex: int, elements: seq<UIElement>,
                             j: int)
    ensures ElementsFor(Some(Recorded(detected, actionIndex, elements)), Some(elements), j)
      == Ok(Some(if j != actionIndex && detected.Some? && j in detected.value then detected.value[j] else elements))
  {
  }

  /** The part of `ScreenAIOrchestrator` that records analyses and finds
      the element for an action. */
  class Orchestrator {
    /** `detected_elements`, None until the first analysis creates it. */
    var detectedElements: Option<map<int, seq<UIElement>>>
    /** `current_elements`, None until the first analysis sets it. */
    var currentElements: Option<seq<UIElement>>
    /** The settings of `self.matcher` and its fuzzy scorers. */
    const matcher: Settings
    const fuzz: Fuzz

    constructor (fuzz: Fuzz)
      ensures detectedElements.None? && currentElements.None?
      ensures matcher == NewMatcher(DefaultFuzzyThreshold) && this.fuzz == fuzz
    {
      detectedElements := None;
      currentElements := None;
      matcher := NewMatcher(DefaultFuzzyThreshold);
      this.fuzz := fuzz;
    }

    /** What each analysis does with its elements: keep them for the action
      and make them the current ones. */
    method RecordElements(actionIndex: int, elements: seq<UIElement>)
      modifies this
      ensures detectedElements == Some(Recorded(old(detectedElements), actionIndex, elements))
      ensures currentElements == Some(elements)
    {
      if detectedElements.None? {
        detectedElements := Some(map[]);
      }
      detectedElements := Some(detectedElements.value[actionIndex := elements]);
      currentElements := Some(elements);
    }

    /** `_find_element_for_action`: the best match among the elements
      chosen for the action; None when there are none or nothing matches. */
    method FindElementForAction(targetDescription: string, actionIndex: int)
      returns (r: Result<Option<UIElement>, string>)
      ensures var chosen := ElementsFor(detectedElements, currentElements, actionIndex);
        match chosen
        case Err(e) => r == Err(e)
        case Ok(None) => r == Ok(None)
        case Ok(Some(es)) =>
          r == Ok(if es == [] then None
                  else match MatcherFind(matcher, fuzz)(targetDescription, es)
                       case None => None
                       case Some(m) => Some(m.element))
    {
      var elements: Option<seq<UIElement>> := None;
      if detectedElements.None? {
        return Err("'ScreenAIOrchestrator' object has no attribute 'detected_elements'");
      }
      if actionIndex in detectedElements.value {
        elements := Some(detectedElements.value[actionIndex]);
      } else if currentElements.Some? {
        elements := currentElements;
      }
      if elements.None? || elements.value == [] {
        return Ok(None);
      }
      var matchResult := FindBestMatch(matcher, targetDescription, elements.value, fuzz);
      if matchResult.Some? {
        return Ok(Some(matchResult.value.element));
      }
      return Ok(None);
    }
  }
}
