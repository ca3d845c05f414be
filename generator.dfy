/** Building the Maestro flow from the parsed actions: a configuration
    document (the web address or the app id), the document separator, and
    one or two commands per action, with tap points given as percentages of
    the screenshot the action was located on. Clock readings enter as a
    parameter; writing the file is not modelled, only the flattening and the
    comment handling done before it. */
module Generator {
  import opened Wrappers
  import opened Text
  import opened Select
  import opened Vision
  import opened Parser
  import opened Yaml

  /** A screenshot's (width, height) in pixels. */
  type Dimensions = (int, int)

  /** The dimensions assumed until a screenshot has been measured. */
  const DefaultDimensions: Dimensions := (1920, 1080)

  predicate Positive(d: Dimensions) {
    d.0 > 0 && d.1 > 0
  }

  /** `_pixel_to_percentage`: the centre of the box as percentages of the
      width and the height; scaled back, they give the centre again. */
  function PixelToPercentage(b: BBox, d: Dimensions): (r: Value)
    requires Positive(d)
    ensures r.Point?
    ensures r.x * d.0 as real == 50.0 * (b.x1 + b.x2)
    ensures r.y * d.1 as real == 50.0 * (b.y1 + b.y2)
  {
    var centerX := (b.x1 + b.x2) / 2.0;
    var centerY := (b.y1 + b.y2) / 2.0;
    Point(centerX / d.0 as real * 100.0, centerY / d.1 as real * 100.0)
  }

  /** A box that lies inside the screenshot has its centre between 0% and
      100% on both axes. */
  lemma PercentInside(b: BBox, d: Dimensions)
    requires Positive(d)
    requires 0.0 <= b.x1 <= b.x2 <= d.0 as real && 0.0 <= b.y1 <= b.y2 <= d.1 as real
    ensures var p := PixelToPercentage(b, d);
      0.0 <= p.x <= 100.0 && 0.0 <= p.y <= 100.0
  {
    PercentOfBound((b.x1 + b.x2) / 2.0, d.0 as real);
    PercentOfBound((b.y1 + b.y2) / 2.0, d.1 as real);
  }

  /** A coordinate between 0 and the extent is between 0% and 100% of it. */
  lemma PercentOfBound(c: real, extent: real)
    requires 0.0 <= c <= extent && extent > 0.0
    ensures 0.0 <= c / extent * 100.0 <= 100.0
  {
    assert c / extent <= 1.0 by {
      assert c / extent * extent == c;
    }
  }

  // ---------------------------------------------------------------------
  // One action

  /** The target with its double quotes removed and the ends stripped. */
  function TargetClean(target: string): string {
    Strip(RemoveChar(target, '"'))
  }

  /** The cleaned target holds no double quote, so the placeholder comment
      quotes it unambiguously. */
  lemma TargetCleanUnquoted(target: string)
    ensures '"' !in TargetClean(target)
  {
    StripKeepsOut(RemoveChar(target, '"'), '"');
  }

  /** Stripping only removes characters, so none it did not have appears. */
  lemma StripKeepsOut(s: string, c: char)
    requires forall i :: 0 <= i < |s| ==> s[i] != c
    ensures c !in Strip(s)
  {
    var l := LStrip(s);
    assert forall i :: 0 <= i < |l| ==> l[i] == s[|s| - |l| + i];
    var r := RStrip(l);
    assert forall i :: 0 <= i < |r| ==> r[i] == l[i];
  }

  /** The OCR note added to a tap comment, only when the OCR text is not blank. */
  function OcrInfo(e: UIElement): string {
    if IsBlank(e.ocrText) then "" else " (OCR: " + e.ocrText + ")"
  }

  const TodoPoint: string := "TODO%,TODO%"

  const PlaceholderPrefix: string := "PROSIM NAJDI SURADNICE PRE"

  /** `{"tapOn": {"point": point, "_comment": comment}}` */
  function TapOn(point: Value, comment: string): Value {
    Dict([("tapOn", Dict([("point", point), ("_comment", Str(comment))]))])
  }

  /** The tap on a located element: its centre as percentages, commented
      with the cleaned target and the OCR note. */
  function ElementTap(target: string, e: UIElement, d: Dimensions): Value
    requires Positive(d)
  {
    TapOn(PixelToPercentage(e.bbox, d), TargetClean(target) + OcrInfo(e))
  }

  /** The tap left for a person to fill in: no point, and a comment asking
      for the coordinates of the quoted target. */
  function Placeholder(target: string): Value {
    TapOn(Str(TodoPoint), PlaceholderPrefix + " \"" + TargetClean(target) + "\"")
  }

  /** The tap on the located element, or the placeholder when none was
      located. */
  function TapCommand(target: string, element: Option<UIElement>, d: Dimensions): Value
    requires Positive(d)
  {
    if element.Some? then ElementTap(target, element.value, d) else Placeholder(target)
  }

  /** `f"{n:02d}"` for a non-negative `n`: the digits of `n`, padded with a
      zero to two places, so exactly two of them below 100. */
  function Pad2(n: nat): (r: string)
    ensures IsDigits(r) && DigitsValue(r) == n
    ensures |r| >= 2
    ensures |r| == 2 <==> n < 100
  {
    DigitsValueOf(n);
    if n < 10 then
      LeadingZero(NatToString(n));
      "0" + NatToString(n)
    else
      NatToStringLength(n);
      NatToString(n)
  }

  /** One digit below 10, two below 100, more from 100 on. */
  lemma NatToStringLength(n: nat)
    ensures n < 10 ==> |NatToString(n)| == 1
    ensures 10 <= n < 100 ==> |NatToString(n)| == 2
    ensures n >= 100 ==> |NatToString(n)| >= 3
  {
    if n >= 100 {
      assert |NatToString(n)| == |NatToString(n / 10)| + 1;
      assert |NatToString(n / 10)| == |NatToString(n / 100)| + 1;
    }
  }

  /** The screenshot file name, without the ".png" Maestro adds. */
  function ScreenshotName(testName: string, index: nat, timestamp: string): string {
    "screenshots/" + testName + "/" + testName + "_step_" + Pad2(index + 1) + "_" + timestamp
  }

  /** The command that runs the analysis script on the screenshot at `path`. */
  function RunAnalysis(path: string, testName: string, index: nat): Value {
    Dict([("runScript", Dict([
      ("file", Str("analyze_screenshot.js")),
      ("env", Dict([("SCREENSHOT_PATH", Str(path)), ("TEST_NAME", Str(testName)),
                    ("ACTION_INDEX", Str(IntToString(index)))]))]))])
  }

  /** `_convert_action_to_command`: the command for one action, a list of
      two commands for the Maestro screenshot, or None when the action adds
      nothing to the flow. `timestamp` is the clock reading taken when the
      action is converted. */
  function ConvertActionToCommand(action: TestAction, element: Option<UIElement>, d: Dimensions, isWebFlow: bool,
                                  testName: string, index: nat, next: Option<TestAction>, timestamp: string)
    : (r: Option<Value>)
    requires Positive(d)
    ensures r.None? <==> (action.actionType == Open && !isWebFlow) || action.actionType == Analyze
    ensures action.actionType == Open && isWebFlow ==> r == Some(Str("launchApp"))
    ensures action.actionType == Wait ==>
      r == Some(Dict([("waitForAnimationToEnd", Dict([("timeout", Int(Trunc(action.waitTime * 1000.0)))]))]))
    ensures action.actionType == Enter ==> r == Some(Dict([("inputText", Str(action.value))]))
    ensures action.actionType == Screenshot ==>
      r == Some(Dict([("takeScreenshot", Str(ScreenshotName(testName, index, timestamp)))]))
    ensures action.actionType in {Tap, Click} && element.Some? ==>
      r == Some(TapOn(PixelToPercentage(element.value.bbox, d), TargetClean(action.target) + OcrInfo(element.value)))
    ensures action.actionType in {Tap, Click} && element.None? ==> r == Some(Placeholder(action.target))
  {
    match action.actionType
    case Open => if isWebFlow then Some(Str("launchApp")) else None
    case Wait => Some(Dict([("waitForAnimationToEnd", Dict([("timeout", Int(Trunc(action.waitTime * 1000.0)))]))]))
    case Screenshot => Some(Dict([("takeScreenshot", Str(ScreenshotName(testName, index, timestamp)))]))
    case MaestroScreenshot =>
      var name := ScreenshotName(testName, index, timestamp);
      Some(List([Dict([("takeScreenshot", Str(name))]), RunAnalysis(name + ".png", testName, index)]))
    case Analyze => None
    case Tap => Some(TapCommand(action.target, element, d))
    case Click => Some(TapCommand(action.target, element, d))
    case Enter => Some(Dict([("inputText", Str(action.value))]))
    case Find =>
      if next.Some? && next.value.actionType == Enter then Some(TapCommand(action.target, element, d))
      else Some(Placeholder(action.target))
  }

  /** A find followed by an enter is converted exactly as a tap on the same
      target would be; any other find gives the placeholder, whether or not
      an element was located. */
  lemma FindConversion(action: TestAction, element: Option<UIElement>, d: Dimensions, isWebFlow: bool,
                       testName: string, index: nat, next: Option<TestAction>, timestamp: string)
    requires Positive(d) && action.actionType == Find
    ensures next.Some? && next.value.actionType == Enter ==>
      ConvertActionToCommand(action, element, d, isWebFlow, testName, index, next, timestamp)
      == ConvertActionToCommand(action.(actionType := Tap), element, d, isWebFlow, testName, index, next, timestamp)
    ensures !(next.Some? && next.value.actionType == Enter) ==>
      ConvertActionToCommand(action, element, d, isWebFlow, testName, index, next, timestamp) == Some(Placeholder(action.target))
  {
    var c := ConvertActionToCommand(action, element, d, isWebFlow, testName, index, next, timestamp);
    if next.Some? && next.value.actionType == Enter {
      assert c == Some(TapCommand(action.target, element, d));
      var tap := action.(actionType := Tap);
      assert ConvertActionToCommand(tap, element, d, isWebFlow, testName, index, next, timestamp)
        == Some(TapCommand(action.target, element, d));
    } else {
      assert c == Some(Placeholder(action.target));
    }
  }

  /** Click is converted as tap is; without a located element both give
      the placeholder. */
  lemma TapConversion(action: TestAction, element: Option<UIElement>, d: Dimensions, isWebFlow: bool,
                      testName: string, index: nat, next: Option<TestAction>, timestamp: string)
    requires Positive(d) && action.actionType == Click
    ensures ConvertActionToCommand(action, element, d, isWebFlow, testName, index, next, timestamp)
      == ConvertActionToCommand(action.(actionType := Tap), element, d, isWebFlow, testName, index, next, timestamp)
    ensures element.None? ==>
      ConvertActionToCommand(action, element, d, isWebFlow, testName, index, next, timestamp) == Some(Placeholder(action.target))
  {
    var tap := action.(actionType := Tap);
    assert ConvertActionToCommand(action, element, d, isWebFlow, testName, index, next, timestamp)
      == Some(TapCommand(action.target, element, d));
    assert ConvertActionToCommand(tap, element, d, isWebFlow, testName, index, next, timestamp)
      == Some(TapCommand(action.target, element, d));
  }

  /** The Maestro screenshot is the plain screenshot command of the same
      step followed by the script that analyses the file it writes. */
  lemma MaestroConversion(action: TestAction, element: Option<UIElement>, d: Dimensions, isWebFlow: bool,
                          testName: string, index: nat, next: Option<TestAction>, timestamp: string)
    requires Positive(d) && action.actionType == MaestroScreenshot
    ensures var shot := ConvertActionToCommand(action.(actionType := Screenshot), element, d, isWebFlow, testName,
                                               index, next, timestamp);
      && shot.Some? && shot.value.Dict? && |shot.value.entries| == 1
      && shot.value.entries[0].0 == "takeScreenshot" && shot.value.entries[0].1.Str?
      && ConvertActionToCommand(action, element, d, isWebFlow, testName, index, next, timestamp)
         == Some(List([shot.value, RunAnalysis(shot.value.entries[0].1.s + ".png", testName, index)]))
  {
  }

  // ---------------------------------------------------------------------
  // The flow

  predicate IsUrl(s: string) {
    StartsWith(s, "http://") || StartsWith(s, "https://")
  }

  /** Some open action targets a web address. */
  predicate IsWebFlow(actions: seq<TestAction>) {
    exists i :: 0 <= i < |actions| && actions[i].actionType == Open && IsUrl(actions[i].target)
  }

  predicate IsOpen(a: TestAction) {
    a.actionType == Open
  }

  /** The configuration document: the target of the first open action in a
      web flow (a fixed address when that target is empty), else the given
      app id, else a default one. */
  function Config(actions: seq<TestAction>, appId: Option<string>): (r: Value)
    ensures r.Dict? && |r.entries| == 1 && r.entries[0].1.Str?
    ensures r.entries[0].0 == "url" <==> IsWebFlow(actions)
    ensures !IsWebFlow(actions) ==> r.entries[0].1.s == if appId.Some? && appId.value != "" then appId.value else "com.example.app"
  {
    if IsWebFlow(actions) then
      match FirstIndex(actions, IsOpen)
      case Some(k) =>
        if actions[k].target != "" then Dict([("url", Str(actions[k].target))])
        else Dict([("url", Str("https://example.com"))])
      case None => Dict([("url", Str("https://example.com"))])
    else if appId.Some? && appId.value != "" then Dict([("appId", Str(appId.value))])
    else Dict([("appId", Str("com.example.app"))])
  }

  /** The web address is that of the first open action, even when a later
      open action is the one that makes the flow a web flow. */
  lemma ConfigOfWebFlow(actions: seq<TestAction>, appId: Option<string>, k: nat)
    requires IsWebFlow(actions)
    requires k < |actions| && actions[k].actionType == Open && actions[k].target != ""
    requires forall j :: 0 <= j < k ==> actions[j].actionType != Open
    ensures Config(actions, appId) == Dict([("url", Str(actions[k].target))])
  {
    var f := FirstIndex(actions, IsOpen);
    assert f.Some?;
    assert f.value == k by {
      assert IsOpen(actions[k]);
    }
  }

  /** The dimensions in force for action `i`: those of the last screenshot
      measured at an index up to `i`, else the default. */
  function DimensionsAt(imageDimensions: map<int, Dimensions>, i: int): Dimensions
    decreases if i < 0 then 0 else i + 1
  {
    if i < 0 then DefaultDimensions
    else if i in imageDimensions then imageDimensions[i]
    else DimensionsAt(imageDimensions, i - 1)
  }

  /** Before any screenshot was measured, the default dimensions hold. */
  lemma {:induction false} DimensionsAtDefault(imageDimensions: map<int, Dimensions>, i: int)
    requires forall j :: 0 <= j <= i ==> j !in imageDimensions
    ensures DimensionsAt(imageDimensions, i) == DefaultDimensions
    decreases if i < 0 then 0 else i + 1
  {
    if i >= 0 {
      DimensionsAtDefault(imageDimensions, i - 1);
    }
  }

  /** Otherwise those of the last screenshot measured up to `i` hold. */
  lemma {:induction false} DimensionsAtLatest(imageDimensions: map<int, Dimensions>, i: int, j: int)
    requires 0 <= j <= i && j in imageDimensions
    requires forall m :: j < m <= i ==> m !in imageDimensions
    ensures DimensionsAt(imageDimensions, i) == imageDimensions[j]
    decreases i - j
  {
    if i > j {
      DimensionsAtLatest(imageDimensions, i - 1, j);
    }
  }

  /** Every measured screenshot has positive dimensions. */
  predicate AllPositive(imageDimensions: map<int, Dimensions>) {
    forall i :: i in imageDimensions ==> Positive(imageDimensions[i])
  }

  lemma {:induction false} DimensionsAtPositive(imageDimensions: map<int, Dimensions>, i: int)
    requires AllPositive(imageDimensions)
    ensures Positive(DimensionsAt(imageDimensions, i))
    decreases if i < 0 then 0 else i + 1
  {
    if i >= 0 && i !in imageDimensions {
      DimensionsAtPositive(imageDimensions, i - 1);
    }
  }

  /** What a converted action adds to the flow: `flow_commands.extend(c)`
      for a list of commands, `flow_commands.append(c)` for one command, and
      nothing for None. */
  function Emit(c: Option<Value>): seq<Value> {
    match c
    case None => []
    case Some(List(items)) => items
    case Some(v) => [v]
  }

  /** The command of action `i` of the flow. */
  function CommandOf(actions: seq<TestAction>, elementMappings: map<int, UIElement>,
                     imageDimensions: map<int, Dimensions>, isWebFlow: bool, testName: string,
                     clock: nat -> string, i: nat): Option<Value>
    requires AllPositive(imageDimensions) && i < |actions|
  {
    DimensionsAtPositive(imageDimensions, i);
    ConvertActionToCommand(actions[i], if i in elementMappings then Some(elementMappings[i]) else None,
                           DimensionsAt(imageDimensions, i), isWebFlow, testName, i,
                           if i + 1 < |actions| then Some(actions[i + 1]) else None, clock(i))
  }

  /** The commands of the first `k` actions, in order. */
  function Commands(actions: seq<TestAction>, elementMappings: map<int, UIElement>,
                    imageDimensions: map<int, Dimensions>, isWebFlow: bool, testName: string,
                    clock: nat -> string, k: nat): seq<Value>
    requires AllPositive(imageDimensions) && k <= |actions|
  {
    if k == 0 then []
    else Commands(actions, elementMappings, imageDimensions, isWebFlow, testName, clock, k - 1)
         + Emit(CommandOf(actions, elementMappings, imageDimensions, isWebFlow, testName, clock, k - 1))
  }

  /** `generate_flow` up to writing the file: the configuration, the
      separator, then the commands of the actions in order. `clock(i)` is
      the timestamp read while converting action `i`. */
  method GenerateFlow(testName: string, actions: seq<TestAction>, elementMappings: map<int, UIElement>,
                      imageDimensions: map<int, Dimensions>, appId: Option<string>, clock: nat -> string)
    returns (flowCommands: seq<Value>)
    requires AllPositive(imageDimensions)
    ensures flowCommands == [Config(actions, appId), Str("---")]
      + Commands(actions, elementMappings, imageDimensions, IsWebFlow(actions), testName, clock, |actions|)
  {
    var isWebFlow := exists i :: 0 <= i < |actions| && actions[i].actionType == Open && IsUrl(actions[i].target);
    var header := [Config(actions, appId), Str("---")];
    flowCommands := header;
    var currentDimensions := DefaultDimensions;
    for i := 0 to |actions|
      invariant currentDimensions == DimensionsAt(imageDimensions, i - 1)
      invariant flowCommands == header + Commands(actions, elementMappings, imageDimensions, isWebFlow, testName, clock, i)
    {
      if i in imageDimensions {
        currentDimensions := imageDimensions[i];
      }
      DimensionsAtPositive(imageDimensions, i);
      var nextAction := if i + 1 < |actions| then Some(actions[i + 1]) else None;
      var element := if i in elementMappings then Some(elementMappings[i]) else None;
      var command := ConvertActionToCommand(actions[i], element, currentDimensions, isWebFlow, testName, i,
                                            nextAction, clock(i));
      var emitted := Emit(command);
      assert currentDimensions == DimensionsAt(imageDimensions, i);
      assert command == CommandOf(actions, elementMappings, imageDimensions, isWebFlow, testName, clock, i);
      AppendAssoc(header, Commands(actions, elementMappings, imageDimensions, isWebFlow, testName, clock, i), emitted);
      flowCommands := flowCommands + emitted;
    }
  }

  /** Every command of a generated flow is a string or a dictionary: the
      lists of the Maestro screenshot are spliced in. */
  lemma {:induction false} CommandsHaveNoLists(actions: seq<TestAction>, elementMappings: map<int, UIElement>,
                                               imageDimensions: map<int, Dimensions>, isWebFlow: bool,
                                               testName: string, clock: nat -> string, k: nat)
    requires AllPositive(imageDimensions) && k <= |actions|
    ensures forall c :: c in Commands(actions, elementMappings, imageDimensions, isWebFlow, testName, clock, k) ==>
      c.Str? || c.Dict?
  {
    if k > 0 {
      CommandsHaveNoLists(actions, elementMappings, imageDimensions, isWebFlow, testName, clock, k - 1);
      EmittedNoLists(actions, elementMappings, imageDimensions, isWebFlow, testName, clock, k - 1);
    }
  }

  /** What one action adds to the flow holds strings and dictionaries only. */
  lemma EmittedNoLists(actions: seq<TestAction>, elementMappings: map<int, UIElement>,
                       imageDimensions: map<int, Dimensions>, isWebFlow: bool,
                       testName: string, clock: nat -> string, i: nat)
    requires AllPositive(imageDimensions) && i < |actions|
    ensures forall c :: c in Emit(CommandOf(actions, elementMappings, imageDimensions, isWebFlow, testName, clock, i)) ==>
      c.Str? || c.Dict?
  {
    DimensionsAtPositive(imageDimensions, i);
    ConvertedNoLists(actions[i], if i in elementMappings then Some(elementMappings[i]) else None,
                     DimensionsAt(imageDimensions, i), isWebFlow, testName, i,
                     if i + 1 < |actions| then Some(actions[i + 1]) else None, clock(i));
  }

  /** A converted action is a string or a dictionary, or a list of
      dictionaries. */
  lemma ConvertedNoLists(action: TestAction, element: Option<UIElement>, d: Dimensions, isWebFlow: bool,
                         testName: string, index: nat, next: Option<TestAction>, timestamp: string)
    requires Positive(d)
    ensures forall c :: c in Emit(ConvertActionToCommand(action, element, d, isWebFlow, testName, index, next, timestamp)) ==>
      c.Str? || c.Dict?
  {
  }

  /** The flattening done before writing leaves a generated flow as it is. */
  lemma GeneratedFlowIsFlat(actions: seq<TestAction>, elementMappings: map<int, UIElement>,
                            imageDimensions: map<int, Dimensions>, appId: Option<string>, testName: string,
                            clock: nat -> string)
    requires AllPositive(imageDimensions)
    ensures var flow := [Config(actions, appId), Str("---")]
      + Commands(actions, elementMappings, imageDimensions, IsWebFlow(actions), testName, clock, |actions|);
      Flattened(flow) == flow
  {
    CommandsHaveNoLists(actions, elementMappings, imageDimensions, IsWebFlow(actions), testName, clock, |actions|);
    FlattenedNoLists([Config(actions, appId), Str("---")]
      + Commands(actions, elementMappings, imageDimensions, IsWebFlow(actions), testName, clock, |actions|));
  }

  // ---------------------------------------------------------------------
  // Before writing

  /** The commands with every list spliced in place, one level deep. */
  function Flattened(commands: seq<Value>): (r: seq<Value>)
  {
    if commands == [] then []
    else (if commands[0].List? then commands[0].items else [commands[0]]) + Flattened(commands[1..])
  }

  /** Flattening works command by command, so it keeps their order. */
  lemma {:induction false} FlattenedAppend(a: seq<Value>, b: seq<Value>)
    ensures Flattened(a + b) == Flattened(a) + Flattened(b)
  {
    if a == [] {
      assert a + b == b;
    } else {
      assert (a + b)[0] == a[0];
      assert (a + b)[1..] == a[1..] + b;
      FlattenedAppend(a[1..], b);
    }
  }

  /** A list of commands without lists is left as it is. */
  lemma {:induction false} FlattenedNoLists(commands: seq<Value>)
    requires forall c :: c in commands ==> !c.List?
    ensures Flattened(commands) == commands
  {
    if commands != [] {
      FlattenedNoLists(commands[1..]);
    }
  }

  /** Flattening from position `i` on: the command at `i`, spliced in if it
      is a list, then the flattening of the rest. */
  lemma FlattenedAt(commands: seq<Value>, i: nat)
    requires i < |commands|
    ensures Flattened(commands[i..])
      == (if commands[i].List? then commands[i].items else [commands[i]]) + Flattened(commands[i + 1..])
  {
    assert commands[i..][0] == commands[i];
    assert commands[i..][1..] == commands[i + 1..];
  }

  /** The flattening in `_write_flow_file`. */
  method Flatten(commands: seq<Value>) returns (flattened: seq<Value>)
    ensures flattened == Flattened(commands)
  {
    flattened := [];
    for i := 0 to |commands|
      invariant flattened + Flattened(commands[i..]) == Flattened(commands)
    {
      FlattenedAt(commands, i);
      AppendAssoc(flattened, if commands[i].List? then commands[i].items else [commands[i]], Flattened(commands[i + 1..]));
      if commands[i].List? {
        flattened := flattened + commands[i].items;
      } else {
        flattened := flattened + [commands[i]];
      }
    }
  }

  predicate HasComment(value: Value) {
    value.Dict? && HasKey(value.entries, "_comment")
  }

  /** The value stored for a key once the comment handling has seen it. */
  function ProcessedValue(value: Value): Value {
    if HasComment(value) then Dict(Without(value.entries, "_comment")) else value
  }

  /** One entry of the command handled: a top-level comment is dropped, a
      nested dictionary with a comment is stored without it and its comment
      under "_extracted_comment", and any other value is stored as it is. */
  function ProcessEntry(processed: PyDict<Value>, key: string, value: Value): PyDict<Value> {
    if key == "_comment" then processed
    else if HasComment(value) then
      Put(Put(processed, key, ProcessedValue(value)), "_extracted_comment", Get(value.entries, "_comment").value)
    else Put(processed, key, value)
  }

  /** A way of handling one entry of a command. */
  type EntryFn = (PyDict<Value>, string, Value) -> PyDict<Value>

  /** The dictionary built by handling the first `k` entries of `entries`
      one after the other with `step`, starting from an empty one. */
  function FoldEntries(step: EntryFn, entries: PyDict<Value>, k: nat): PyDict<Value>
    requires k <= |entries|
  {
    if k == 0 then [] else step(FoldEntries(step, entries, k - 1), entries[k - 1].0, entries[k - 1].1)
  }

  /** The processed dictionary after the first `k` entries of `entries`. */
  function ProcessEntries(entries: PyDict<Value>, k: nat): PyDict<Value>
    requires k <= |entries|
  {
    FoldEntries(ProcessEntry, entries, k)
  }

  /** `_process_command_comments`: a dictionary loses its top-level comment,
      each nested dictionary loses its comment, which is kept under
      "_extracted_comment"; anything else is returned as it is. */
  method ProcessCommandComments(command: Value) returns (r: Value)
    ensures r == if command.Dict? then Dict(ProcessEntries(command.entries, |command.entries|)) else command
  {
    if !command.Dict? {
      return command;
    }
    var entries := command.entries;
    var processed: PyDict<Value> := [];
    for i := 0 to |entries|
      invariant processed == ProcessEntries(entries, i)
    {
      var (key, value) := entries[i];
      if key != "_comment" {
        if value.Dict? && HasKey(value.entries, "_comment") {
          var nested := Without(value.entries, "_comment");
          processed := Put(processed, key, Dict(nested));
          processed := Put(processed, "_extracted_comment", Get(value.entries, "_comment").value);
        } else {
          processed := Put(processed, key, value);
        }
      }
    }
    return Dict(processed);
  }

  /** What "_extracted_comment" holds after the first `k` entries: the
      comment of the last nested dictionary that had one, unless a later
      entry of the command is itself under "_extracted_comment". */
  function ExtractedComment(entries: PyDict<Value>, k: nat): Option<Value>
    requires k <= |entries|
  {
    if k == 0 then None
    else
      var (key, value) := entries[k - 1];
      if key == "_comment" then ExtractedComment(entries, k - 1)
      else if HasComment(value) then Get(value.entries, "_comment")
      else if key == "_extracted_comment" then Some(value)
      else ExtractedComment(entries, k - 1)
  }

  /** The value the last entry under `key` among the first `k` leaves once
      its comment is handled. */
  function ProcessedLookup(entries: PyDict<Value>, k: nat, key: string): Option<Value>
    requires k <= |entries|
  {
    if k == 0 then None
    else if entries[k - 1].0 == key then Some(ProcessedValue(entries[k - 1].1))
    else ProcessedLookup(entries, k - 1, key)
  }

  /** No "_comment" key survives the comment handling. */
  lemma ProcessedHasNoComment(entries: PyDict<Value>, k: nat)
    requires k <= |entries|
    ensures !HasKey(ProcessEntries(entries, k), "_comment")
  {
    forall d, key, value | !HasKey(d, "_comment") ensures !HasKey(ProcessEntry(d, key, value), "_comment") {
      EntryAddsNoComment(d, key, value);
    }
    FoldAddsNoComment(ProcessEntry, entries, k);
  }

  /** A fold whose every step keeps "_comment" out never has that key. */
  lemma {:induction false} FoldAddsNoComment(step: EntryFn, entries: PyDict<Value>, k: nat)
    requires k <= |entries|
    requires forall d, key, value :: !HasKey(d, "_comment") ==> !HasKey(step(d, key, value), "_comment")
    ensures !HasKey(FoldEntries(step, entries, k), "_comment")
  {
    if k > 0 {
      FoldAddsNoComment(step, entries, k - 1);
    }
  }

  lemma EntryAddsNoComment(processed: PyDict<Value>, key: string, value: Value)
    requires !HasKey(processed, "_comment")
    ensures !HasKey(ProcessEntry(processed, key, value), "_comment")
  {
    if key != "_comment" {
      if HasComment(value) {
        PutGet(processed, key, ProcessedValue(value), "_comment");
        PutGet(Put(processed, key, ProcessedValue(value)), "_extracted_comment",
               Get(value.entries, "_comment").value, "_comment");
      } else {
        PutGet(processed, key, value, "_comment");
      }
    }
  }

  /** "_extracted_comment" holds the comment of the last nested dictionary
      that had one, and is absent when none had and the command has no such
      key of its own. */
  lemma ProcessedExtractedComment(entries: PyDict<Value>, k: nat)
    requires k <= |entries|
    ensures Get(ProcessEntries(entries, k), "_extracted_comment") == ExtractedComment(entries, k)
  {
    forall d, key, value ensures Get(ProcessEntry(d, key, value), "_extracted_comment") == ExtractedAfter(d, key, value) {
      EntryExtractsComment(d, key, value);
    }
    FoldExtractsComment(ProcessEntry, entries, k);
  }

  /** What "_extracted_comment" holds once the entry `key: value` is handled
      after `processed`. */
  function ExtractedAfter(processed: PyDict<Value>, key: string, value: Value): Option<Value> {
    if key == "_comment" then Get(processed, "_extracted_comment")
    else if HasComment(value) then Get(value.entries, "_comment")
    else if key == "_extracted_comment" then Some(value)
    else Get(processed, "_extracted_comment")
  }

  /** A fold whose every step sets "_extracted_comment" as `ExtractedAfter`
      says ends with `ExtractedComment` there. */
  lemma {:induction false} FoldExtractsComment(step: EntryFn, entries: PyDict<Value>, k: nat)
    requires k <= |entries|
    requires forall d, key, value :: Get(step(d, key, value), "_extracted_comment") == ExtractedAfter(d, key, value)
    ensures Get(FoldEntries(step, entries, k), "_extracted_comment") == ExtractedComment(entries, k)
  {
    if k > 0 {
      FoldExtractsComment(step, entries, k - 1);
    }
  }

  lemma EntryExtractsComment(processed: PyDict<Value>, key: string, value: Value)
    ensures Get(ProcessEntry(processed, key, value), "_extracted_comment") == ExtractedAfter(processed, key, value)
  {
    if key != "_comment" {
      if HasComment(value) {
        PutGet(Put(processed, key, ProcessedValue(value)), "_extracted_comment",
               Get(value.entries, "_comment").value, "_extracted_comment");
      } else {
        PutGet(processed, key, value, "_extracted_comment");
      }
    }
  }

  /** Every other key keeps the value of its entry, a nested dictionary with
      a comment losing that comment, and no other key is added. */
  lemma ProcessedKeepsKeys(entries: PyDict<Value>, k: nat, key: string)
    requires k <= |entries|
    requires key != "_comment" && key != "_extracted_comment"
    ensures Get(ProcessEntries(entries, k), key) == ProcessedLookup(entries, k, key)
  {
    forall d, k', value
      ensures Get(ProcessEntry(d, k', value), key) == (if k' == key then Some(ProcessedValue(value)) else Get(d, key))
    {
      EntryKeepsKey(d, k', value, key);
    }
    FoldKeepsKeys(ProcessEntry, entries, k, key);
  }

  /** A fold whose every step stores the processed value under its own key
      and leaves `key` alone otherwise ends with `ProcessedLookup` under
      `key`. */
  lemma {:induction false} FoldKeepsKeys(step: EntryFn, entries: PyDict<Value>, k: nat, key: string)
    requires k <= |entries|
    requires forall d, k', value ::
      Get(step(d, k', value), key) == (if k' == key then Some(ProcessedValue(value)) else Get(d, key))
    ensures Get(FoldEntries(step, entries, k), key) == ProcessedLookup(entries, k, key)
  {
    if k > 0 {
      FoldKeepsKeys(step, entries, k - 1, key);
    }
  }

  lemma EntryKeepsKey(processed: PyDict<Value>, k: string, value: Value, key: string)
    requires key != "_comment" && key != "_extracted_comment"
    ensures Get(ProcessEntry(processed, k, value), key)
      == if k == key then Some(ProcessedValue(value)) else Get(processed, key)
  {
    if k != "_comment" {
      PutGet(processed, k, ProcessedValue(value), key);
      if HasComment(value) {
        PutGet(Put(processed, k, ProcessedValue(value)), "_extracted_comment",
               Get(value.entries, "_comment").value, key);
      } else {
        PutGet(processed, k, value, key);
      }
    }
  }

  /** In a dictionary, whose keys are distinct, the last entry under a key
      is its only one, so its value is what `d[key]` gives. */
  lemma {:induction false} ProcessedLookupUnique(entries: PyDict<Value>, k: nat, key: string)
    requires k <= |entries| && UniqueKeys(entries)
    ensures ProcessedLookup(entries, k, key)
      == if HasKey(entries[..k], key) then Some(ProcessedValue(Get(entries[..k], key).value)) else None
  {
    if k > 0 {
      ProcessedLookupUnique(entries, k - 1, key);
      var prefix := entries[..k - 1];
      assert entries[..k] == prefix + [entries[k - 1]];
      GetLast(prefix, entries[k - 1].0, entries[k - 1].1, key);
    }
  }

  /** Looking up a key in a dictionary with one more entry at the end. */
  lemma {:induction false} GetLast<V>(d: PyDict<V>, k: string, v: V, key: string)
    ensures Get(d + [(k, v)], key) == if HasKey(d, key) then Get(d, key) else if key == k then Some(v) else None
    ensures HasKey(d + [(k, v)], key) <==> HasKey(d, key) || key == k
  {
    if d != [] {
      assert (d + [(k, v)])[0] == d[0];
      assert (d + [(k, v)])[1..] == d[1..] + [(k, v)];
      GetLast(d[1..], k, v, key);
    } else {
      assert (d + [(k, v)])[0] == (k, v);
    }
  }
}
