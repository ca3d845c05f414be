/** Detection post-processing of the OmniParser integration: each detected box
    becomes a `UIElement`, gets the OCR text found inside it, is classified
    into a UI role from that text and its geometry, and boxes that describe
    the same control are merged. The detector, the OCR engine and the image
    are outside the model; their outputs are inputs here. */
module Vision {
  import opened Wrappers
  import opened Text
  import opened Select

  /** A box in pixels: `[x1, y1, x2, y2]`. */
  datatype BBox = BBox(x1: real, y1: real, x2: real, y2: real)

  /** The roles an element can be given; `Interactive` is the detector's
      default before classification. */
  datatype ElementType =
    | Button | TextInput | Link | Checkbox | PhoneNumber | Email | Dropdown
    | TextBlock | Number | TextField | Icon | Label | Banner | Container
    | Interactive

  datatype UIElement = UIElement(
    bbox: BBox,
    description: string,
    confidence: real,
    elementType: ElementType,
    ocrText: string)

  function Max(a: real, b: real): real { if a >= b then a else b }

  function Min(a: real, b: real): real { if a <= b then a else b }

  function Abs(a: real): real { if a >= 0.0 then a else -a }

  function Width(b: BBox): real { b.x2 - b.x1 }

  function Height(b: BBox): real { b.y2 - b.y1 }

  function Area(b: BBox): real { Width(b) * Height(b) }

  /** Width over height, or 1 for a box without positive height. */
  function AspectRatio(b: BBox): real {
    if Height(b) > 0.0 then Width(b) / Height(b) else 1.0
  }

  /** The interiors of the two boxes meet: sharing an edge is not enough. */
  predicate StrictlyIntersect(b1: BBox, b2: BBox) {
    Max(b1.x1, b2.x1) < Min(b1.x2, b2.x2) && Max(b1.y1, b2.y1) < Min(b1.y2, b2.y2)
  }

  /** `outer` contains `inner` (closed boxes). */
  predicate BoxContains(outer: BBox, inner: BBox) {
    outer.x1 <= inner.x1 && outer.y1 <= inner.y1 && inner.x2 <= outer.x2 && inner.y2 <= outer.y2
  }

  lemma MulMono(a: real, b: real, c: real, d: real)
    requires 0.0 < a <= c && 0.0 < b <= d
    ensures 0.0 < a * b <= c * d
  {
    assert a * b <= c * b;
    assert c * b <= c * d;
  }

  /** The ratio of a positive intersection area to a union area that is at
      least as large. */
  function IouValue(inter: real, union: real): (r: real)
    requires 0.0 < inter <= union
    ensures 0.0 < r <= 1.0
  {
    assert inter / union * union == inter;
    inter / union
  }

  /** An intersection no wider and no taller than either box has an area
      between 0 and that of the union. */
  lemma IouBounds(wi: real, hi: real, w1: real, h1: real, w2: real, h2: real)
    requires 0.0 < wi <= w1 && 0.0 < hi <= h1 && wi <= w2 && hi <= h2
    ensures 0.0 < wi * hi <= w1 * h1 + w2 * h2 - wi * hi
  {
    MulMono(wi, hi, w1, h1);
    MulMono(wi, hi, w2, h2);
  }

  /** The box where two boxes overlap; it has no positive width or height
      when they do not. */
  function Intersection(b1: BBox, b2: BBox): BBox {
    BBox(Max(b1.x1, b2.x1), Max(b1.y1, b2.y1), Min(b1.x2, b2.x2), Min(b1.y2, b2.y2))
  }

  /** Intersection over union of two boxes. It is positive exactly when the
      interiors meet, and never more than 1. */
  function OverlapRatio(b1: BBox, b2: BBox): (r: real)
    ensures 0.0 <= r <= 1.0
    ensures r > 0.0 <==> StrictlyIntersect(b1, b2)
  {
    var i := Intersection(b1, b2);
    if i.x2 <= i.x1 || i.y2 <= i.y1 then 0.0
    else
      var inter := Area(i);
      var union := Area(b1) + Area(b2) - inter;
      IouBounds(Width(i), Height(i), Width(b1), Height(b1), Width(b2), Height(b2));
      if union > 0.0 then IouValue(inter, union) else 0.0
  }

  lemma OverlapSymmetric(b1: BBox, b2: BBox)
    ensures OverlapRatio(b1, b2) == OverlapRatio(b2, b1)
  {
    assert Intersection(b1, b2) == Intersection(b2, b1);
  }

  /** A box with positive area overlaps itself completely. */
  lemma OverlapSelf(b: BBox)
    requires b.x1 < b.x2 && b.y1 < b.y2
    ensures OverlapRatio(b, b) == 1.0
  {
    var a := Area(b);
    assert a > 0.0 by { MulMono(Width(b), Height(b), Width(b), Height(b)); }
    assert a + a - a == a;
  }

  /** Square of the distance between the two box centres. */
  function SqCenterDistance(b1: BBox, b2: BBox): real {
    var dx := (b1.x1 + b1.x2) / 2.0 - (b2.x1 + b2.x2) / 2.0;
    var dy := (b1.y1 + b1.y2) / 2.0 - (b2.y1 + b2.y2) / 2.0;
    dx * dx + dy * dy
  }

  /** Equal, non-empty OCR texts. */
  predicate SameText(e1: UIElement, e2: UIElement) {
    e1.ocrText == e2.ocrText && e1.ocrText != ""
  }

  /** Two detections are duplicates when they overlap by more than half, or
      carry the same non-empty text and either lie within 30 pixels of each
      other (centre to centre) or differ in confidence by less than 0.2. */
  function ShouldMerge(e1: UIElement, e2: UIElement): (b: bool)
    ensures OverlapRatio(e1.bbox, e2.bbox) > 0.5 ==> b
    ensures !SameText(e1, e2) ==> (b <==> OverlapRatio(e1.bbox, e2.bbox) > 0.5)
    ensures SameText(e1, e2) && Abs(e1.confidence - e2.confidence) < 0.2 ==> b
    ensures SameText(e1, e2) && SqCenterDistance(e1.bbox, e2.bbox) < 900.0 ==> b
    ensures b ==> (OverlapRatio(e1.bbox, e2.bbox) > 0.5 || (SameText(e1, e2)
      && (SqCenterDistance(e1.bbox, e2.bbox) < 900.0 || Abs(e1.confidence - e2.confidence) < 0.2)))
    ensures !StrictlyIntersect(e1.bbox, e2.bbox) ==>
      (b <==> (SameText(e1, e2)
        && (SqCenterDistance(e1.bbox, e2.bbox) < 900.0 || Abs(e1.confidence - e2.confidence) < 0.2)))
  {
    var highOverlap := OverlapRatio(e1.bbox, e2.bbox) > 0.5;
    var closeCenters := SqCenterDistance(e1.bbox, e2.bbox) < 900.0 && SameText(e1, e2);
    var sameTextSimilarConf := SameText(e1, e2) && Abs(e1.confidence - e2.confidence) < 0.2;
    highOverlap || closeCenters || sameTextSimilarConf
  }

  lemma ShouldMergeSymmetric(e1: UIElement, e2: UIElement)
    ensures ShouldMerge(e1, e2) == ShouldMerge(e2, e1)
  {
    OverlapSymmetric(e1.bbox, e2.bbox);
  }

  // ---------------------------------------------------------------------
  // Merging one group of duplicates

  function Confidences(g: seq<UIElement>): (r: seq<real>)
    ensures |r| == |g| && forall i :: 0 <= i < |g| ==> r[i] == g[i].confidence
  {
    seq(|g|, i requires 0 <= i < |g| => g[i].confidence)
  }

  /** `max(group, key=lambda e: e.confidence)`: the first member whose
      confidence is the largest. */
  function BestIndex(g: seq<UIElement>): (k: nat)
    requires |g| > 0
    ensures k < |g|
    ensures forall j :: 0 <= j < |g| ==> g[j].confidence <= g[k].confidence
    ensures forall j :: 0 <= j < k ==> g[j].confidence < g[k].confidence
  {
    ArgMaxFirstSpec(Confidences(g));
    ArgMaxFirst(Confidences(g))
  }

  /** `min(s)`: a value of `s` not above any other. */
  function MinOf(s: seq<real>): (r: real)
    requires |s| > 0
    ensures r in s && forall j :: 0 <= j < |s| ==> r <= s[j]
  {
    if |s| == 1 then s[0] else Min(s[0], MinOf(s[1..]))
  }

  /** `max(s)`: a value of `s` not below any other. */
  function MaxOf(s: seq<real>): (r: real)
    requires |s| > 0
    ensures r in s && forall j :: 0 <= j < |s| ==> s[j] <= r
  {
    if |s| == 1 then s[0] else Max(s[0], MaxOf(s[1..]))
  }

  /** Scores that rank OCR texts by length while ruling out blank ones: a
      non-blank text is at least one character long, so its score is
      positive, and a blank one scores 0. */
  function OcrLengthScores(g: seq<UIElement>): (r: seq<real>)
    ensures |r| == |g|
    ensures forall i :: 0 <= i < |g| ==> r[i] == if IsBlank(g[i].ocrText) then 0.0 else |g[i].ocrText| as real
  {
    seq(|g|, i requires 0 <= i < |g| => if IsBlank(g[i].ocrText) then 0.0 else |g[i].ocrText| as real)
  }

  /** The element types the merge prefers over the best member's own. */
  predicate IsSpecific(t: ElementType) { t != Container && t != Interactive }

  /** The first member whose type is specific. */
  function FirstSpecific(g: seq<UIElement>): (r: Option<nat>)
    ensures r.Some? ==> (r.value < |g| && IsSpecific(g[r.value].elementType)
      && forall j :: 0 <= j < r.value ==> !IsSpecific(g[j].elementType))
    ensures r.None? ==> forall j :: 0 <= j < |g| ==> !IsSpecific(g[j].elementType)
  {
    if g == [] then None
    else if IsSpecific(g[0].elementType) then Some(0)
    else match FirstSpecific(g[1..]) {
      case None => None
      case Some(k) => Some(k + 1)
    }
  }

  /** The union box of a group: the smallest box containing every member's
      box. */
  function UnionBox(g: seq<UIElement>): (b: BBox)
    requires |g| > 0
    ensures forall j :: 0 <= j < |g| ==> BoxContains(b, g[j].bbox)
    ensures exists j :: 0 <= j < |g| && g[j].bbox.x1 == b.x1
    ensures exists j :: 0 <= j < |g| && g[j].bbox.y1 == b.y1
    ensures exists j :: 0 <= j < |g| && g[j].bbox.x2 == b.x2
    ensures exists j :: 0 <= j < |g| && g[j].bbox.y2 == b.y2
  {
    var x1s := seq(|g|, i requires 0 <= i < |g| => g[i].bbox.x1);
    var y1s := seq(|g|, i requires 0 <= i < |g| => g[i].bbox.y1);
    var x2s := seq(|g|, i requires 0 <= i < |g| => g[i].bbox.x2);
    var y2s := seq(|g|, i requires 0 <= i < |g| => g[i].bbox.y2);
    var b := BBox(MinOf(x1s), MinOf(y1s), MaxOf(x2s), MaxOf(y2s));
    assert forall j :: 0 <= j < |g| ==> BoxContains(b, g[j].bbox) by {
      forall j | 0 <= j < |g| ensures BoxContains(b, g[j].bbox) {
        assert x1s[j] == g[j].bbox.x1 && y1s[j] == g[j].bbox.y1;
        assert x2s[j] == g[j].bbox.x2 && y2s[j] == g[j].bbox.y2;
      }
    }
    assert exists j :: 0 <= j < |g| && g[j].bbox.x1 == b.x1 by {
      var j :| 0 <= j < |x1s| && x1s[j] == b.x1;
      assert g[j].bbox.x1 == b.x1;
    }
    assert exists j :: 0 <= j < |g| && g[j].bbox.y1 == b.y1 by {
      var j :| 0 <= j < |y1s| && y1s[j] == b.y1;
      assert g[j].bbox.y1 == b.y1;
    }
    assert exists j :: 0 <= j < |g| && g[j].bbox.x2 == b.x2 by {
      var j :| 0 <= j < |x2s| && x2s[j] == b.x2;
      assert g[j].bbox.x2 == b.x2;
    }
    assert exists j :: 0 <= j < |g| && g[j].bbox.y2 == b.y2 by {
      var j :| 0 <= j < |y2s| && y2s[j] == b.y2;
      assert g[j].bbox.y2 == b.y2;
    }
    b
  }

  /** Merges a group of duplicates into one element: the union box, the
      highest confidence, the description of the most confident member, the
      longest non-blank OCR text and the first specific type. */
  function MergeElementGroup(g: seq<UIElement>): (m: UIElement)
    requires |g| > 0
    ensures m.bbox == UnionBox(g)
    ensures m.confidence == g[BestIndex(g)].confidence
    ensures forall j :: 0 <= j < |g| ==> g[j].confidence <= m.confidence
    ensures m.description == g[BestIndex(g)].description
  {
    var best := g[BestIndex(g)];
    var longest := FirstMax(OcrLengthScores(g));
    var mergedOcr := if longest.Some? then g[longest.value].ocrText else best.ocrText;
    var maxConfidence := MaxOf(Confidences(g));
    var specific := FirstSpecific(g);
    var mergedType := if specific.Some? then g[specific.value].elementType else best.elementType;
    UIElement(UnionBox(g), best.description, maxConfidence, mergedType, mergedOcr)
  }

  /** The merged OCR text is the first longest non-blank member text, or the
      most confident member's text when every member's text is blank. */
  lemma MergeOcrRule(g: seq<UIElement>)
    requires |g| > 0
    ensures (forall j :: 0 <= j < |g| ==> IsBlank(g[j].ocrText)) ==>
      MergeElementGroup(g).ocrText == g[BestIndex(g)].ocrText
    ensures (exists j :: 0 <= j < |g| && !IsBlank(g[j].ocrText)) ==>
      exists k :: 0 <= k < |g| && !IsBlank(g[k].ocrText)
        && MergeElementGroup(g).ocrText == g[k].ocrText
        && (forall j :: 0 <= j < |g| && !IsBlank(g[j].ocrText) ==> |g[j].ocrText| <= |g[k].ocrText|)
        && (forall j :: 0 <= j < k && !IsBlank(g[j].ocrText) ==> |g[j].ocrText| < |g[k].ocrText|)
  {
    var e := OcrLengthScores(g);
    FirstMaxSpec(e);
    if FirstMax(e).None? {
      forall j | 0 <= j < |g| ensures IsBlank(g[j].ocrText) {
        assert e[j] <= 0.0;
      }
    } else {
      var k := FirstMax(e).value;
      assert !IsBlank(g[k].ocrText);
      forall j | 0 <= j < |g| && !IsBlank(g[j].ocrText) ensures |g[j].ocrText| <= |g[k].ocrText| {
        assert e[j] <= e[k];
      }
      forall j | 0 <= j < k && !IsBlank(g[j].ocrText) ensures |g[j].ocrText| < |g[k].ocrText| {
        assert e[j] < e[k];
      }
    }
  }

  /** The merged type is the first member type that is neither container nor
      interactive, or the most confident member's type if there is none. */
  lemma MergeTypeRule(g: seq<UIElement>)
    requires |g| > 0
    ensures (forall j :: 0 <= j < |g| ==> !IsSpecific(g[j].elementType)) ==>
      MergeElementGroup(g).elementType == g[BestIndex(g)].elementType
    ensures (exists j :: 0 <= j < |g| && IsSpecific(g[j].elementType)) ==>
      exists k :: 0 <= k < |g| && MergeElementGroup(g).elementType == g[k].elementType
        && IsSpecific(g[k].elementType)
        && forall j :: 0 <= j < k ==> !IsSpecific(g[j].elementType)
  {
  }

  // ---------------------------------------------------------------------
  // Clustering a whole list

  /** A duplicate test between a seed and a later element. */
  type Duplicates = (UIElement, UIElement) -> bool

  /** The indices below `n` that join seed `i`'s group: after `i`, not yet
      used, and duplicates of the seed itself (the test is not transitive). */
  function Members(es: seq<UIElement>, dup: Duplicates, i: nat, used: set<nat>, n: nat): (r: seq<nat>)
    requires i < |es| && n <= |es|
    ensures forall k :: 0 <= k < |r| ==> i < r[k] < n && r[k] !in used && dup(es[i], es[r[k]])
  {
    if n == 0 then []
    else
      Members(es, dup, i, used, n - 1)
        + (if n - 1 > i && n - 1 !in used && dup(es[i], es[n - 1]) then [n - 1] else [])
  }

  /** Every later unused duplicate of the seed below `n` is a member. */
  lemma {:induction false} MembersComplete(es: seq<UIElement>, dup: Duplicates, i: nat, used: set<nat>, n: nat, j: nat)
    requires i < |es| && n <= |es|
    requires i < j < n && j !in used && dup(es[i], es[j])
    ensures j in Members(es, dup, i, used, n)
  {
    if j < n - 1 {
      MembersComplete(es, dup, i, used, n - 1, j);
    }
  }

  /** Members are listed in increasing order. */
  lemma {:induction false} MembersIncreasing(es: seq<UIElement>, dup: Duplicates, i: nat, used: set<nat>, n: nat)
    requires i < |es| && n <= |es|
    ensures Increasing(Members(es, dup, i, used, n))
  {
    if n > 0 {
      MembersIncreasing(es, dup, i, used, n - 1);
    }
  }

  /** `used.update(group)`. */
  function MarkUsed(used: set<nat>, g: seq<nat>): (r: set<nat>)
    ensures forall x :: x in r <==> x in used || x in g
  {
    used + set x | x in g
  }

  /** The clusters seeded at `i` and later, given the indices already used. */
  function ClustersFrom(es: seq<UIElement>, dup: Duplicates, i: nat, used: set<nat>): (cs: seq<seq<nat>>)
    requires i <= |es|
    ensures |cs| <= |es| - i
    ensures forall a :: 0 <= a < |cs| ==> |cs[a]| > 0 && forall k :: 0 <= k < |cs[a]| ==> cs[a][k] < |es|
    decreases |es| - i
  {
    if i == |es| then []
    else if i in used then ClustersFrom(es, dup, i + 1, used)
    else
      var g := [i] + Members(es, dup, i, used, |es|);
      [g] + ClustersFrom(es, dup, i + 1, MarkUsed(used, g))
  }

  /** A cluster: a non-empty sequence of indices into `es`. */
  ghost predicate ClusterIn(es: seq<UIElement>, c: seq<nat>) {
    |c| > 0 && forall k :: 0 <= k < |c| ==> c[k] < |es|
  }

  ghost predicate ValidClusters(es: seq<UIElement>, cs: seq<seq<nat>>) {
    forall a :: 0 <= a < |cs| ==> ClusterIn(es, cs[a])
  }

  /** The elements at the given indices. */
  function Elements(es: seq<UIElement>, c: seq<nat>): (r: seq<UIElement>)
    requires forall k :: 0 <= k < |c| ==> c[k] < |es|
    ensures |r| == |c| && forall k :: 0 <= k < |c| ==> r[k] == es[c[k]]
  {
    seq(|c|, k requires 0 <= k < |c| => es[c[k]])
  }

  /** The output element for one cluster: a lone seed is kept as it is, a
      larger group is merged. */
  function RenderCluster(es: seq<UIElement>, c: seq<nat>): UIElement
    requires |c| > 0 && forall k :: 0 <= k < |c| ==> c[k] < |es|
  {
    if |c| > 1 then MergeElementGroup(Elements(es, c)) else es[c[0]]
  }

  /** `RenderCluster` for the clusters of `es`. */
  function ClusterOutput(es: seq<UIElement>): (f: seq<nat> --> UIElement)
    ensures forall c :: ClusterIn(es, c) ==> f.requires(c) && f(c) == RenderCluster(es, c)
  {
    c requires ClusterIn(es, c) => RenderCluster(es, c)
  }

  /** One output element per cluster, in cluster order. */
  function Render(es: seq<UIElement>, cs: seq<seq<nat>>): (r: seq<UIElement>)
    requires ValidClusters(es, cs)
    ensures |r| == |cs|
    ensures forall a :: 0 <= a < |cs| ==> r[a] == RenderCluster(es, cs[a])
  {
    MapDefined(ClusterOutput(es), cs)
  }

  /** What `_merge_overlapping_elements` returns. */
  function MergedSpec(es: seq<UIElement>): seq<UIElement> {
    if |es| <= 1 then es else Render(es, ClustersFrom(es, ShouldMerge, 0, {}))
  }

  /** The greedy merge: each unused element seeds a group of the later unused
      elements that duplicate it, and the group is merged. */
  method MergeOverlappingElements(es: seq<UIElement>) returns (merged: seq<UIElement>)
    ensures merged == MergedSpec(es)
  {
    if |es| <= 1 {
      return es;
    }
    merged := ClusterAndMerge(es, ShouldMerge);
  }

  /** The clustering loop, for the duplicate test `dup`. */
  method ClusterAndMerge(es: seq<UIElement>, dup: Duplicates) returns (merged: seq<UIElement>)
    ensures merged == Render(es, ClustersFrom(es, dup, 0, {}))
  {
    ghost var spec := Render(es, ClustersFrom(es, dup, 0, {}));
    merged := [];
    var used: set<nat> := {};
    var i := 0;
    while i < |es|
      invariant 0 <= i <= |es|
      invariant merged + Render(es, ClustersFrom(es, dup, i, used)) == spec
    {
      merged, used := VisitSeed(es, dup, i, used, merged);
      i := i + 1;
    }
  }

  /** One pass of the outer loop: an unused index seeds a group whose output
      element is emitted and whose indices are marked used; a used index is
      passed over. What is emitted plus what is still to come stays the same. */
  method VisitSeed(es: seq<UIElement>, dup: Duplicates, i: nat, used: set<nat>, merged: seq<UIElement>)
      returns (merged': seq<UIElement>, used': set<nat>)
    requires i < |es|
    ensures merged' + Render(es, ClustersFrom(es, dup, i + 1, used'))
      == merged + Render(es, ClustersFrom(es, dup, i, used))
  {
    if i in used {
      ClusterSkip(es, dup, i, used);
      return merged, used;
    }
    var out, groupIdx := EmitCluster(es, dup, i, used);
    used' := MarkUsed(used, groupIdx);
    merged' := merged + [out];
    AppendAssoc(merged, [out], Render(es, ClustersFrom(es, dup, i + 1, used')));
  }

  /** A used index seeds no cluster. */
  lemma ClusterSkip(es: seq<UIElement>, dup: Duplicates, i: nat, used: set<nat>)
    requires i < |es| && i in used
    ensures ClustersFrom(es, dup, i, used) == ClustersFrom(es, dup, i + 1, used)
  {
  }

  /** One pass of the outer loop for an unused seed `i`: collect its group,
      merge it if it has more than one element, and mark it used. */
  method EmitCluster(es: seq<UIElement>, dup: Duplicates, i: nat, used: set<nat>)
      returns (out: UIElement, groupIdx: seq<nat>)
    requires i < |es| && i !in used
    ensures Render(es, ClustersFrom(es, dup, i, used))
      == [out] + Render(es, ClustersFrom(es, dup, i + 1, MarkUsed(used, groupIdx)))
  {
    var group;
    group, groupIdx := CollectGroup(es, dup, i, used);
    if |group| > 1 {
      out := MergeElementGroup(group);
    } else {
      out := es[i];
    }
    assert out == RenderCluster(es, groupIdx);
    ClusterStep(es, dup, i, used);
  }

  /** The clusters from an unused seed `i` on: the seed's own, then the rest. */
  lemma ClusterStep(es: seq<UIElement>, dup: Duplicates, i: nat, used: set<nat>)
    requires i < |es| && i !in used
    ensures var g := [i] + Members(es, dup, i, used, |es|);
      Render(es, ClustersFrom(es, dup, i, used))
        == [RenderCluster(es, g)] + Render(es, ClustersFrom(es, dup, i + 1, MarkUsed(used, g)))
  {
    var g := [i] + Members(es, dup, i, used, |es|);
    var rest := ClustersFrom(es, dup, i + 1, MarkUsed(used, g));
    assert ClustersFrom(es, dup, i, used) == [g] + rest;
    RenderCons(es, g, rest);
  }

  lemma RenderCons(es: seq<UIElement>, c: seq<nat>, rest: seq<seq<nat>>)
    requires ClusterIn(es, c) && ValidClusters(es, rest)
    ensures ValidClusters(es, [c] + rest)
    ensures Render(es, [c] + rest) == [RenderCluster(es, c)] + Render(es, rest)
  {
    MapDefinedCons(ClusterOutput(es), c, rest);
  }

  /** The inner loop: seed `i` and the later unused elements that duplicate
      it, as elements and as indices. */
  method CollectGroup(es: seq<UIElement>, dup: Duplicates, i: nat, used: set<nat>)
      returns (group: seq<UIElement>, groupIdx: seq<nat>)
    requires i < |es|
    ensures groupIdx == [i] + Members(es, dup, i, used, |es|)
    ensures group == Elements(es, groupIdx)
  {
    group := [es[i]];
    groupIdx := [i];
    var j := 0;
    while j < |es|
      invariant 0 <= j <= |es|
      invariant groupIdx == [i] + Members(es, dup, i, used, j)
      invariant |group| == |groupIdx| && forall k :: 0 <= k < |group| ==> groupIdx[k] < |es| && group[k] == es[groupIdx[k]]
    {
      ghost var m := Members(es, dup, i, used, j);
      if j <= i || j in used {
        assert Members(es, dup, i, used, j + 1) == m + [];
        j := j + 1;
        continue;
      }
      if dup(es[i], es[j]) {
        assert Members(es, dup, i, used, j + 1) == m + [j];
        group := group + [es[j]];
        groupIdx := groupIdx + [j];
      } else {
        assert Members(es, dup, i, used, j + 1) == m + [];
      }
      j := j + 1;
    }
  }

  /** The indices that occur in some cluster. */
  ghost function Covered(cs: seq<seq<nat>>): set<nat> {
    if cs == [] then {} else MarkUsed(Covered(cs[1..]), cs[0])
  }

  /** Every cluster holds only indices from `i` on that are not in `used`. */
  ghost predicate FreshFrom(cs: seq<seq<nat>>, i: nat, used: set<nat>) {
    forall a, k :: 0 <= a < |cs| && 0 <= k < |cs[a]| ==> i <= cs[a][k] && cs[a][k] !in used
  }

  ghost predicate Increasing(c: seq<nat>) {
    forall k1, k2 :: 0 <= k1 < k2 < |c| ==> c[k1] < c[k2]
  }

  /** No index is in two clusters. */
  ghost predicate Disjoint(cs: seq<seq<nat>>) {
    forall a, b, k1, k2 :: 0 <= a < b < |cs| && 0 <= k1 < |cs[a]| && 0 <= k2 < |cs[b]| ==> cs[a][k1] != cs[b][k2]
  }

  /** The clusters seeded from `i` on use only unused indices from `i` on. */
  lemma {:induction false} ClustersFresh(es: seq<UIElement>, dup: Duplicates, i: nat, used: set<nat>)
    requires i <= |es|
    ensures FreshFrom(ClustersFrom(es, dup, i, used), i, used)
    decreases |es| - i
  {
    if i == |es| {
    } else if i in used {
      ClustersFresh(es, dup, i + 1, used);
      assert ClustersFrom(es, dup, i, used) == ClustersFrom(es, dup, i + 1, used);
    } else {
      var g := [i] + Members(es, dup, i, used, |es|);
      var used' := MarkUsed(used, g);
      var rest := ClustersFrom(es, dup, i + 1, used');
      ClustersFresh(es, dup, i + 1, used');
      assert ClustersFrom(es, dup, i, used) == [g] + rest;
      FreshCons(g, rest, i, used, used');
    }
  }

  /** Each cluster lists its indices in increasing order, so its seed comes
      first. */
  lemma {:induction false} ClustersIncreasing(es: seq<UIElement>, dup: Duplicates, i: nat, used: set<nat>)
    requires i <= |es|
    ensures forall a :: 0 <= a < |ClustersFrom(es, dup, i, used)| ==> Increasing(ClustersFrom(es, dup, i, used)[a])
    decreases |es| - i
  {
    if i == |es| {
    } else if i in used {
      ClustersIncreasing(es, dup, i + 1, used);
      assert ClustersFrom(es, dup, i, used) == ClustersFrom(es, dup, i + 1, used);
    } else {
      var g := [i] + Members(es, dup, i, used, |es|);
      var used' := MarkUsed(used, g);
      var rest := ClustersFrom(es, dup, i + 1, used');
      ClustersIncreasing(es, dup, i + 1, used');
      SeedGroup(es, dup, i, used);
      assert ClustersFrom(es, dup, i, used) == [g] + rest;
      IncreasingCons(g, rest);
    }
  }

  /** A seed's group: the seed first, then later unused indices, increasing. */
  lemma SeedGroup(es: seq<UIElement>, dup: Duplicates, i: nat, used: set<nat>)
    requires i < |es| && i !in used
    ensures var g := [i] + Members(es, dup, i, used, |es|);
      g[0] == i && Increasing(g) && forall k :: 0 <= k < |g| ==> i <= g[k] < |es| && g[k] !in used
  {
    var m := Members(es, dup, i, used, |es|);
    MembersIncreasing(es, dup, i, used, |es|);
    var g := [i] + m;
    forall k1, k2 | 0 <= k1 < k2 < |g| ensures g[k1] < g[k2] {
      assert g[k2] == m[k2 - 1];
      if k1 > 0 {
        assert g[k1] == m[k1 - 1];
      }
    }
  }

  lemma FreshCons(g: seq<nat>, rest: seq<seq<nat>>, i: nat, used: set<nat>, used': set<nat>)
    requires forall k :: 0 <= k < |g| ==> i <= g[k] && g[k] !in used
    requires FreshFrom(rest, i + 1, used')
    requires forall x :: x in used ==> x in used'
    ensures FreshFrom([g] + rest, i, used)
  {
    var cs := [g] + rest;
    forall a, k | 0 <= a < |cs| && 0 <= k < |cs[a]| ensures i <= cs[a][k] && cs[a][k] !in used {
      if a > 0 {
        assert cs[a] == rest[a - 1];
      }
    }
  }

  lemma IncreasingCons(g: seq<nat>, rest: seq<seq<nat>>)
    requires Increasing(g) && forall a :: 0 <= a < |rest| ==> Increasing(rest[a])
    ensures forall a :: 0 <= a < |[g] + rest| ==> Increasing(([g] + rest)[a])
  {
    var cs := [g] + rest;
    forall a | 0 <= a < |cs| ensures Increasing(cs[a]) {
      if a > 0 {
        assert cs[a] == rest[a - 1];
      }
    }
  }

  /** No index is in two clusters. */
  lemma {:induction false} ClustersDisjoint(es: seq<UIElement>, dup: Duplicates, i: nat, used: set<nat>)
    requires i <= |es|
    ensures Disjoint(ClustersFrom(es, dup, i, used))
    decreases |es| - i
  {
    if i == |es| {
    } else if i in used {
      ClustersDisjoint(es, dup, i + 1, used);
      assert ClustersFrom(es, dup, i, used) == ClustersFrom(es, dup, i + 1, used);
    } else {
      var used' := MarkUsed(used, [i] + Members(es, dup, i, used, |es|));
      ClustersDisjoint(es, dup, i + 1, used');
      ClustersFresh(es, dup, i + 1, used');
      DisjointSeed(es, dup, i, used);
    }
  }

  /** The step of ClustersDisjoint for a seed at `i`. */
  lemma DisjointSeed(es: seq<UIElement>, dup: Duplicates, i: nat, used: set<nat>)
    requires i < |es| && i !in used
    requires var used' := MarkUsed(used, [i] + Members(es, dup, i, used, |es|));
      Disjoint(ClustersFrom(es, dup, i + 1, used')) && FreshFrom(ClustersFrom(es, dup, i + 1, used'), i + 1, used')
    ensures Disjoint(ClustersFrom(es, dup, i, used))
  {
    var g := [i] + Members(es, dup, i, used, |es|);
    var used' := MarkUsed(used, g);
    var rest := ClustersFrom(es, dup, i + 1, used');
    assert ClustersFrom(es, dup, i, used) == [g] + rest;
    DisjointCons(g, rest, i + 1, used');
  }

  lemma DisjointCons(g: seq<nat>, rest: seq<seq<nat>>, j: nat, used': set<nat>)
    requires forall k :: 0 <= k < |g| ==> g[k] in used'
    requires FreshFrom(rest, j, used') && Disjoint(rest)
    ensures Disjoint([g] + rest)
  {
    var cs := [g] + rest;
    forall a, b, k1, k2 | 0 <= a < b < |cs| && 0 <= k1 < |cs[a]| && 0 <= k2 < |cs[b]|
      ensures cs[a][k1] != cs[b][k2]
    {
      assert cs[b] == rest[b - 1];
      assert rest[b - 1][k2] !in used';
      if a > 0 {
        assert cs[a] == rest[a - 1];
      }
    }
  }

  /** Every unused index from `i` on is in some cluster. */
  lemma {:induction false} ClustersCover(es: seq<UIElement>, dup: Duplicates, i: nat, used: set<nat>)
    requires i <= |es|
    ensures forall x: nat :: i <= x < |es| && x !in used ==> x in Covered(ClustersFrom(es, dup, i, used))
    decreases |es| - i
  {
    if i == |es| {
    } else if i in used {
      ClustersCover(es, dup, i + 1, used);
      assert ClustersFrom(es, dup, i, used) == ClustersFrom(es, dup, i + 1, used);
    } else {
      var used' := MarkUsed(used, [i] + Members(es, dup, i, used, |es|));
      ClustersCover(es, dup, i + 1, used');
      CoverSeed(es, dup, i, used, used');
    }
  }

  /** The step of ClustersCover for a seed at `i`. */
  lemma CoverSeed(es: seq<UIElement>, dup: Duplicates, i: nat, used: set<nat>, used': set<nat>)
    requires i < |es| && i !in used
    requires used' == MarkUsed(used, [i] + Members(es, dup, i, used, |es|))
    requires forall x: nat :: i + 1 <= x < |es| && x !in used' ==> x in Covered(ClustersFrom(es, dup, i + 1, used'))
    ensures forall x: nat :: i <= x < |es| && x !in used ==> x in Covered(ClustersFrom(es, dup, i, used))
  {
    var g := [i] + Members(es, dup, i, used, |es|);
    var rest := ClustersFrom(es, dup, i + 1, used');
    assert ClustersFrom(es, dup, i, used) == [g] + rest;
    CoverCons(g, rest, i, |es|, used, used');
  }

  lemma CoverCons(g: seq<nat>, rest: seq<seq<nat>>, i: nat, n: nat, used: set<nat>, used': set<nat>)
    requires |g| > 0 && g[0] == i
    requires forall x :: x in used' <==> x in used || x in g
    requires forall x: nat :: i + 1 <= x < n && x !in used' ==> x in Covered(rest)
    ensures forall x: nat :: i <= x < n && x !in used ==> x in Covered([g] + rest)
  {
    assert ([g] + rest)[1..] == rest;
  }

  /** The seeds (first indices) of the clusters increase. */
  ghost predicate SeedsIncrease(cs: seq<seq<nat>>)
    requires forall a :: 0 <= a < |cs| ==> |cs[a]| > 0
  {
    forall a, b :: 0 <= a < b < |cs| ==> cs[a][0] < cs[b][0]
  }

  /** Clusters come in the order of their seeds. */
  lemma {:induction false} ClustersSeedOrder(es: seq<UIElement>, dup: Duplicates, i: nat, used: set<nat>)
    requires i <= |es|
    ensures SeedsIncrease(ClustersFrom(es, dup, i, used))
    decreases |es| - i
  {
    if i == |es| {
    } else if i in used {
      ClustersSeedOrder(es, dup, i + 1, used);
      ClustersSkip(es, dup, i, used);
    } else {
      var used' := MarkUsed(used, [i] + Members(es, dup, i, used, |es|));
      ClustersSeedOrder(es, dup, i + 1, used');
      SeedOrderSeed(es, dup, i, used);
    }
  }

  /** An index already used starts no cluster. */
  lemma ClustersSkip(es: seq<UIElement>, dup: Duplicates, i: nat, used: set<nat>)
    requires i < |es| && i in used
    ensures ClustersFrom(es, dup, i, used) == ClustersFrom(es, dup, i + 1, used)
  {
  }

  /** The step of ClustersSeedOrder for a seed at `i`. */
  lemma SeedOrderSeed(es: seq<UIElement>, dup: Duplicates, i: nat, used: set<nat>)
    requires i < |es| && i !in used
    requires var used' := MarkUsed(used, [i] + Members(es, dup, i, used, |es|));
      SeedsIncrease(ClustersFrom(es, dup, i + 1, used'))
    ensures SeedsIncrease(ClustersFrom(es, dup, i, used))
  {
    var g := [i] + Members(es, dup, i, used, |es|);
    var used' := MarkUsed(used, g);
    ClustersFresh(es, dup, i + 1, used');
    var rest := ClustersFrom(es, dup, i + 1, used');
    assert ClustersFrom(es, dup, i, used) == [g] + rest;
    SeedsIncreaseCons(g, rest, i + 1, used');
  }

  lemma SeedsIncreaseCons(g: seq<nat>, rest: seq<seq<nat>>, j: nat, used': set<nat>)
    requires |g| > 0 && forall a :: 0 <= a < |rest| ==> |rest[a]| > 0
    requires SeedsIncrease(rest) && FreshFrom(rest, j, used') && g[0] < j
    ensures SeedsIncrease([g] + rest)
  {
    var cs := [g] + rest;
    forall a, b | 0 <= a < b < |cs| ensures cs[a][0] < cs[b][0] {
      assert cs[b] == rest[b - 1];
      assert j <= rest[b - 1][0];
      if a > 0 {
        assert cs[a] == rest[a - 1];
      }
    }
  }

  /** Merging never adds elements; every input index lands in exactly one
      cluster, and one output element stands for each cluster. */
  lemma MergedPartition(es: seq<UIElement>)
    requires |es| > 1
    ensures |MergedSpec(es)| == |ClustersFrom(es, ShouldMerge, 0, {})| <= |es|
    ensures forall x: nat :: x < |es| ==> x in Covered(ClustersFrom(es, ShouldMerge, 0, {}))
    ensures Disjoint(ClustersFrom(es, ShouldMerge, 0, {}))
  {
    ClustersCover(es, ShouldMerge, 0, {});
    ClustersDisjoint(es, ShouldMerge, 0, {});
  }

  /** Output element `a` stands for cluster `a`: a lone seed is emitted
      unchanged, and a merged element's box contains the box of every member
      of its cluster and its confidence is theirs at most. */
  lemma MergedAt(es: seq<UIElement>, a: nat)
    requires |es| > 1
    requires a < |ClustersFrom(es, ShouldMerge, 0, {})|
    ensures var cs := ClustersFrom(es, ShouldMerge, 0, {});
      |cs[a]| == 1 ==> MergedSpec(es)[a] == es[cs[a][0]]
    ensures var cs := ClustersFrom(es, ShouldMerge, 0, {});
      forall k :: 0 <= k < |cs[a]| ==>
        BoxContains(MergedSpec(es)[a].bbox, es[cs[a][k]].bbox)
        && es[cs[a][k]].confidence <= MergedSpec(es)[a].confidence
  {
    ClusterOutputAt(es, ShouldMerge, a);
  }

  /** The same, for any duplicate test. */
  lemma ClusterOutputAt(es: seq<UIElement>, dup: Duplicates, a: nat)
    requires a < |ClustersFrom(es, dup, 0, {})|
    ensures var cs := ClustersFrom(es, dup, 0, {});
      |cs[a]| == 1 ==> Render(es, cs)[a] == es[cs[a][0]]
    ensures var cs := ClustersFrom(es, dup, 0, {});
      forall k :: 0 <= k < |cs[a]| ==>
        BoxContains(Render(es, cs)[a].bbox, es[cs[a][k]].bbox)
        && es[cs[a][k]].confidence <= Render(es, cs)[a].confidence
  {
    var cs := ClustersFrom(es, dup, 0, {});
    RenderClusterCovers(es, cs[a]);
  }

  /** The output element of a cluster covers every member of the cluster, and
      a cluster of one is emitted unchanged. */
  lemma RenderClusterCovers(es: seq<UIElement>, c: seq<nat>)
    requires |c| > 0 && forall k :: 0 <= k < |c| ==> c[k] < |es|
    ensures |c| == 1 ==> RenderCluster(es, c) == es[c[0]]
    ensures forall k :: 0 <= k < |c| ==>
      BoxContains(RenderCluster(es, c).bbox, es[c[k]].bbox)
      && es[c[k]].confidence <= RenderCluster(es, c).confidence
  {
    var out := RenderCluster(es, c);
    if |c| > 1 {
      var g := Elements(es, c);
      assert out == MergeElementGroup(g);
      MergeCovers(g);
      forall k | 0 <= k < |c|
        ensures BoxContains(out.bbox, es[c[k]].bbox) && es[c[k]].confidence <= out.confidence
      {
        assert g[k] == es[c[k]];
      }
    }
  }

  /** The merged element covers every member: its box contains theirs and its
      confidence is at least theirs. */
  lemma MergeCovers(g: seq<UIElement>)
    requires |g| > 0
    ensures forall j :: 0 <= j < |g| ==>
      BoxContains(MergeElementGroup(g).bbox, g[j].bbox) && g[j].confidence <= MergeElementGroup(g).confidence
  {
    var m := MergeElementGroup(g);
    assert m.bbox == UnionBox(g);
  }

  /** No element is typed interactive after merging if none was before. */
  lemma MergedKeepsTypes(es: seq<UIElement>)
    requires forall k :: 0 <= k < |es| ==> es[k].elementType != Interactive
    ensures forall k :: 0 <= k < |MergedSpec(es)| ==> MergedSpec(es)[k].elementType != Interactive
  {
    if |es| > 1 {
      var cs := ClustersFrom(es, ShouldMerge, 0, {});
      var r := Render(es, cs);
      forall a | 0 <= a < |r| ensures r[a].elementType != Interactive {
        RenderClusterType(es, cs[a]);
      }
    }
  }

  /** A cluster's output element takes its type from one of its members. */
  lemma RenderClusterType(es: seq<UIElement>, c: seq<nat>)
    requires |c| > 0 && forall k :: 0 <= k < |c| ==> c[k] < |es|
    ensures exists k :: 0 <= k < |c| && RenderCluster(es, c).elementType == es[c[k]].elementType
  {
    if |c| > 1 {
      var g := Elements(es, c);
      MergeTypeRule(g);
      var m := MergeElementGroup(g);
      if forall j :: 0 <= j < |g| ==> !IsSpecific(g[j].elementType) {
        assert m.elementType == es[c[BestIndex(g)]].elementType;
      } else {
        var k :| 0 <= k < |g| && m.elementType == g[k].elementType;
        assert m.elementType == es[c[k]].elementType;
      }
    } else {
      assert RenderCluster(es, c).elementType == es[c[0]].elementType;
    }
  }

  // ---------------------------------------------------------------------
  // Classification

  const ButtonKeywords: seq<string> := [
    "prihlásiť", "prihlasit", "login", "submit", "send", "odoslať", "odoslat",
    "potvrdiť", "potvrdit", "confirm", "ok", "cancel", "zrušiť", "zrusit",
    "uložiť", "ulozit", "save", "delete", "vymazať", "vymazat", "edit",
    "upraviť", "upravit", "add", "pridať", "pridat", "remove", "odstrániť",
    "odstranit", "close", "zatvoriť", "zatvorit", "open", "otvoriť", "otvorit"]

  const InputKeywords: seq<string> := [
    "meno", "name", "heslo", "password", "email", "telefón", "telefon", "phone",
    "adresa", "address", "text", "správa", "sprava", "message", "komentár",
    "komentar", "comment", "popis", "description", "hľadať", "hladat", "search"]

  const LinkKeywords: seq<string> := [
    "http", "www", "link", "odkaz", "viac", "more", "info", "informácie",
    "informacie", "detail", "podrobnosti", "manual", "manuál", "návod",
    "navod", "help", "pomoc", "kontakt", "contact"]

  const CheckboxKeywords: seq<string> := [
    "checkbox", "check", "select", "vybrať", "vybrat", "označiť", "oznacit",
    "súhlas", "suhlas", "agree", "podmienky", "terms", "privacy", "súkromie",
    "sukromie"]

  /** Language selector captions, compared after upper-casing. */
  const LanguageCodes: seq<string> := ["SK", "EN", "DE", "CZ"]

  /** The text the classifier looks at: lower-cased and stripped OCR text. */
  function TypeText(e: UIElement): string { Strip(Lower(e.ocrText)) }

  /** The number of digits in `s`: as many as `s` keeps when everything but
      its digits is filtered out. */
  function DigitCount(s: string): (n: nat)
    ensures n == |Filter(s, IsDigit)|
    ensures n == 0 <==> forall i :: 0 <= i < |s| ==> !IsDigit(s[i])
  {
    if s == [] then 0 else (if IsDigit(s[0]) then 1 else 0) + DigitCount(s[1..])
  }

  /** Some digit, and either a '+' or at least six digits. */
  predicate LooksLikePhone(s: string) {
    DigitCount(s) > 0 && (Contains(s, "+") || DigitCount(s) >= 6)
  }

  predicate LooksLikeEmail(s: string) {
    Contains(s, "@") && Contains(s, ".")
  }

  /** The outcome of each text test of the classifier, in the order the
      cascade tries them. */
  datatype TextTests = TextTests(button: bool, input: bool, link: bool, checkbox: bool,
    phone: bool, email: bool, language: bool, manyWords: bool, digits: bool)

  function TestsOf(text: string): TextTests {
    TextTests(ContainsAny(text, ButtonKeywords), ContainsAny(text, InputKeywords),
      ContainsAny(text, LinkKeywords), ContainsAny(text, CheckboxKeywords),
      LooksLikePhone(text), LooksLikeEmail(text), OneOf(Upper(text), LanguageCodes),
      |Words(text)| > 5, IsDigits(text))
  }

  /** No text test holds. */
  predicate NoTextTest(k: TextTests) {
    !k.button && !k.input && !k.link && !k.checkbox && !k.phone && !k.email
    && !k.language && !k.manyWords && !k.digits
  }

  /** The ordered classification cascade. Without text the role follows the
      geometry alone; with text, keyword lists are tried in a fixed order
      (button, input, link, checkbox), then text patterns, then geometry. */
  function Decide(hasText: bool, k: TextTests, aspect: real, area: real): (t: ElementType)
    ensures t != Interactive
  {
    if !hasText then
      if aspect > 3.0 then Banner
      else if aspect < 0.5 then Icon
      else if area < 2000.0 then Icon
      else Container
    else if k.button then Button
    else if k.input then TextInput
    else if k.link then Link
    else if k.checkbox then Checkbox
    else if k.phone then PhoneNumber
    else if k.email then Email
    else if k.language then Dropdown
    else if k.manyWords then TextBlock
    else if k.digits then Number
    else if aspect > 2.0 then TextField
    else if area < 1000.0 then Icon
    else if aspect > 2.0 then TextField
    else Label
  }

  /** `_determine_element_type`: the cascade applied to the element's
      lower-cased, stripped OCR text and its box. */
  function DetermineElementType(e: UIElement): (t: ElementType)
    ensures t != Interactive
  {
    var text := TypeText(e);
    Decide(text != [], TestsOf(text), AspectRatio(e.bbox), Area(e.bbox))
  }

  /** Without text, geometry alone decides, and never yields a text role: a
      wide strip is a banner, anything else an icon or a container. */
  lemma GeometryOnlyWithoutText(e: UIElement)
    requires TypeText(e) == []
    ensures var t := DetermineElementType(e);
      (t == Banner || t == Icon || t == Container) && (t == Banner <==> AspectRatio(e.bbox) > 3.0)
      && (t == Icon <==> AspectRatio(e.bbox) <= 3.0 && (AspectRatio(e.bbox) < 0.5 || Area(e.bbox) < 2000.0))
      && (t == Container <==> 0.5 <= AspectRatio(e.bbox) <= 3.0 && Area(e.bbox) >= 2000.0)
  {
  }

  /** With text, a button keyword wins over everything else, and the
      geometry-only roles banner and container are never chosen. */
  lemma ButtonKeywordFirst(e: UIElement)
    requires TypeText(e) != []
    ensures var t := DetermineElementType(e);
      t != Banner && t != Container && (t == Button <==> ContainsAny(TypeText(e), ButtonKeywords))
  {
    var k := TestsOf(TypeText(e));
    assert k.button == ContainsAny(TypeText(e), ButtonKeywords);
    DecideWithText(k, AspectRatio(e.bbox), Area(e.bbox));
  }

  lemma DecideWithText(k: TextTests, aspect: real, area: real)
    ensures var t := Decide(true, k, aspect, area);
      t != Banner && t != Container && (t == Button <==> k.button)
  {
  }

  /** Each text role is chosen exactly when its own test is the first of the
      cascade to hold; with no test holding, geometry decides, and the second
      width test of the fallback can never fire: a wide text element is
      always a text field and never an icon. */
  lemma CascadeOrder(hasText: bool, k: TextTests, aspect: real, area: real)
    requires hasText
    ensures var t := Decide(hasText, k, aspect, area);
      (t == Button <==> k.button)
      && (t == TextInput <==> !k.button && k.input)
      && (t == Link <==> !k.button && !k.input && k.link)
      && (t == Checkbox <==> !k.button && !k.input && !k.link && k.checkbox)
      && (t == PhoneNumber <==> !k.button && !k.input && !k.link && !k.checkbox && k.phone)
      && (t == Email <==> !k.button && !k.input && !k.link && !k.checkbox && !k.phone && k.email)
    ensures var t := Decide(hasText, k, aspect, area);
      (t == Dropdown <==> NoTextTest(k.(language := false, manyWords := false, digits := false)) && k.language)
      && (t == TextBlock <==> NoTextTest(k.(manyWords := false, digits := false)) && k.manyWords)
      && (t == Number <==> NoTextTest(k.(digits := false)) && k.digits)
      && (t == TextField <==> NoTextTest(k) && aspect > 2.0)
      && (t == Label <==> NoTextTest(k) && aspect <= 2.0 && area >= 1000.0)
      && (t == Icon <==> NoTextTest(k) && aspect <= 2.0 && area < 1000.0)
  {
  }

  /** `c` is `e` with the role the cascade determines for `e`, and every
      other field as it was. */
  predicate Reclassified(c: UIElement, e: UIElement) {
    && c.elementType == DetermineElementType(e)
    && c.bbox == e.bbox && c.description == e.description
    && c.confidence == e.confidence && c.ocrText == e.ocrText
  }

  /** An element with its role assigned; nothing else about it changes. */
  function Classify(e: UIElement): (c: UIElement)
    ensures c.elementType != Interactive
    ensures Reclassified(c, e)
  {
    e.(elementType := DetermineElementType(e))
  }

  /** Every element with its role assigned, in place of the element itself. */
  function Classified(es: seq<UIElement>): (r: seq<UIElement>)
    ensures |r| == |es|
    ensures forall k :: 0 <= k < |es| ==> r[k].elementType != Interactive
    ensures forall k :: 0 <= k < |es| ==> Reclassified(r[k], es[k])
  {
    MapSeq(es, Classify)
  }

  /** The role depends only on the text and the box, so classifying a second
      time changes nothing. */
  lemma ClassifiedIdempotent(es: seq<UIElement>)
    ensures Classified(Classified(es)) == Classified(es)
  {
    var r := Classified(es);
    forall k | 0 <= k < |r|
      ensures Classified(r)[k] == r[k]
    {
      assert TypeText(r[k]) == TypeText(es[k]);
    }
  }

  /** Assigns each element its role in place; nothing else changes. */
  method ClassifyElementTypes(a: array<UIElement>)
    modifies a
    ensures a[..] == Classified(old(a[..]))
  {
    MapInPlace(a, Classify);
  }

  // ---------------------------------------------------------------------
  // Lookup and filtering

  /** The closed box of `e` contains the point. */
  predicate HitBy(e: UIElement, x: real, y: real) {
    e.bbox.x1 <= x <= e.bbox.x2 && e.bbox.y1 <= y <= e.bbox.y2
  }

  /** The first element, in list order, whose closed box contains the point. */
  function GetElementAtPosition(es: seq<UIElement>, x: real, y: real): (r: Option<UIElement>)
    ensures r.None? <==> forall k :: 0 <= k < |es| ==> !HitBy(es[k], x, y)
    ensures r.Some? ==> (exists k :: (0 <= k < |es| && es[k] == r.value && HitBy(es[k], x, y)
      && forall j :: 0 <= j < k ==> !HitBy(es[j], x, y)))
  {
    if es == [] then None
    else if HitBy(es[0], x, y) then Some(es[0])
    else
      var r := GetElementAtPosition(es[1..], x, y);
      if r.Some? then
        ghost var k :| 0 <= k < |es[1..]| && es[1..][k] == r.value && HitBy(es[1..][k], x, y)
          && forall j :: 0 <= j < k ==> !HitBy(es[1..][j], x, y);
        assert es[k + 1] == r.value;
        r
      else r
  }

  const DefaultMinConfidence: real := 0.5

  /** The elements at least as confident as `minConfidence`, in their
      original order. */
  function FilterByConfidence(es: seq<UIElement>, minConfidence: real): (r: seq<UIElement>)
    ensures |r| <= |es|
    ensures forall k :: 0 <= k < |r| ==> r[k].confidence >= minConfidence && r[k] in es
    ensures forall k :: 0 <= k < |es| && es[k].confidence >= minConfidence ==> es[k] in r
  {
    Filter(es, (e: UIElement) => e.confidence >= minConfidence)
  }

  /** The filter works element by element, so the kept elements keep their
      relative order. */
  lemma FilterByConfidenceOrder(a: seq<UIElement>, b: seq<UIElement>, minConfidence: real)
    ensures FilterByConfidence(a + b, minConfidence)
      == FilterByConfidence(a, minConfidence) + FilterByConfidence(b, minConfidence)
  {
    FilterAppend(a, b, (e: UIElement) => e.confidence >= minConfidence);
  }

  // ---------------------------------------------------------------------
  // OCR text per element

  const Padding: int := 5

  /** One text fragment read by the OCR engine. */
  datatype Fragment = Fragment(text: string, confidence: real)

  /** A crop rectangle in whole pixels: columns x1..x2, rows y1..y2. */
  datatype Crop = Crop(x1: int, y1: int, x2: int, y2: int)

  function IntMax(a: int, b: int): int { if a >= b then a else b }

  function IntMin(a: int, b: int): int { if a <= b then a else b }

  /** The padded crop around a box, clamped to the image: the start is never
      negative and the stop never beyond the image edge. */
  function CropFor(b: BBox, width: nat, height: nat): (c: Crop)
    ensures 0 <= c.x1 && 0 <= c.y1 && c.x2 <= width && c.y2 <= height
    ensures 0 <= Trunc(b.x1) - Padding ==> c.x1 == Trunc(b.x1) - Padding
    ensures 0 <= Trunc(b.y1) - Padding ==> c.y1 == Trunc(b.y1) - Padding
    ensures Trunc(b.x1) - Padding < 0 ==> c.x1 == 0
    ensures Trunc(b.y1) - Padding < 0 ==> c.y1 == 0
    ensures Trunc(b.x2) + Padding <= width ==> c.x2 == Trunc(b.x2) + Padding
    ensures Trunc(b.y2) + Padding <= height ==> c.y2 == Trunc(b.y2) + Padding
    ensures width < Trunc(b.x2) + Padding ==> c.x2 == width
    ensures height < Trunc(b.y2) + Padding ==> c.y2 == height
  {
    Crop(IntMax(0, Trunc(b.x1) - Padding), IntMax(0, Trunc(b.y1) - Padding),
      IntMin(width, Trunc(b.x2) + Padding), IntMin(height, Trunc(b.y2) + Padding))
  }

  /** Number of items in the slice `[start:stop]` of a length-`n` axis, for a
      non-negative start; a negative stop counts from the end. */
  function SliceLength(n: nat, start: nat, stop: int): (len: nat)
    ensures len <= n
    ensures 0 <= stop && start < stop <= n ==> len == stop - start
    ensures stop >= 0 && stop <= start ==> len == 0
  {
    var s := IntMin(start, n);
    var e := if stop < 0 then IntMax(0, stop + n) else IntMin(stop, n);
    if e > s then e - s else 0
  }

  /** The cropped region has no pixels. */
  predicate CropEmpty(c: Crop, width: nat, height: nat)
    requires 0 <= c.x1 && 0 <= c.y1
  {
    SliceLength(height, c.y1, c.y2) == 0 || SliceLength(width, c.x1, c.x2) == 0
  }

  /** A fragment the OCR engine reads with confidence above one half. */
  predicate Confident(f: Fragment) { f.confidence > 0.5 }

  function StrippedText(f: Fragment): string { Strip(f.text) }

  /** The confident fragments, each stripped: the stripped text of every
      confident fragment, in the order the engine returned them. */
  function ConfidentTexts(frags: seq<Fragment>): (r: seq<string>)
    ensures r == MapSeq(Filter(frags, Confident), StrippedText)
    ensures (forall k :: 0 <= k < |frags| ==> frags[k].confidence <= 0.5) ==> r == []
  {
    if frags == [] then []
    else
      var rest := ConfidentTexts(frags[1..]);
      if frags[0].confidence > 0.5 then
        var kept := Filter(frags, Confident);
        assert kept == [frags[0]] + Filter(frags[1..], Confident);
        assert kept[1..] == Filter(frags[1..], Confident);
        [Strip(frags[0].text)] + rest
      else rest
  }

  /** The new OCR text of an element, or `None` when its crop is empty and
      the element is skipped. `ocr` stands for the OCR engine: `None` is a
      failed read. */
  function OcrTextFor(e: UIElement, width: nat, height: nat, ocr: Crop -> Option<seq<Fragment>>): (r: Option<string>)
    ensures r.Some? && ocr(CropFor(e.bbox, width, height)).None? ==> r.value == ""
    ensures r.Some? && ocr(CropFor(e.bbox, width, height)).Some? ==>
      r.value == Join(" ", ConfidentTexts(ocr(CropFor(e.bbox, width, height)).value))
    ensures r.None? <==> CropEmpty(CropFor(e.bbox, width, height), width, height)
  {
    var c := CropFor(e.bbox, width, height);
    if CropEmpty(c, width, height) then None
    else match ocr(c) {
      case None => Some("")
      case Some(frags) => Some(Join(" ", ConfidentTexts(frags)))
    }
  }

  /** When some fragment is confident and no confident text holds a space,
      splitting the new OCR text at its spaces gives back the confident
      texts, in order. */
  lemma OcrTextSplits(e: UIElement, width: nat, height: nat, ocr: Crop -> Option<seq<Fragment>>)
    requires OcrTextFor(e, width, height, ocr).Some? && ocr(CropFor(e.bbox, width, height)).Some?
    requires var ts := ConfidentTexts(ocr(CropFor(e.bbox, width, height)).value);
      |ts| >= 1 && forall k :: 0 <= k < |ts| ==> ' ' !in ts[k]
    ensures SplitOn(OcrTextFor(e, width, height, ocr).value, " ")
      == ConfidentTexts(ocr(CropFor(e.bbox, width, height)).value)
  {
    SplitJoin(ConfidentTexts(ocr(CropFor(e.bbox, width, height)).value), ' ');
  }

  /** The element after OCR: unchanged when skipped. */
  function WithOcr(e: UIElement, width: nat, height: nat, ocr: Crop -> Option<seq<Fragment>>): UIElement {
    match OcrTextFor(e, width, height, ocr) {
      case None => e
      case Some(t) => e.(ocrText := t)
    }
  }

  /** The OCR step for a readable image of the given size. */
  function OcrStep(width: nat, height: nat, ocr: Crop -> Option<seq<Fragment>>): UIElement -> UIElement {
    e => WithOcr(e, width, height, ocr)
  }

  /** The list after OCR. Nothing happens without an OCR reader or when the
      image cannot be read (`image` is `None`); otherwise each element gets
      the text read from its padded crop, and only OCR texts change. */
  function Extracted(es: seq<UIElement>, readerAvailable: bool, image: Option<(nat, nat)>,
                     ocr: Crop -> Option<seq<Fragment>>): (r: seq<UIElement>)
    ensures |r| == |es|
    ensures forall k :: 0 <= k < |es| ==> r[k] == es[k].(ocrText := r[k].ocrText)
    ensures !readerAvailable || image.None? ==> r == es
    ensures readerAvailable && image.Some? ==> forall k :: 0 <= k < |es| ==>
      (OcrTextFor(es[k], image.value.0, image.value.1, ocr).None? ==> r[k] == es[k])
    ensures readerAvailable && image.Some? ==> forall k :: 0 <= k < |es| ==>
      (OcrTextFor(es[k], image.value.0, image.value.1, ocr).Some? ==>
         r[k].ocrText == OcrTextFor(es[k], image.value.0, image.value.1, ocr).value)
  {
    if !readerAvailable || image.None? then es
    else MapSeq(es, OcrStep(image.value.0, image.value.1, ocr))
  }

  /** Fills in each element's OCR text in place. */
  method ExtractOcrText(a: array<UIElement>, readerAvailable: bool, image: Option<(nat, nat)>,
                        ocr: Crop -> Option<seq<Fragment>>)
    modifies a
    ensures a[..] == Extracted(old(a[..]), readerAvailable, image, ocr)
  {
    if !readerAvailable || image.None? {
      return;
    }
    var (width, height) := image.value;
    MapInPlace(a, OcrStep(width, height, ocr));
  }

  /** The tail of detection: OCR when a reader is loaded, classification,
      then merging. The result never holds an element still typed
      interactive. */
  method PostProcess(a: array<UIElement>, readerAvailable: bool, image: Option<(nat, nat)>,
                     ocr: Crop -> Option<seq<Fragment>>) returns (r: seq<UIElement>)
    modifies a
    ensures r == MergedSpec(Classified(Extracted(old(a[..]), readerAvailable, image, ocr)))
    ensures forall k :: 0 <= k < |r| ==> r[k].elementType != Interactive
  {
    if readerAvailable {
      ExtractOcrText(a, readerAvailable, image, ocr);
    }
    ClassifyElementTypes(a);
    r := MergeOverlappingElements(a[..]);
    MergedKeepsTypes(a[..]);
  }
}
