/** Hand-written recognisers for the small regular expressions of the test
    parser. Each takes the (lower-cased) line and a position and returns where
    the construct ends, or None when it does not match there. Every construct
    used below is followed by something that cannot start with what it
    consumes, so the greedy choice is the only one the regex engine can
    succeed with and no backtracking has to be modelled. */
module Scan {
  import opened Wrappers
  import opened Text

  /** A captured group: the half-open range of positions it covers. */
  type Span = (nat, nat)

  predicate SpanIn(sp: Span, n: nat) {
    sp.0 <= sp.1 <= n
  }

  /** `\s+` from `i`: the end of a non-empty longest run of white space. */
  function Sep(s: string, i: nat): (r: Option<nat>)
    ensures r.Some? <==> i < |s| && IsSpace(s[i])
    ensures r.Some? ==> i < r.value <= |s| && (r.value == |s| || !IsSpace(s[r.value]))
    ensures r.Some? ==> forall k :: i <= k < r.value ==> IsSpace(s[k])
  {
    if i < |s| && IsSpace(s[i]) then Some(SpaceEnd(s, i)) else None
  }

  /** `\d*` from `i`: the end of the longest run of digits. */
  function DigitEnd(s: string, i: nat): (j: nat)
    requires i <= |s|
    ensures i <= j <= |s|
    ensures forall k :: i <= k < j ==> IsDigit(s[k])
    ensures j == |s| || !IsDigit(s[j])
    decreases |s| - i
  {
    if i < |s| && IsDigit(s[i]) then DigitEnd(s, i + 1) else i
  }

  /** `(?:w\s+)?` from `i`: past `w` and the white space after it when both
      are there, else `i` itself. */
  function OptWord(s: string, i: nat, w: string): (j: nat)
    requires i <= |s|
    ensures i <= j <= |s|
    ensures j > i <==> OccursAt(s, w, i) && Sep(s, i + |w|).Some?
  {
    if OccursAt(s, w, i) then
      match Sep(s, i + |w|)
      case Some(j) => j
      case None => i
    else i
  }

  /** `w0\s+w1\s+ … wn` from `i`: the words separated by white space; the
      position after the last word. */
  function Phrase(s: string, i: nat, ws: seq<string>): (r: Option<nat>)
    requires |ws| > 0
    ensures r.Some? ==> i <= r.value <= |s|
    ensures r.Some? ==> OccursAt(s, ws[0], i)
    decreases |ws|
  {
    if !OccursAt(s, ws[0], i) then None
    else if |ws| == 1 then Some(i + |ws[0]|)
    else
      match Sep(s, i + |ws[0]|)
      case None => None
      case Some(j) => Phrase(s, j, ws[1..])
  }

  /** The first `"` at or after `i`, or the end of `s`. */
  function QuoteEnd(s: string, i: nat): (j: nat)
    requires i <= |s|
    ensures i <= j <= |s|
    ensures forall k :: i <= k < j ==> s[k] != '"'
    ensures j == |s| || s[j] == '"'
    decreases |s| - i
  {
    if i < |s| && s[i] != '"' then QuoteEnd(s, i + 1) else i
  }

  /** The search for the next quote from `i` stops at `j`. */
  lemma {:induction false} QuoteEndAt(s: string, i: nat, j: nat)
    requires i <= j < |s| && s[j] == '"'
    requires forall k :: i <= k < j ==> s[k] != '"'
    ensures QuoteEnd(s, i) == j
    decreases j - i
  {
    if i < j {
      QuoteEndAt(s, i + 1, j);
    }
  }

  /** `"([^"]+)"` from `i`: the span of the quoted text, which is not empty
      and holds no quote. */
  function Quoted(s: string, i: nat): (r: Option<Span>)
    ensures r.Some? ==> r.value.0 == i + 1 && r.value.0 < r.value.1 < |s|
    ensures r.Some? ==> s[i] == '"' && s[r.value.1] == '"'
    ensures r.Some? ==> forall k :: r.value.0 <= k < r.value.1 ==> s[k] != '"'
    ensures r.None? <==> !(i < |s| && s[i] == '"' && QuoteEnd(s, i + 1) < |s| && QuoteEnd(s, i + 1) > i + 1)
  {
    if i < |s| && s[i] == '"' then
      var j := QuoteEnd(s, i + 1);
      if i + 1 < j < |s| then Some((i + 1, j)) else None
    else None
  }

  /** `\s+w1\s+w2\s+"([^"]+)"` from `i`: a keyword clause with a quoted
      argument; the argument's span and the position after the closing
      quote. */
  function Clause(s: string, i: nat, w1: string, w2: string): (r: Option<(Span, nat)>)
    ensures r.Some? ==> i < r.value.0.0 < r.value.0.1 < r.value.1 <= |s| && r.value.1 == r.value.0.1 + 1
  {
    match Sep(s, i)
    case None => None
    case Some(a) =>
      if !OccursAt(s, w1, a) then None
      else
        match Sep(s, a + |w1|)
        case None => None
        case Some(b) =>
          if !OccursAt(s, w2, b) then None
          else
            match Sep(s, b + |w2|)
            case None => None
            case Some(c) =>
              match Quoted(s, c)
              case None => None
              case Some(sp) => Some((sp, sp.1 + 1))
  }

  /** The integer, or the integer and fraction, written in `t` as matched by
      `\d+(?:\.\d+)?`: Python's `float(t)` on such a text. */
  function DecimalValue(t: string): real {
    var b := DigitEnd(t, 0);
    var whole := DigitsValue(t[..b]) as real;
    if b + 1 < |t| && t[b] == '.' && DigitEnd(t, b + 1) == |t| then
      whole + DigitsValue(t[b + 1..]) as real / Pow10(|t| - b - 1) as real
    else whole
  }

  /** The value of a whole number as the wait pattern writes it. */
  lemma DecimalOfNat(n: nat)
    ensures DecimalValue(NatToString(n)) == n as real
  {
    var t := NatToString(n);
    DigitsValueOf(n);
    assert DigitEnd(t, 0) == |t| by {
      DigitRun(t, 0);
    }
    assert t[..|t|] == t;
  }

  /** A text made of digits is one run of digits. */
  lemma {:induction false} DigitRun(t: string, i: nat)
    requires IsDigits(t) && i <= |t|
    ensures DigitEnd(t, i) == |t|
    decreases |t| - i
  {
    if i < |t| {
      DigitRun(t, i + 1);
    }
  }
}
