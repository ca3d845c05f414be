/** ASCII models of the Python string operations the tool relies on:
    `lower`, `upper`, `strip`, `split`, `in`, `replace`, `join` and `str(int)`.
    Letters outside ASCII are left as they are by every case mapping here. */
module Text {
  import opened Wrappers

  /** `str.isspace` on ASCII: tab, line feed, vertical tab, form feed,
      carriage return, the four information separators and the space. */
  predicate IsSpace(c: char) {
    c == ' ' || ('\t' <= c <= '\r') || ('\U{001C}' <= c <= '\U{001F}')
  }

  predicate IsDigit(c: char) { '0' <= c <= '9' }

  predicate IsUpperChar(c: char) { 'A' <= c <= 'Z' }

  predicate IsLowerChar(c: char) { 'a' <= c <= 'z' }

  /** No ASCII capital letter occurs in `s`. */
  predicate NoUpper(s: string) {
    forall i :: 0 <= i < |s| ==> !IsUpperChar(s[i])
  }

  /** Every character of `s` is white space (Python: `not s.strip()`). */
  predicate IsBlank(s: string) {
    forall i :: 0 <= i < |s| ==> IsSpace(s[i])
  }

  /** `s` is non-empty and made of decimal digits only (`str.isdigit`). */
  predicate IsDigits(s: string) {
    |s| > 0 && forall i :: 0 <= i < |s| ==> IsDigit(s[i])
  }

  function LowerChar(c: char): (d: char)
    ensures !IsUpperChar(d)
    ensures !IsUpperChar(c) ==> d == c
  {
    if IsUpperChar(c) then (c as int + 32) as char else c
  }

  function UpperChar(c: char): (d: char)
    ensures !IsLowerChar(d)
    ensures !IsLowerChar(c) ==> d == c
  {
    if IsLowerChar(c) then (c as int - 32) as char else c
  }

  /** `str.lower()`: lower-cases, keeps length, and is the identity on
      text that is already lower-case. */
  function Lower(s: string): (r: string)
    ensures |r| == |s| && NoUpper(r)
    ensures forall i :: 0 <= i < |s| ==> r[i] == LowerChar(s[i])
    ensures NoUpper(s) ==> r == s
  {
    seq(|s|, i requires 0 <= i < |s| => LowerChar(s[i]))
  }

  /** `str.upper()`. */
  function Upper(s: string): (r: string)
    ensures |r| == |s|
    ensures forall i :: 0 <= i < |s| ==> !IsLowerChar(r[i])
  {
    seq(|s|, i requires 0 <= i < |s| => UpperChar(s[i]))
  }

  /** `\s*` from `i`: the end of the longest run of white space. */
  function SpaceEnd(s: string, i: nat): (j: nat)
    requires i <= |s|
    ensures i <= j <= |s|
    ensures forall k :: i <= k < j ==> IsSpace(s[k])
    ensures j == |s| || !IsSpace(s[j])
    decreases |s| - i
  {
    if i < |s| && IsSpace(s[i]) then SpaceEnd(s, i + 1) else i
  }

  /** The run of white space from `i` ends at `j` whenever every character
      from `i` up to `j` is white space and the one at `j` is not. */
  lemma {:induction false} SpaceEndAt(s: string, i: nat, j: nat)
    requires i <= j < |s| && !IsSpace(s[j])
    requires forall k :: i <= k < j ==> IsSpace(s[k])
    ensures SpaceEnd(s, i) == j
    decreases j - i
  {
    if i < j {
      SpaceEndAt(s, i + 1, j);
    }
  }

  /** The start of the longest run of white space that ends at `j`. */
  function SpaceStart(s: string, j: nat): (i: nat)
    requires j <= |s|
    ensures i <= j
    ensures forall k :: i <= k < j ==> IsSpace(s[k])
    ensures i == 0 || !IsSpace(s[i - 1])
  {
    if j > 0 && IsSpace(s[j - 1]) then SpaceStart(s, j - 1) else j
  }

  /** `str.lstrip()`: the longest suffix that does not start with white space. */
  function LStrip(s: string): (r: string)
    ensures |r| <= |s| && r == s[|s| - |r|..]
    ensures r == [] || !IsSpace(r[0])
    ensures forall i :: 0 <= i < |s| - |r| ==> IsSpace(s[i])
  {
    s[SpaceEnd(s, 0)..]
  }

  /** `str.rstrip()`: the longest prefix that does not end with white space. */
  function RStrip(s: string): (r: string)
    ensures |r| <= |s| && r == s[..|r|]
    ensures r == [] || !IsSpace(r[|r| - 1])
    ensures forall i :: |r| <= i < |s| ==> IsSpace(s[i])
  {
    s[..SpaceStart(s, |s|)]
  }

  /** `str.strip()`: the slice of `s` that starts after its leading white
      space and leaves only white space after it, with no white space at
      either end; it is empty exactly when `s` is blank. */
  function Strip(s: string): (r: string)
    ensures |r| <= |s|
    ensures r == [] || (!IsSpace(r[0]) && !IsSpace(r[|r| - 1]))
    ensures r == [] <==> IsBlank(s)
    ensures SpaceEnd(s, 0) + |r| <= |s| && r == s[SpaceEnd(s, 0)..SpaceEnd(s, 0) + |r|]
    ensures forall k :: SpaceEnd(s, 0) + |r| <= k < |s| ==> IsSpace(s[k])
  {
    var l := LStrip(s);
    var r := RStrip(l);
    assert r != [] ==> r[0] == l[0];
    r
  }

  /** `s.startswith(p)`. */
  predicate StartsWith(s: string, p: string) {
    |p| <= |s| && s[..|p|] == p
  }

  /** `s.endswith(p)`. */
  predicate EndsWith(s: string, p: string) {
    |p| <= |s| && s[|s| - |p|..] == p
  }

  /** `p` occurs in `s` at offset `i`. */
  predicate OccursAt(s: string, p: string, i: int) {
    0 <= i && i + |p| <= |s| && s[i..i + |p|] == p
  }

  /** Whether `p` occurs at `i` depends only on the characters there. */
  lemma OccursAgree(s: string, t: string, p: string, i: nat)
    requires OccursAt(s, p, i) && i + |p| <= |t|
    requires forall k :: i <= k < i + |p| ==> t[k] == s[k]
    ensures OccursAt(t, p, i)
  {
    assert t[i..i + |p|] == s[i..i + |p|];
  }

  /** The first offset at or after `i` at which `p` occurs. */
  function IndexFrom(s: string, p: string, i: nat): (r: Option<nat>)
    ensures r.Some? ==> i <= r.value && OccursAt(s, p, r.value)
    ensures r.Some? ==> forall j :: i <= j < r.value ==> !OccursAt(s, p, j)
    ensures r.None? ==> forall j :: i <= j ==> !OccursAt(s, p, j)
    decreases |s| - i
  {
    if i + |p| > |s| then None
    else if s[i..i + |p|] == p then Some(i)
    else IndexFrom(s, p, i + 1)
  }

  /** `s.find(p)`: the first offset at which `p` occurs. */
  function IndexOf(s: string, p: string): (r: Option<nat>)
    ensures r.Some? ==> OccursAt(s, p, r.value)
    ensures r.Some? ==> forall j :: 0 <= j < r.value ==> !OccursAt(s, p, j)
    ensures r.None? ==> forall j :: !OccursAt(s, p, j)
  {
    IndexFrom(s, p, 0)
  }

  /** Python's `p in s` on strings: `p` is a prefix of some suffix of `s`. */
  predicate Contains(s: string, p: string) {
    StartsWith(s, p) || (s != [] && Contains(s[1..], p))
  }

  /** The first occurrence is the one with none before it. */
  lemma IndexOfFirst(s: string, p: string, i: nat)
    requires OccursAt(s, p, i)
    requires forall j :: 0 <= j < i ==> !OccursAt(s, p, j)
    ensures IndexOf(s, p) == Some(i)
  {
  }

  /** Contains holds exactly when `p` occurs in `s` at some offset. */
  lemma {:induction false} ContainsSpec(s: string, p: string)
    ensures Contains(s, p) <==> exists i :: OccursAt(s, p, i)
  {
    if s != [] {
      ContainsSpec(s[1..], p);
      forall j | OccursAt(s[1..], p, j) ensures OccursAt(s, p, j + 1) {
        assert s[1..][j..j + |p|] == s[j + 1..j + 1 + |p|];
      }
      forall i | OccursAt(s, p, i) && i > 0 ensures OccursAt(s[1..], p, i - 1) {
        assert s[1..][i - 1..i - 1 + |p|] == s[i..i + |p|];
      }
    }
    if StartsWith(s, p) {
      assert OccursAt(s, p, 0);
    }
  }

  /** A text lacking one of the characters of `p` does not contain `p`. */
  lemma {:induction false} MissingChar(s: string, p: string, c: char)
    requires c in p && c !in s
    ensures !Contains(s, p)
    decreases |s|
  {
    if s != [] {
      MissingChar(s[1..], p, c);
    }
  }

  /** Some word of `words` occurs in `s` (`any(w in s for w in words)`). */
  function ContainsAny(s: string, words: seq<string>): (b: bool)
    ensures b <==> exists i :: 0 <= i < |words| && Contains(s, words[i])
  {
    if words == [] then false
    else Contains(s, words[0]) || ContainsAny(s, words[1..])
  }

  /** `s in words` for a list of words. */
  function OneOf(s: string, words: seq<string>): (b: bool)
    ensures b <==> s in words
  {
    if words == [] then false else s == words[0] || OneOf(s, words[1..])
  }

  /** `s.split(sep)` for a non-empty separator: the pieces between the
      occurrences of `sep`; there is one piece more than there are occurrences. */
  function SplitOn(s: string, sep: string): (r: seq<string>)
    requires |sep| > 0
    ensures |r| >= 1
    ensures IndexOf(s, sep).None? ==> r == [s]
    ensures IndexOf(s, sep).Some? ==> |r| >= 2 && r[0] == s[..IndexOf(s, sep).value]
    decreases |s|
  {
    match IndexOf(s, sep)
    case None => [s]
    case Some(i) => [s[..i]] + SplitOn(s[i + |sep|..], sep)
  }

  /** Length of the run of non-space characters that starts `s`. */
  function NonSpaceRun(s: string): (k: nat)
    ensures k <= |s|
    ensures forall i :: 0 <= i < k ==> !IsSpace(s[i])
    ensures k == |s| || IsSpace(s[k])
  {
    if s == [] || IsSpace(s[0]) then 0 else 1 + NonSpaceRun(s[1..])
  }

  /** `s.split()`: the maximal runs of non-space characters, in order (see
      WordsCons). */
  function Words(s: string): (r: seq<string>)
    ensures forall k :: 0 <= k < |r| ==> IsWord(r[k])
    decreases |s|
  {
    if s == [] then []
    else if IsSpace(s[0]) then Words(s[1..])
    else
      var k := NonSpaceRun(s);
      [s[..k]] + Words(s[k..])
  }

  /** A word: a non-empty text with no white space in it. */
  predicate IsWord(w: string) {
    w != [] && forall i :: 0 <= i < |w| ==> !IsSpace(w[i])
  }

  /** Leading white space does not change the words. */
  lemma {:induction false} WordsSkipSpace(s: string, i: nat)
    requires i <= |s| && forall k :: 0 <= k < i ==> IsSpace(s[k])
    ensures Words(s) == Words(s[i..])
  {
    if i > 0 {
      WordsSkipSpace(s[1..], i - 1);
      assert s[1..][i - 1..] == s[i..];
    }
  }

  /** The run of non-space characters ends at the first white space. */
  lemma {:induction false} NonSpaceRunAt(t: string, m: nat)
    requires m <= |t| && (m == |t| || IsSpace(t[m]))
    requires forall i :: 0 <= i < m ==> !IsSpace(t[i])
    ensures NonSpaceRun(t) == m
  {
    if m > 0 {
      NonSpaceRunAt(t[1..], m - 1);
    }
  }

  /** A word alone is its own only word. */
  lemma WordsOfWord(w: string)
    requires IsWord(w)
    ensures Words(w) == [w]
  {
    NonSpaceRunAt(w, |w|);
    assert w[..|w|] == w && w[|w|..] == [];
  }

  /** A word followed by white space comes first, and the words of the rest
      follow; with WordsSkipSpace and WordsOfWord this fixes `Words` on
      every text. */
  lemma WordsCons(w: string, c: char, s: string)
    requires IsWord(w) && IsSpace(c)
    ensures Words(w + [c] + s) == [w] + Words(s)
  {
    var t := w + [c] + s;
    forall i | 0 <= i < |w| ensures !IsSpace(t[i]) {
      assert t[i] == w[i];
    }
    NonSpaceRunAt(t, |w|);
    assert t[..|w|] == w;
    assert t[|w|..] == [c] + s && ([c] + s)[1..] == s;
  }

  /** `sep.join(parts)`. */
  function Join(sep: string, parts: seq<string>): string {
    if parts == [] then ""
    else if |parts| == 1 then parts[0]
    else parts[0] + sep + Join(sep, parts[1..])
  }

  /** Joining on a character none of the parts holds and splitting on it
      again gives the parts back. */
  lemma {:induction false} SplitJoin(parts: seq<string>, c: char)
    requires |parts| >= 1 && forall k :: 0 <= k < |parts| ==> c !in parts[k]
    ensures SplitOn(Join([c], parts), [c]) == parts
  {
    var p := parts[0];
    forall j | 0 <= j && j + 1 <= |p| ensures !OccursAt(p, [c], j) {
      assert p[j..j + 1] == [p[j]];
    }
    if |parts| > 1 {
      var rest := Join([c], parts[1..]);
      var s := p + [c] + rest;
      assert s[|p|..|p| + 1] == [c];
      forall j | 0 <= j < |p| ensures !OccursAt(s, [c], j) {
        assert s[j..j + 1] == [p[j]];
      }
      IndexOfFirst(s, [c], |p|);
      assert s[..|p|] == p && s[|p| + 1..] == rest;
      SplitJoin(parts[1..], c);
      assert parts == [p] + parts[1..];
    }
  }

  /** `s.replace(c, '')` for one character. */
  function RemoveChar(s: string, c: char): (r: string)
    ensures |r| <= |s|
    ensures forall i :: 0 <= i < |r| ==> r[i] != c
    ensures (forall i :: 0 <= i < |s| ==> s[i] != c) ==> r == s
    ensures multiset(r) == multiset(s)[c := 0]
  {
    if s == [] then []
    else
      assert s == [s[0]] + s[1..];
      if s[0] == c then RemoveChar(s[1..], c)
      else [s[0]] + RemoveChar(s[1..], c)
  }

  /** Removal works character by character, so the characters it keeps
      stay in their order. */
  lemma {:induction false} RemoveCharAppend(a: string, b: string, c: char)
    ensures RemoveChar(a + b, c) == RemoveChar(a, c) + RemoveChar(b, c)
  {
    if a != [] {
      assert (a + b)[1..] == a[1..] + b;
      RemoveCharAppend(a[1..], b, c);
    } else {
      assert a + b == b;
    }
  }

  /** `s.replace(pat, rep)`: every occurrence of `pat`, found left to right
      without overlap, is replaced by `rep`; an empty `pat` occurs before
      every character and at the end. */
  function ReplaceAll(s: string, pat: string, rep: string): (r: string)
    ensures NoUpper(s) && NoUpper(rep) ==> NoUpper(r)
    ensures !Contains(s, pat) ==> r == s
    decreases |s|
  {
    if pat == [] then
      assert StartsWith(s, pat);
      if s == [] then rep else rep + [s[0]] + ReplaceAll(s[1..], pat, rep)
    else if |s| < |pat| then s
    else if s[..|pat|] == pat then rep + ReplaceAll(s[|pat|..], pat, rep)
    else
      assert s == [s[0]] + s[1..];
      [s[0]] + ReplaceAll(s[1..], pat, rep)
  }

  /** One step of the replacement: the text before the first occurrence of
      a non-empty `pat` is kept, that occurrence becomes `rep`, and the rest
      of the text is treated in the same way. */
  lemma ReplaceAllFirst(s: string, pat: string, rep: string, i: nat)
    requires pat != [] && IndexOf(s, pat) == Some(i)
    ensures ReplaceAll(s, pat, rep) == s[..i] + rep + ReplaceAll(s[i + |pat|..], pat, rep)
  {
    ReplaceAt(s, pat, rep, i, s[i + |pat|..]);
  }

  /** ReplaceAllFirst, stated with the first occurrence spelled out and the
      text after it named `tail`. */
  lemma {:induction false} ReplaceAt(s: string, pat: string, rep: string, i: nat, tail: string)
    requires pat != [] && OccursAt(s, pat, i) && tail == s[i + |pat|..]
    requires forall j :: 0 <= j < i ==> !OccursAt(s, pat, j)
    ensures ReplaceAll(s, pat, rep) == s[..i] + rep + ReplaceAll(tail, pat, rep)
    decreases i
  {
    if i == 0 {
      ReplaceAtStart(s, pat, rep, i, tail);
    } else {
      FirstOccurrenceTail(s, pat, i, tail);
      ReplaceAt(s[1..], pat, rep, i - 1, tail);
      ReplaceSkip(s, pat, rep, i, tail);
    }
  }

  /** A first character where the pattern does not start is kept. */
  lemma ReplaceSkip(s: string, pat: string, rep: string, i: nat, tail: string)
    requires pat != [] && 0 < i && OccursAt(s, pat, i) && !OccursAt(s, pat, 0)
    requires ReplaceAll(s[1..], pat, rep) == s[1..][..i - 1] + rep + ReplaceAll(tail, pat, rep)
    ensures ReplaceAll(s, pat, rep) == s[..i] + rep + ReplaceAll(tail, pat, rep)
  {
    SliceTail(s, i, i + |pat|);
    ReplaceCons(s, pat, rep);
    ConsAssoc(s[0], s[1..][..i - 1], rep, ReplaceAll(tail, pat, rep));
  }

  /** A pattern at the very start is replaced first. */
  lemma ReplaceAtStart(s: string, pat: string, rep: string, i: nat, tail: string)
    requires pat != [] && i == 0 && OccursAt(s, pat, i) && tail == s[i + |pat|..]
    ensures ReplaceAll(s, pat, rep) == s[..i] + rep + ReplaceAll(tail, pat, rep)
  {
    assert tail == s[|pat|..];
    assert s[..|pat|] == pat;
    assert ReplaceAll(s, pat, rep) == rep + ReplaceAll(tail, pat, rep);
    assert s[..i] + rep == rep;
  }

  /** Replacement past a first character where the pattern does not start. */
  lemma ReplaceCons(s: string, pat: string, rep: string)
    requires pat != [] && |pat| <= |s| && !OccursAt(s, pat, 0)
    ensures ReplaceAll(s, pat, rep) == [s[0]] + ReplaceAll(s[1..], pat, rep)
  {
  }

  lemma ConsAssoc(c: char, a: string, b: string, d: string)
    ensures [c] + (a + b + d) == ([c] + a) + b + d
  {
  }

  /** Slices of `s[1..]` are the slices of `s` one place further on. */
  lemma SliceTail(s: string, i: nat, k: nat)
    requires 0 < i <= k <= |s|
    ensures [s[0]] + s[1..][..i - 1] == s[..i]
    ensures s[1..][k - 1..] == s[k..]
  {
  }

  /** Past the first character, every occurrence moves one place to the
      front. */
  lemma OccursTail(s: string, p: string, j: nat)
    requires s != []
    ensures OccursAt(s[1..], p, j) <==> OccursAt(s, p, j + 1)
  {
    if j + |p| <= |s[1..]| {
      assert s[1..][j..j + |p|] == s[j + 1..j + 1 + |p|];
    }
  }

  /** Past a first character where `p` does not start, its first
      occurrence is one place nearer the front. */
  lemma FirstOccurrenceTail(s: string, p: string, i: nat, tail: string)
    requires 0 < i && OccursAt(s, p, i) && tail == s[i + |p|..]
    requires forall j :: 0 <= j < i ==> !OccursAt(s, p, j)
    ensures OccursAt(s[1..], p, i - 1) && tail == s[1..][i - 1 + |p|..] && !OccursAt(s, p, 0)
    ensures forall j :: 0 <= j < i - 1 ==> !OccursAt(s[1..], p, j)
  {
    assert s[1..][i - 1 + |p|..] == s[i + |p|..];
    OccursTail(s, p, i - 1);
    forall j | 0 <= j < i - 1 ensures !OccursAt(s[1..], p, j) {
      OccursTail(s, p, j);
    }
  }

  /** Replacing a pattern by itself changes nothing. */
  lemma {:induction false} ReplaceSelf(s: string, p: string)
    ensures ReplaceAll(s, p, p) == s
    decreases |s|
  {
    if p == [] {
      if s != [] {
        ReplaceSelf(s[1..], p);
        assert s == [s[0]] + s[1..];
      }
    } else if |s| < |p| {
    } else if s[..|p|] == p {
      ReplaceSelf(s[|p|..], p);
      assert s == s[..|p|] + s[|p|..];
    } else {
      ReplaceSelf(s[1..], p);
      assert s == [s[0]] + s[1..];
    }
  }

  /** Lower-casing keeps white space where it is. */
  lemma LowerBlank(s: string)
    ensures IsBlank(Lower(s)) <==> IsBlank(s)
  {
    assert forall i :: 0 <= i < |s| ==> (IsSpace(LowerChar(s[i])) <==> IsSpace(s[i]));
  }

  function DigitChar(d: nat): (c: char)
    requires d < 10
    ensures IsDigit(c)
  {
    ('0' as int + d) as char
  }

  /** `str(n)` for a natural number. */
  function NatToString(n: nat): (r: string)
    ensures IsDigits(r)
  {
    if n < 10 then [DigitChar(n)] else NatToString(n / 10) + [DigitChar(n % 10)]
  }

  /** The value of a string of decimal digits. */
  function DigitsValue(s: string): nat
    requires forall i :: 0 <= i < |s| ==> IsDigit(s[i])
  {
    if s == [] then 0
    else
      assert IsDigit(s[|s| - 1]);
      10 * DigitsValue(s[..|s| - 1]) + (s[|s| - 1] as int - '0' as int)
  }

  /** Decimal digits read back as the number they write. */
  lemma {:induction false} DigitsValueOf(n: nat)
    ensures DigitsValue(NatToString(n)) == n
  {
    var s := NatToString(n);
    if n >= 10 {
      DigitsValueOf(n / 10);
      assert s[..|s| - 1] == NatToString(n / 10);
    }
  }

  /** A leading zero does not change the value. */
  lemma {:induction false} LeadingZero(s: string)
    requires forall i :: 0 <= i < |s| ==> IsDigit(s[i])
    ensures DigitsValue("0" + s) == DigitsValue(s)
  {
    if s != [] {
      var t := "0" + s;
      assert t[..|t| - 1] == "0" + s[..|s| - 1];
      LeadingZero(s[..|s| - 1]);
    }
  }

  /** `str(i)` for an integer: the sign when negative, then the digits of
      the magnitude, which read back as that magnitude. */
  function IntToString(i: int): (r: string)
    ensures |r| > 0
    ensures i >= 0 ==> IsDigits(r) && DigitsValue(r) == i
    ensures i < 0 ==> r[0] == '-' && IsDigits(r[1..]) && DigitsValue(r[1..]) == -i
  {
    if i < 0 then
      DigitsValueOf(-i);
      assert ("-" + NatToString(-i))[1..] == NatToString(-i);
      "-" + NatToString(-i)
    else
      DigitsValueOf(i);
      NatToString(i)
  }

  function Pow10(n: nat): (r: nat)
    ensures r >= 1
  {
    if n == 0 then 1 else 10 * Pow10(n - 1)
  }

  /** Python's `int(x)` on a float: truncation toward zero. */
  function Trunc(x: real): (r: int)
    ensures x >= 0.0 ==> r as real <= x < r as real + 1.0
    ensures x < 0.0 ==> r as real - 1.0 < x <= r as real
  {
    if x >= 0.0 then x.Floor else -((-x).Floor)
  }
}
