/** LIKE and GLOB (func.c:400-565): what a pattern means, and the matcher.  LIKE is
    section 8.5 of ISO/IEC 9075:1992. */
module Pattern {

  /** A character as a code point; 0 stands for no character. */
  type Char = nat

  /** Which characters are special, 0 for none, and whether case is ignored. */
  datatype Info = Info(matchAll: Char, matchOne: Char, matchSet: Char, noCase: bool, esc: Char)

  const CARET: Char := 94
  const DASH: Char := 45
  const CLOSE: Char := 93

  /** LIKE has escapes but no sets, GLOB has sets but no escapes. */
  predicate Valid(f: Info) {
    f.matchAll != 0 && f.matchOne != 0 && f.matchAll != f.matchOne && (f.esc == 0 || f.matchSet == 0)
    && f.matchSet != f.matchAll && f.matchSet != f.matchOne
  }

  predicate Text(s: seq<Char>) {
    forall i | 0 <= i < |s| :: s[i] != 0
  }

  /** The lower case of an ASCII letter. */
  function Lower(c: Char): Char {
    if 65 <= c <= 90 then c + 32 else c
  }

  /** Two characters are alike without case just when they are equal or the two cases of
      one ASCII letter. */
  lemma LowerAlike(c: Char, d: Char)
    ensures Lower(c) == Lower(d) <==> c == d || (65 <= c <= 90 && d == c + 32) || (65 <= d <= 90 && c == d + 32)
  {
  }

  function Fold(f: Info, c: Char): Char {
    if f.noCase then Lower(c) else c
  }

  // ---------------------------------------------------------------------
  // Sets
  // ---------------------------------------------------------------------

  /** The first closing bracket from k on; |p| if there is none. */
  function SetEnd(p: seq<Char>, k: nat): (e: nat)
    requires k <= |p|
    ensures k <= e <= |p| && (e < |p| ==> p[e] == CLOSE) && forall j | k <= j < e :: p[j] != CLOSE
    decreases |p| - k
  {
    if k == |p| || p[k] == CLOSE then k else SetEnd(p, k + 1)
  }

  predicate Inverted(p: seq<Char>, k: nat) {
    k < |p| && p[k] == CARET
  }

  /** Where the list starts, past a caret. */
  function ListStart(p: seq<Char>, k: nat): nat {
    if Inverted(p, k) then k + 1 else k
  }

  /** Where the list goes on, past a bracket that stands for itself because it is
      the first. */
  function AfterBracket(p: seq<Char>, k: nat): nat {
    var b := ListStart(p, k);
    if b < |p| && p[b] == CLOSE then b + 1 else b
  }

  /** Is c in the list of characters and ranges p[k..e]?  prior is the character
      that a range could start with. */
  predicate InList(p: seq<Char>, k: nat, e: nat, prior: Char, c: Char)
    requires e <= |p|
    decreases e - k
  {
    if k >= e then false
    else if p[k] == DASH && k + 1 < e && prior > 0 then prior <= c <= p[k + 1] || InList(p, k + 2, e, 0, c)
    else c == p[k] || InList(p, k + 1, e, p[k], c)
  }

  /** Does the set whose text starts at k contain c? */
  predicate InSet(p: seq<Char>, k: nat, c: Char)
    requires AfterBracket(p, k) <= |p|
  {
    var b := ListStart(p, k);
    var listed := (b < |p| && p[b] == CLOSE && c == CLOSE) || InList(p, AfterBracket(p, k), SetEnd(p, AfterBracket(p, k)), 0, c);
    listed != Inverted(p, k)
  }

  /** A part of a set: a character, or a range up from the character before it. */
  datatype Elem = One(c: Char) | To(lo: Char, hi: Char)

  predicate Has(el: Elem, c: Char) {
    match el case One(x) => c == x case To(lo, hi) => lo <= c <= hi
  }

  /** A dash is read as a range where there is a character before it that does not
      end a range itself, and one after it. */
  function Elems(p: seq<Char>, k: nat, e: nat, prior: Char): seq<Elem>
    requires e <= |p|
    decreases e - k
  {
    if k >= e then []
    else if p[k] == DASH && k + 1 < e && prior > 0 then [To(prior, p[k + 1])] + Elems(p, k + 2, e, 0)
    else [One(p[k])] + Elems(p, k + 1, e, p[k])
  }

  function Spelled(els: seq<Elem>): seq<Char> {
    if els == [] then [] else (match els[0] case One(c) => [c] case To(_, hi) => [DASH, hi]) + Spelled(els[1..])
  }

  /** The parts spell out the text of the set, and a range starts from the
      character just before it. */
  lemma {:induction false} ElemsSpell(p: seq<Char>, k: nat, e: nat, prior: Char)
    requires k <= e <= |p|
    ensures Spelled(Elems(p, k, e, prior)) == p[k..e]
    ensures var els := Elems(p, k, e, prior);
      forall i | 0 <= i < |els| && els[i].To? :: if i == 0 then els[i].lo == prior else els[i - 1] == One(els[i].lo)
    decreases e - k
  {
    if k < e {
      var els := Elems(p, k, e, prior);
      var n, next := if els[0].To? then 2 else 1, if els[0].To? then 0 else p[k];
      ElemsSpell(p, k + n, e, next);
      assert els[1..] == Elems(p, k + n, e, next);
      assert p[k..e] == p[k..k + n] + p[k + n..e];
    }
  }

  ghost predicate SomeHas(els: seq<Elem>, c: Char) {
    exists i :: 0 <= i < |els| && Has(els[i], c)
  }

  lemma {:induction false} ListIsElems(p: seq<Char>, k: nat, e: nat, prior: Char, c: Char)
    requires e <= |p|
    ensures InList(p, k, e, prior, c) <==> SomeHas(Elems(p, k, e, prior), c)
    decreases e - k
  {
    if k < e {
      var els := Elems(p, k, e, prior);
      var n, next := if els[0].To? then 2 else 1, if els[0].To? then 0 else p[k];
      ListIsElems(p, k + n, e, next, c);
      var rest := Elems(p, k + n, e, next);
      assert els == [els[0]] + rest;
      if SomeHas(rest, c) {
        var i :| 0 <= i < |rest| && Has(rest[i], c);
        assert els[i + 1] == rest[i];
      }
      if SomeHas(els, c) && !Has(els[0], c) {
        var i :| 0 <= i < |els| && Has(els[i], c);
        assert rest[i - 1] == els[i];
      }
    }
  }

  /** A set contains c when some part of it does, or, after a caret, when none
      does; a closing bracket that comes first stands for itself. */
  lemma SetMeans(p: seq<Char>, k: nat, c: Char)
    requires AfterBracket(p, k) <= |p|
    ensures var b := ListStart(p, k);
      var bracket := b < |p| && p[b] == CLOSE && c == CLOSE;
      InSet(p, k, c) <==> Inverted(p, k) != (bracket || SomeHas(Elems(p, AfterBracket(p, k), SetEnd(p, AfterBracket(p, k)), 0), c))
  {
    ListIsElems(p, AfterBracket(p, k), SetEnd(p, AfterBracket(p, k)), 0, c);
  }

  /** The place after the set whose text starts at k, past |p| if it is not
      closed. */
  function AfterSet(p: seq<Char>, k: nat): (e: nat)
    requires k <= |p|
    ensures e > k
  {
    if AfterBracket(p, k) > |p| then |p| + 1 else SetEnd(p, AfterBracket(p, k)) + 1
  }

  // ---------------------------------------------------------------------
  // The language of a pattern
  // ---------------------------------------------------------------------

  /** Does p[i..] match s[j..]?  An escape at the very end matches nothing when
      strict; the matcher lets it pass unless a run of wildcards (star) comes
      before it. */
  ghost predicate Lang(f: Info, p: seq<Char>, i: nat, s: seq<Char>, j: nat, strict: bool, star: bool)
    requires j <= |s|
    decreases |p| - i, 0, 0
  {
    if i >= |p| then j == |s|
    else if p[i] == f.matchAll then SomeSuffix(f, p, i + 1, s, j, strict)
    else if p[i] == f.matchOne then j < |s| && Lang(f, p, i + 1, s, j + 1, strict, star)
    else if p[i] == f.esc && f.esc != 0 then
      if i + 1 == |p| then !strict && !star && j == |s|
      else j < |s| && Fold(f, p[i + 1]) == Fold(f, s[j]) && Lang(f, p, i + 2, s, j + 1, strict, false)
    else if p[i] == f.matchSet && f.matchSet != 0 then
      && j < |s| && AfterSet(p, i + 1) <= |p| && InSet(p, i + 1, s[j])
      && Lang(f, p, AfterSet(p, i + 1), s, j + 1, strict, false)
    else j < |s| && Fold(f, p[i]) == Fold(f, s[j]) && Lang(f, p, i + 1, s, j + 1, strict, false)
  }

  /** Some suffix of s[j..] matches p[i..], which comes after a star. */
  ghost predicate SomeSuffix(f: Info, p: seq<Char>, i: nat, s: seq<Char>, j: nat, strict: bool)
    requires j <= |s|
    decreases |p| - i, 1, |s| - j
  {
    Lang(f, p, i, s, j, strict, true) || (j < |s| && SomeSuffix(f, p, i, s, j + 1, strict))
  }

  lemma {:induction false} SplitFound(f: Info, p: seq<Char>, i: nat, s: seq<Char>, j: nat, strict: bool, k: nat)
    requires j <= k <= |s| && Lang(f, p, i, s, k, strict, true)
    ensures SomeSuffix(f, p, i, s, j, strict)
    decreases |s| - j
  {
    if j < k { SplitFound(f, p, i, s, j + 1, strict, k); }
  }

  lemma {:induction false} FindSplit(f: Info, p: seq<Char>, i: nat, s: seq<Char>, j: nat, strict: bool) returns (k: nat)
    requires j <= |s| && SomeSuffix(f, p, i, s, j, strict)
    ensures j <= k <= |s| && Lang(f, p, i, s, k, strict, true)
    decreases |s| - j
  {
    k := j;
    if !Lang(f, p, i, s, j, strict, true) { k := FindSplit(f, p, i, s, j + 1, strict); }
  }

  /** The rest of the pattern after a star matches from k on. */
  ghost predicate SplitAt(f: Info, p: seq<Char>, i: nat, s: seq<Char>, j: nat, strict: bool, k: nat) {
    j <= k <= |s| && Lang(f, p, i, s, k, strict, true)
  }

  /** A star stands for any split of the string. */
  lemma StarSplits(f: Info, p: seq<Char>, i: nat, s: seq<Char>, j: nat, strict: bool, star: bool)
    requires j <= |s| && i < |p| && p[i] == f.matchAll
    ensures var next := i + 1;
      Lang(f, p, i, s, j, strict, star) <==> exists k: nat :: SplitAt(f, p, next, s, j, strict, k)
  {
    var next := i + 1;
    if Lang(f, p, i, s, j, strict, star) {
      var k := FindSplit(f, p, next, s, j, strict);
      assert SplitAt(f, p, next, s, j, strict, k);
    }
    forall k: nat | SplitAt(f, p, next, s, j, strict, k) ensures Lang(f, p, i, s, j, strict, star) {
      SplitFound(f, p, next, s, j, strict, k);
    }
  }

  /** A star in a run of wildcards adds nothing. */
  lemma {:induction false} StarInRun(f: Info, p: seq<Char>, i: nat, s: seq<Char>, j: nat, strict: bool)
    requires i < |p| && p[i] == f.matchAll && j <= |s|
    ensures SomeSuffix(f, p, i, s, j, strict) <==> SomeSuffix(f, p, i + 1, s, j, strict)
    decreases |s| - j
  {
    if j < |s| { StarInRun(f, p, i, s, j + 1, strict); }
  }

  /** A one-character wildcard in a run takes one character off the string. */
  lemma {:induction false} OneInRun(f: Info, p: seq<Char>, i: nat, s: seq<Char>, j: nat, strict: bool)
    requires Valid(f) && i < |p| && p[i] == f.matchOne && j <= |s|
    ensures SomeSuffix(f, p, i, s, j, strict) <==> j < |s| && SomeSuffix(f, p, i + 1, s, j + 1, strict)
    decreases |s| - j
  {
    if j < |s| { OneInRun(f, p, i, s, j + 1, strict); }
  }

  /** After a run of wildcards an escape at the end matches nothing. */
  lemma {:induction false} BareInRun(f: Info, p: seq<Char>, i: nat, s: seq<Char>, j: nat)
    requires i + 1 == |p| && p[i] == f.esc && f.esc != 0 && f.esc != f.matchAll && f.esc != f.matchOne && j <= |s|
    ensures !SomeSuffix(f, p, i, s, j, false)
    decreases |s| - j
  {
    if j < |s| { BareInRun(f, p, i, s, j + 1); }
  }

  // ---------------------------------------------------------------------
  // The matcher
  // ---------------------------------------------------------------------

  /** The character at i, or 0 past the end. */
  function At(s: seq<Char>, i: nat): Char {
    if i < |s| then s[i] else 0
  }

  /** The loop over a set: reads the list up to its end. */
  method MatchSet(p: seq<Char>, k: nat, c: Char) returns (matched: bool, next: nat)
    requires Text(p) && c != 0 && k <= |p|
    ensures matched <==> AfterSet(p, k) <= |p| && InSet(p, k, c)
    ensures matched ==> next == AfterSet(p, k)
  {
    var seen, invert, prior: Char, i: nat := false, false, 0, k;
    if At(p, i) == CARET {
      invert := true;
      i := i + 1;
    }
    if At(p, i) == CLOSE {
      seen := c == CLOSE;
      i := i + 1;
    }
    if i > |p| { return false, i; }
    ghost var b, e := i, SetEnd(p, i);
    ghost var first := seen;
    while At(p, i) != 0 && At(p, i) != CLOSE
      invariant b <= i <= e
      invariant (seen || InList(p, i, e, prior, c)) <==> (first || InList(p, b, e, 0, c))
      decreases |p| - i
    {
      if p[i] == DASH && At(p, i + 1) != CLOSE && At(p, i + 1) != 0 && prior > 0 {
        if prior <= c <= p[i + 1] { seen := true; }
        prior, i := 0, i + 2;
      } else {
        if c == p[i] { seen := true; }
        prior, i := p[i], i + 1;
      }
    }
    if i >= |p| || seen == invert { return false, i; }
    return true, i + 1;
  }

  predicate Ready(f: Info, p: seq<Char>, s: seq<Char>) {
    Valid(f) && Text(p) && Text(s)
  }

  /** The run of wildcards after a star: one-character wildcards take characters
      off the string, stars add nothing. */
  method SkipRun(f: Info, p: seq<Char>, start: nat, s: seq<Char>, from: nat) returns (ok: bool, i: nat, j: nat)
    requires Ready(f, p, s) && start <= |p| && from <= |s|
    ensures !ok ==> !SomeSuffix(f, p, start, s, from, false)
    ensures ok ==> start <= i <= |p| && from <= j <= |s| && At(p, i) != f.matchAll && At(p, i) != f.matchOne
    ensures ok ==> (SomeSuffix(f, p, start, s, from, false) <==> SomeSuffix(f, p, i, s, j, false))
  {
    i, j := start, from;
    while At(p, i) == f.matchAll || At(p, i) == f.matchOne
      invariant start <= i <= |p| && from <= j <= |s|
      invariant SomeSuffix(f, p, start, s, from, false) <==> SomeSuffix(f, p, i, s, j, false)
      decreases |p| - i
    {
      if p[i] == f.matchOne {
        OneInRun(f, p, i, s, j, false);
        if At(s, j) == 0 { return false, i, j; }
        j := j + 1;
      } else {
        StarInRun(f, p, i, s, j, false);
      }
      i := i + 1;
    }
    ok := true;
  }

  /** After a star and a run of wildcards, a character that stands for itself
      must be found, with the rest of the pattern matching after it. */
  lemma FindLiteral(f: Info, p: seq<Char>, i: nat, s: seq<Char>, j: nat, d: Char, next: nat)
    requires Ready(f, p, s) && i < |p| && j <= |s| && p[i] != f.matchAll && p[i] != f.matchOne && d != 0
    requires if p[i] == f.esc then i + 1 < |p| && d == p[i + 1] && next == i + 2
             else d == p[i] && next == i + 1 && (p[i] != f.matchSet || f.matchSet == 0)
    ensures Lang(f, p, i, s, j, false, true) <==> j < |s| && Fold(f, d) == Fold(f, s[j]) && Lang(f, p, next, s, j + 1, false, false)
  {
  }

  /** What is left to match: the next character, after an escape, stands for
      itself. */
  ghost predicate Left(f: Info, p: seq<Char>, i: nat, s: seq<Char>, j: nat, prevEscape: bool)
    requires j <= |s|
  {
    if prevEscape then
      if i >= |p| then j == |s|
      else j < |s| && Fold(f, p[i]) == Fold(f, s[j]) && Lang(f, p, i + 1, s, j + 1, false, false)
    else Lang(f, p, i, s, j, false, false)
  }

  /** patternCompare on p[start..] and s[from..]. */
  method PatternCompare(f: Info, p: seq<Char>, start: nat, s: seq<Char>, from: nat) returns (r: bool)
    requires Ready(f, p, s) && start <= |p| && from <= |s|
    ensures r <==> Lang(f, p, start, s, from, false, false)
    decreases |p| - start, 0
  {
    var i: nat, j: nat, prevEscape := start, from, false;
    while At(p, i) != 0
      invariant start <= i <= |p| && j <= |s|
      invariant Lang(f, p, start, s, from, false, false) <==> Left(f, p, i, s, j, prevEscape)
      invariant prevEscape ==> f.esc != 0
      decreases |p| - i
    {
      var c := p[i];
      if !prevEscape && c == f.matchAll {
        r := AfterStar(f, p, i + 1, s, j);
        return;
      } else if !prevEscape && c == f.matchOne {
        if At(s, j) == 0 { return false; }
        i, j := i + 1, j + 1;
      } else if c == f.matchSet && f.matchSet != 0 {
        if At(s, j) == 0 { return false; }
        var matched, next := MatchSet(p, i + 1, s[j]);
        if !matched { return false; }
        i, j := next, j + 1;
      } else if f.esc == c && !prevEscape {
        prevEscape := true;
        i := i + 1;
      } else {
        if At(s, j) == 0 || Fold(f, c) != Fold(f, s[j]) { return false; }
        prevEscape := false;
        i, j := i + 1, j + 1;
      }
    }
    return j == |s|;
  }

  /** The part of patternCompare after a star. */
  method AfterStar(f: Info, p: seq<Char>, start: nat, s: seq<Char>, from: nat) returns (r: bool)
    requires Ready(f, p, s) && start <= |p| && from <= |s|
    ensures r <==> SomeSuffix(f, p, start, s, from, false)
    decreases |p| - start, 2
  {
    var ok, i, j := SkipRun(f, p, start, s, from);
    if !ok { return false; }
    if i == |p| {
      SplitFound(f, p, i, s, j, false, |s|);
      return true;
    }
    var c, next := p[i], i + 1;
    if c == f.esc {
      c, next := At(p, i + 1), i + 2;
      if c == 0 {
        BareInRun(f, p, i, s, j);
        return false;
      }
    } else if c == f.matchSet {
      r := FindSet(f, p, i, s, j);
      return;
    }
    r := FindChar(f, p, i, s, j, c, next);
  }

  /** Jump from one occurrence of the character to the next until the rest of the
      pattern matches. */
  method FindChar(f: Info, p: seq<Char>, i: nat, s: seq<Char>, from: nat, d: Char, next: nat) returns (r: bool)
    requires Ready(f, p, s) && i < |p| && from <= |s| && p[i] != f.matchAll && p[i] != f.matchOne && d != 0
    requires if p[i] == f.esc then i + 1 < |p| && d == p[i + 1] && next == i + 2
             else d == p[i] && next == i + 1 && (p[i] != f.matchSet || f.matchSet == 0)
    ensures r <==> SomeSuffix(f, p, i, s, from, false)
    decreases |p| - i, 0
  {
    var j := from;
    while j < |s|
      invariant from <= j <= |s| && (SomeSuffix(f, p, i, s, from, false) <==> SomeSuffix(f, p, i, s, j, false))
    {
      FindLiteral(f, p, i, s, j, d, next);
      if Fold(f, s[j]) == Fold(f, d) {
        var t := PatternCompare(f, p, next, s, j + 1);
        if t { return true; }
      }
      j := j + 1;
    }
    FindLiteral(f, p, i, s, j, d, next);
    return false;
  }

  /** After a star comes a set: try the rest of the pattern, set included, at every
      place. */
  method FindSet(f: Info, p: seq<Char>, i: nat, s: seq<Char>, from: nat) returns (r: bool)
    requires Ready(f, p, s) && i < |p| && from <= |s| && p[i] == f.matchSet && f.matchSet != 0
    ensures r <==> SomeSuffix(f, p, i, s, from, false)
    decreases |p| - i, 1
  {
    var j := from;
    while j < |s|
      invariant from <= j <= |s| && (SomeSuffix(f, p, i, s, from, false) <==> SomeSuffix(f, p, i, s, j, false))
    {
      var t := PatternCompare(f, p, i, s, j);
      if t { return true; }
      j := j + 1;
    }
    return false;
  }

  // ---------------------------------------------------------------------
  // When the matcher means what the language means
  // ---------------------------------------------------------------------

  /** No escape at the very end, unless a run of wildcards comes before it. */
  predicate Clean(f: Info, p: seq<Char>, i: nat, star: bool)
    decreases |p| - i
  {
    if i >= |p| then true
    else if p[i] == f.matchAll then Clean(f, p, i + 1, true)
    else if p[i] == f.matchOne then Clean(f, p, i + 1, star)
    else if p[i] == f.esc && f.esc != 0 then (if i + 1 == |p| then star else Clean(f, p, i + 2, false))
    else if p[i] == f.matchSet && f.matchSet != 0 then AfterSet(p, i + 1) > |p| || Clean(f, p, AfterSet(p, i + 1), false)
    else Clean(f, p, i + 1, false)
  }

  lemma {:induction false} CleanAgrees(f: Info, p: seq<Char>, i: nat, s: seq<Char>, j: nat, star: bool)
    requires Clean(f, p, i, star) && j <= |s|
    ensures Lang(f, p, i, s, j, false, star) <==> Lang(f, p, i, s, j, true, star)
    decreases |p| - i, 0, 0
  {
    if i < |p| {
      if p[i] == f.matchAll {
        CleanSuffix(f, p, i + 1, s, j);
      } else if j < |s| {
        if p[i] == f.matchOne {
          CleanAgrees(f, p, i + 1, s, j + 1, star);
        } else if p[i] == f.esc && f.esc != 0 {
          if i + 1 < |p| { CleanAgrees(f, p, i + 2, s, j + 1, false); }
        } else if p[i] == f.matchSet && f.matchSet != 0 {
          if AfterSet(p, i + 1) <= |p| { CleanAgrees(f, p, AfterSet(p, i + 1), s, j + 1, false); }
        } else {
          CleanAgrees(f, p, i + 1, s, j + 1, false);
        }
      }
    }
  }

  lemma {:induction false} CleanSuffix(f: Info, p: seq<Char>, i: nat, s: seq<Char>, j: nat)
    requires Clean(f, p, i, true) && j <= |s|
    ensures SomeSuffix(f, p, i, s, j, false) <==> SomeSuffix(f, p, i, s, j, true)
    decreases |p| - i, 1, |s| - j
  {
    CleanAgrees(f, p, i, s, j, true);
    if j < |s| { CleanSuffix(f, p, i, s, j + 1); }
  }

  /** A string that the matcher takes for a pattern with a bare escape at its
      end, and that the pattern does not mean. */
  function Wrong(f: Info, p: seq<Char>, i: nat): (s: seq<Char>)
    requires Valid(f) && f.esc != 0 && Text(p)
    ensures Text(s)
    decreases |p| - i
  {
    if i >= |p| then []
    else if p[i] == f.matchAll then Wrong(f, p, i + 1)
    else if p[i] == f.matchOne then [1] + Wrong(f, p, i + 1)
    else if p[i] == f.esc then (if i + 1 == |p| then [] else [p[i + 1]] + Wrong(f, p, i + 2))
    else [p[i]] + Wrong(f, p, i + 1)
  }

  /** Does the pattern end in a bare escape? */
  predicate EndsBare(f: Info, p: seq<Char>, i: nat)
    decreases |p| - i
  {
    if i >= |p| then false
    else if p[i] == f.matchAll || p[i] == f.matchOne then EndsBare(f, p, i + 1)
    else if p[i] == f.esc && f.esc != 0 then i + 1 == |p| || EndsBare(f, p, i + 2)
    else EndsBare(f, p, i + 1)
  }

  lemma {:induction false} UncleanBare(f: Info, p: seq<Char>, i: nat, star: bool)
    requires Valid(f) && f.esc != 0 && !Clean(f, p, i, star)
    ensures EndsBare(f, p, i)
    decreases |p| - i
  {
    if i < |p| {
      if p[i] == f.matchAll { UncleanBare(f, p, i + 1, true); }
      else if p[i] == f.matchOne { UncleanBare(f, p, i + 1, star); }
      else if p[i] == f.esc { if i + 1 < |p| { UncleanBare(f, p, i + 2, false); } }
      else { UncleanBare(f, p, i + 1, false); }
    }
  }

  /** A pattern that ends in a bare escape means no string at all. */
  lemma {:induction false} BareMeansNothing(f: Info, p: seq<Char>, i: nat, s: seq<Char>, j: nat, star: bool)
    requires Valid(f) && f.esc != 0 && EndsBare(f, p, i) && j <= |s|
    ensures !Lang(f, p, i, s, j, true, star)
    decreases |p| - i, 0, 0
  {
    if p[i] == f.matchAll { BareSuffix(f, p, i + 1, s, j); }
    else if j < |s| {
      if p[i] == f.matchOne { BareMeansNothing(f, p, i + 1, s, j + 1, star); }
      else if p[i] == f.esc { if i + 1 < |p| { BareMeansNothing(f, p, i + 2, s, j + 1, false); } }
      else { BareMeansNothing(f, p, i + 1, s, j + 1, false); }
    }
  }

  lemma {:induction false} BareSuffix(f: Info, p: seq<Char>, i: nat, s: seq<Char>, j: nat)
    requires Valid(f) && f.esc != 0 && EndsBare(f, p, i) && j <= |s|
    ensures !SomeSuffix(f, p, i, s, j, true)
    decreases |p| - i, 1, |s| - j
  {
    BareMeansNothing(f, p, i, s, j, true);
    if j < |s| { BareSuffix(f, p, i, s, j + 1); }
  }

  lemma Peel(s: seq<Char>, j: nat, c: Char, w: seq<Char>)
    requires j <= |s| && s[j..] == [c] + w
    ensures j < |s| && s[j] == c && s[j + 1..] == w
  {
    assert s[j..][0] == c && s[j..][1..] == w;
  }

  lemma {:induction false} WrongTaken(f: Info, p: seq<Char>, i: nat, s: seq<Char>, j: nat, star: bool)
    requires Valid(f) && f.esc != 0 && Text(p) && !Clean(f, p, i, star) && j <= |s| && s[j..] == Wrong(f, p, i)
    ensures Lang(f, p, i, s, j, false, star)
    decreases |p| - i
  {
    if i < |p| {
      if p[i] == f.matchAll {
        WrongTaken(f, p, i + 1, s, j, true);
        SplitFound(f, p, i + 1, s, j, false, j);
      } else if p[i] == f.matchOne {
        Peel(s, j, 1, Wrong(f, p, i + 1));
        WrongTaken(f, p, i + 1, s, j + 1, star);
      } else if p[i] == f.esc {
        if i + 1 < |p| {
          Peel(s, j, p[i + 1], Wrong(f, p, i + 2));
          WrongTaken(f, p, i + 2, s, j + 1, false);
        }
      } else {
        Peel(s, j, p[i], Wrong(f, p, i + 1));
        WrongTaken(f, p, i + 1, s, j + 1, false);
      }
    }
  }

  /** The matcher and the language agree on all strings. */
  ghost predicate AgreesAlways(f: Info, p: seq<Char>) {
    forall s: seq<Char> | Text(s) :: Lang(f, p, 0, s, 0, false, false) <==> Lang(f, p, 0, s, 0, true, false)
  }

  /** The exact condition: they agree on all strings if and only if the pattern has
      no bare escape at its end, or only after a run of wildcards. */
  lemma AgreesExactly(f: Info, p: seq<Char>)
    requires Valid(f) && Text(p)
    ensures AgreesAlways(f, p) <==> Clean(f, p, 0, false)
  {
    if Clean(f, p, 0, false) {
      forall s: seq<Char> | Text(s) ensures Lang(f, p, 0, s, 0, false, false) <==> Lang(f, p, 0, s, 0, true, false) {
        CleanAgrees(f, p, 0, s, 0, false);
      }
    } else {
      if f.esc == 0 { NoEscapeClean(f, p, 0, false); }
      var s := Wrong(f, p, 0);
      assert s[0..] == s;
      WrongTaken(f, p, 0, s, 0, false);
      UncleanBare(f, p, 0, false);
      BareMeansNothing(f, p, 0, s, 0, false);
    }
  }

  lemma {:induction false} NoEscapeClean(f: Info, p: seq<Char>, i: nat, star: bool)
    requires f.esc == 0
    ensures Clean(f, p, i, star)
    decreases |p| - i
  {
    if i < |p| {
      NoEscapeClean(f, p, i + 1, true);
      NoEscapeClean(f, p, i + 1, star);
      NoEscapeClean(f, p, i + 1, false);
      if AfterSet(p, i + 1) <= |p| { NoEscapeClean(f, p, AfterSet(p, i + 1), false); }
    }
  }

  /** An escaped character stands for itself. */
  ghost predicate EscapeWorks(f: Info) {
    forall c: Char, s: seq<Char> | c != 0 && Text(s) :: EscapedMatches(f, c, s) <==> |s| == 1 && Fold(f, s[0]) == Fold(f, c)
  }

  ghost predicate EscapedMatches(f: Info, c: Char, s: seq<Char>) {
    Lang(f, [f.esc, c], 0, s, 0, false, false)
  }

  /** It does if and only if the escape is not itself a wildcard. */
  lemma EscapeCondition(f: Info)
    requires Valid(f) && f.esc != 0
    ensures EscapeWorks(f) <==> f.esc != f.matchAll && f.esc != f.matchOne
  {
    if f.esc == f.matchAll {
      var p, s: seq<Char> := [f.esc, f.esc], [];
      assert Lang(f, p, 2, s, 0, false, true);
      assert SomeSuffix(f, p, 2, s, 0, false);
      assert Lang(f, p, 1, s, 0, false, true);
      assert SomeSuffix(f, p, 1, s, 0, false);
      assert EscapedMatches(f, f.esc, s);
    } else if f.esc == f.matchOne {
      var p, s: seq<Char> := [f.esc, f.esc], [1, 1];
      assert Lang(f, p, 2, s, 2, false, false);
      assert Lang(f, p, 1, s, 1, false, false);
      assert EscapedMatches(f, f.esc, s);
    } else {
      forall c: Char, s: seq<Char> | c != 0 && Text(s)
        ensures EscapedMatches(f, c, s) <==> |s| == 1 && Fold(f, s[0]) == Fold(f, c)
      {
        if |s| > 0 { assert Lang(f, [f.esc, c], 2, s, 1, false, false) <==> |s| == 1; }
      }
    }
  }
}
