/**
 The résumé section extractor of the back end.

 `extract_section(text, keywords)` runs `re.finditer` with the pattern
 `(?i)(?:k1|k2|...)(.*?)(?=\n[A-Z])` in DOTALL mode, strips group 1 of each
 match in turn and returns the first result that is not empty; when there is
 none it returns the sentinel "Not Found". `extract_sections` applies it to
 five fixed keyword lists.

 The pattern is modelled directly as the scan the regex engine performs:
 at each start position the keywords are tried in list order; a keyword
 that occurs there (ignoring case) matches only if some boundary — a newline
 followed by a letter — lies at or after its end, and the lazy group then
 stops at the first such boundary. After a match the search resumes where
 the match ended.
 */
module CvProcessor {
  import opened Base

  /** What `extract_section` returns when no section content was found. */
  const NotFound: string := "Not Found"

  /** The keywords are joined unescaped into one alternation. The list is
      taken to be non-empty and each keyword a non-empty literal without
      regex metacharacters: an empty list or keyword would put an empty
      alternative into the pattern. */
  predicate NonEmptyKeywords(kws: seq<string>) {
    |kws| > 0 && forall j :: 0 <= j < |kws| ==> |kws[j]| > 0
  }

  // ---------------------------------------------------------------------
  // Boundaries: the lookahead (?=\n[A-Z]) under (?i)
  // ---------------------------------------------------------------------

  /** The lookahead succeeds at `b`: a newline followed by an ASCII letter. */
  predicate IsBoundary(text: string, b: int) {
    0 <= b && b + 1 < |text| && text[b] == '\n' && IsAsciiLetter(text[b + 1])
  }

  /** Where the lazy `(.*?)` started at `from` stops: the least boundary at
      or after `from`, if any. */
  function NextBoundary(text: string, from: nat): (r: Option<nat>)
    decreases |text| - from
    ensures r.Some? ==> from <= r.value && IsBoundary(text, r.value)
    ensures r.Some? ==> forall b :: from <= b < r.value ==> !IsBoundary(text, b)
    ensures r.None? ==> forall b :: from <= b ==> !IsBoundary(text, b)
  {
    if from + 1 >= |text| then None
    else if IsBoundary(text, from) then Some(from)
    else NextBoundary(text, from + 1)
  }

  // ---------------------------------------------------------------------
  // Matching one position
  // ---------------------------------------------------------------------

  /** `k` occurs at position `p` of `text`, ignoring case. */
  predicate StartsWithFold(text: string, p: nat, k: string) {
    p + |k| <= |text| && FoldEq(text[p..p + |k|], k)
  }

  /** The alternative `kws[j]` leads to a match starting at `p`: the keyword
      occurs there and a boundary lies at or after its end. */
  predicate Fires(text: string, kws: seq<string>, p: nat, j: nat)
    requires j < |kws|
  {
    StartsWithFold(text, p, kws[j]) && NextBoundary(text, p + |kws[j]|).Some?
  }

  /** One match of the pattern. The whole match is `text[start..hi]`, the
      keyword that matched is `kws[keyword]` and group 1 is `text[lo..hi]`. */
  datatype Hit = Hit(start: nat, keyword: nat, lo: nat, hi: nat)

  /** `h` is the match the regex engine produces when it starts at `h.start`:
      the first alternative that fires, followed by the shortest group that
      ends at a boundary. */
  predicate ValidHit(text: string, kws: seq<string>, h: Hit) {
    && h.keyword < |kws|
    && StartsWithFold(text, h.start, kws[h.keyword])
    && h.lo == h.start + |kws[h.keyword]|
    && h.lo <= h.hi
    && IsBoundary(text, h.hi)
    && (forall b :: h.lo <= b < h.hi ==> !IsBoundary(text, b))
    && (forall j :: 0 <= j < h.keyword ==> !Fires(text, kws, h.start, j))
  }

  /** No alternative leads to a match starting at `p`. */
  predicate NoHitAt(text: string, kws: seq<string>, p: nat) {
    forall j :: 0 <= j < |kws| ==> !Fires(text, kws, p, j)
  }

  /** The first alternative, from index `j` on, that fires at `p`. */
  function FirstFiring(text: string, kws: seq<string>, p: nat, j: nat): (r: Option<nat>)
    requires j <= |kws|
    decreases |kws| - j
    ensures r.Some? ==> j <= r.value < |kws| && Fires(text, kws, p, r.value)
    ensures r.Some? ==> forall i :: j <= i < r.value ==> !Fires(text, kws, p, i)
    ensures r.None? ==> forall i :: j <= i < |kws| ==> !Fires(text, kws, p, i)
  {
    if j == |kws| then None
    else if StartsWithFold(text, p, kws[j]) && NextBoundary(text, p + |kws[j]|).Some? then
      Some(j)
    else
      FirstFiring(text, kws, p, j + 1)
  }

  /** The match of the pattern anchored at `p`, if there is one. Its contract
      is the lemma `HitAtSpec` below rather than an `ensures` here: stating it
      on the function would put `ValidHit` in front of the solver at every use
      of `HitAt`, and most proofs about matches do not need it. */
  function HitAt(text: string, kws: seq<string>, p: nat): (r: Option<Hit>) {
    match FirstFiring(text, kws, p, 0)
    case None => None
    case Some(j) =>
      var lo := p + |kws[j]|;
      Some(Hit(p, j, lo, NextBoundary(text, lo).value))
  }

  /** `HitAt` finds the match anchored at `p` exactly when there is one. */
  lemma HitAtSpec(text: string, kws: seq<string>, p: nat)
    ensures HitAt(text, kws, p).Some? ==>
      HitAt(text, kws, p).value.start == p && ValidHit(text, kws, HitAt(text, kws, p).value)
    ensures HitAt(text, kws, p).None? ==> NoHitAt(text, kws, p)
  {
  }

  // ---------------------------------------------------------------------
  // re.finditer
  // ---------------------------------------------------------------------

  /** Position `p` lies inside one of the matches in `hits`. */
  predicate Covered(hits: seq<Hit>, p: int) {
    exists i :: 0 <= i < |hits| && hits[i].start <= p < hits[i].hi
  }

  lemma CoveredCons(h: Hit, rest: seq<Hit>)
    ensures forall p :: Covered(rest, p) ==> Covered([h] + rest, p)
  {
    forall p | Covered(rest, p) ensures Covered([h] + rest, p) {
      var i :| 0 <= i < |rest| && rest[i].start <= p < rest[i].hi;
      assert ([h] + rest)[i + 1] == rest[i];
    }
  }

  /** The matches `re.finditer` yields when the search starts at `pos`: the
      match anchored at the first position that has one, then the matches
      from where it ends. `MatchesAreFinditer` states what they are. */
  function Matches(text: string, kws: seq<string>, pos: nat): (r: seq<Hit>)
    requires NonEmptyKeywords(kws)
    decreases |text| - pos
    ensures forall i :: 0 <= i < |r| ==> r[i].hi < |text|
  {
    if pos >= |text| then []
    else
      match HitAt(text, kws, pos)
      case None => Matches(text, kws, pos + 1)
      case Some(h) => [h] + Matches(text, kws, h.hi)
  }

  lemma MatchesEnd(text: string, kws: seq<string>, pos: nat)
    requires NonEmptyKeywords(kws) && pos >= |text|
    ensures Matches(text, kws, pos) == []
  {
  }

  lemma MatchesSkip(text: string, kws: seq<string>, pos: nat)
    requires NonEmptyKeywords(kws) && pos < |text| && HitAt(text, kws, pos).None?
    ensures Matches(text, kws, pos) == Matches(text, kws, pos + 1)
  {
  }

  lemma MatchesCons(text: string, kws: seq<string>, pos: nat, h: Hit)
    requires NonEmptyKeywords(kws) && pos < |text| && HitAt(text, kws, pos) == Some(h)
    ensures Matches(text, kws, pos) == [h] + Matches(text, kws, h.hi)
  {
  }

  /** `r` is exactly what `re.finditer` yields from `pos`: each element is the
      match anchored at its start, they come in order without overlapping,
      and no match is anchored at any position they skip. These three facts
      determine the sequence (`FinditerUnique`). */
  predicate IsFinditer(text: string, kws: seq<string>, pos: nat, r: seq<Hit>) {
    && (forall i :: 0 <= i < |r| ==> ValidHit(text, kws, r[i]) && pos <= r[i].start)
    && (forall i, j :: 0 <= i < j < |r| ==> r[i].hi <= r[j].start)
    && (forall p :: pos <= p < |text| && !Covered(r, p) ==> NoHitAt(text, kws, p))
  }

  /** A position without a match can be skipped. */
  lemma FinditerSkip(text: string, kws: seq<string>, pos: nat, r: seq<Hit>)
    requires NoHitAt(text, kws, pos)
    requires IsFinditer(text, kws, pos + 1, r)
    ensures IsFinditer(text, kws, pos, r)
  {
  }

  /** The match anchored at `pos`, then the matches from its end. */
  lemma FinditerCons(text: string, kws: seq<string>, pos: nat, h: Hit, rest: seq<Hit>)
    requires h.start == pos && ValidHit(text, kws, h)
    requires IsFinditer(text, kws, h.hi, rest)
    ensures IsFinditer(text, kws, pos, [h] + rest)
  {
    var r := [h] + rest;
    assert r[0] == h;
    assert forall i :: 1 <= i < |r| ==> r[i] == rest[i - 1];
    CoveredCons(h, rest);
    assert forall p :: h.start <= p < h.hi ==> Covered(r, p);
  }

  lemma {:induction false} MatchesAreFinditer(text: string, kws: seq<string>, pos: nat)
    requires NonEmptyKeywords(kws)
    decreases |text| - pos
    ensures IsFinditer(text, kws, pos, Matches(text, kws, pos))
  {
    if pos < |text| {
      match HitAt(text, kws, pos)
      case None =>
        MatchesAreFinditer(text, kws, pos + 1);
        FinditerSkip(text, kws, pos, Matches(text, kws, pos + 1));
      case Some(h) =>
        MatchesAreFinditer(text, kws, h.hi);
        FinditerCons(text, kws, pos, h, Matches(text, kws, h.hi));
    }
  }

  /** A match the regex produces means its keyword fires at its start. */
  lemma ValidHitFires(text: string, kws: seq<string>, h: Hit)
    requires ValidHit(text, kws, h)
    ensures Fires(text, kws, h.start, h.keyword)
    ensures !NoHitAt(text, kws, h.start)
  {
    var nb := NextBoundary(text, h.lo);
    assert nb.None? ==> !IsBoundary(text, h.hi);
  }

  /** At most one match is anchored at any position. */
  lemma ValidHitUnique(text: string, kws: seq<string>, h: Hit, h': Hit)
    requires ValidHit(text, kws, h) && ValidHit(text, kws, h') && h.start == h'.start
    ensures h == h'
  {
    ValidHitFires(text, kws, h);
    ValidHitFires(text, kws, h');
    assert h.keyword == h'.keyword;
    assert h.lo == h'.lo;
    assert h.hi == h'.hi;
  }

  /** A match sequence is empty only when the other one is. */
  lemma FinditerNonEmpty(text: string, kws: seq<string>, pos: nat, r: seq<Hit>, r': seq<Hit>)
    requires IsFinditer(text, kws, pos, r) && IsFinditer(text, kws, pos, r')
    ensures |r| > 0 ==> |r'| > 0
  {
    if |r| > 0 {
      ValidHitFires(text, kws, r[0]);
      assert Covered(r', r[0].start);
    }
  }

  /** The first match of a sequence starts no later than any match of another. */
  lemma FinditerFirstNoLater(text: string, kws: seq<string>, pos: nat, r: seq<Hit>, r': seq<Hit>)
    requires IsFinditer(text, kws, pos, r) && IsFinditer(text, kws, pos, r')
    requires |r| > 0 && |r'| > 0
    ensures r'[0].start <= r[0].start
  {
    ValidHitFires(text, kws, r[0]);
    assert Covered(r', r[0].start);
    var i :| 0 <= i < |r'| && r'[i].start <= r[0].start < r'[i].hi;
    assert r'[0].start <= r'[i].start;
  }

  /** After its first match, a match sequence is the one from that match's end. */
  lemma FinditerTail(text: string, kws: seq<string>, pos: nat, r: seq<Hit>)
    requires IsFinditer(text, kws, pos, r) && |r| > 0
    ensures IsFinditer(text, kws, r[0].hi, r[1..])
  {
    forall p | r[0].hi <= p < |text|
      ensures Covered(r, p) ==> Covered(r[1..], p)
    {
      CoveredPastFirst(r, p);
    }
  }

  /** A position past the end of the first hit is covered only by a later one. */
  lemma CoveredPastFirst(r: seq<Hit>, p: int)
    requires |r| > 0 && r[0].hi <= p
    ensures Covered(r, p) ==> Covered(r[1..], p)
  {
    if Covered(r, p) {
      var i :| 0 <= i < |r| && r[i].start <= p < r[i].hi;
      assert r[1..][i - 1] == r[i];
    }
  }

  /** The three facts of `IsFinditer` determine the sequence. */
  lemma {:induction false} FinditerUnique(text: string, kws: seq<string>, pos: nat, r: seq<Hit>, r': seq<Hit>)
    requires NonEmptyKeywords(kws)
    requires IsFinditer(text, kws, pos, r) && IsFinditer(text, kws, pos, r')
    decreases |text| - pos
    ensures r == r'
  {
    FinditerNonEmpty(text, kws, pos, r, r');
    FinditerNonEmpty(text, kws, pos, r', r);
    if |r| > 0 {
      FinditerFirstNoLater(text, kws, pos, r, r');
      FinditerFirstNoLater(text, kws, pos, r', r);
      ValidHitUnique(text, kws, r[0], r'[0]);
      FinditerTail(text, kws, pos, r);
      FinditerTail(text, kws, pos, r');
      FinditerUnique(text, kws, r[0].hi, r[1..], r'[1..]);
      assert r == [r[0]] + r[1..];
      assert r' == [r'[0]] + r'[1..];
    }
  }

  /** Any sequence with the three facts of `IsFinditer` is `Matches`. */
  lemma FinditerIsMatches(text: string, kws: seq<string>, pos: nat, r: seq<Hit>)
    requires NonEmptyKeywords(kws) && IsFinditer(text, kws, pos, r)
    ensures r == Matches(text, kws, pos)
  {
    MatchesAreFinditer(text, kws, pos);
    FinditerUnique(text, kws, pos, r, Matches(text, kws, pos));
  }

  // ---------------------------------------------------------------------
  // str.strip()
  // ---------------------------------------------------------------------

  /** The first index at or after `i` that does not hold whitespace. */
  function SkipSpaces(s: string, i: nat): (j: nat)
    requires i <= |s|
    decreases |s| - i
    ensures i <= j <= |s|
    ensures forall k :: i <= k < j ==> IsSpace(s[k])
    ensures j < |s| ==> !IsSpace(s[j])
  {
    if i == |s| || !IsSpace(s[i]) then i else SkipSpaces(s, i + 1)
  }

  /** The end of `s[lo..j]` once its trailing whitespace is removed. */
  function TrimEnd(s: string, lo: nat, j: nat): (k: nat)
    requires lo <= j <= |s|
    decreases j
    ensures lo <= k <= j
    ensures forall m :: k <= m < j ==> IsSpace(s[m])
    ensures lo < k ==> !IsSpace(s[k - 1])
  {
    if j == lo || !IsSpace(s[j - 1]) then j else TrimEnd(s, lo, j - 1)
  }

  /** The bounds of `s.strip()` inside `s`: everything outside them is
      whitespace, and the kept part is empty or starts and ends with a
      character that is not. */
  function StripBounds(s: string): (b: (nat, nat))
    ensures b.0 <= b.1 <= |s|
    ensures forall k :: 0 <= k < b.0 ==> IsSpace(s[k])
    ensures forall k :: b.1 <= k < |s| ==> IsSpace(s[k])
    ensures b.0 < b.1 ==> !IsSpace(s[b.0]) && !IsSpace(s[b.1 - 1])
    ensures b.0 == b.1 ==> IsBlank(s)
  {
    var lo := SkipSpaces(s, 0);
    (lo, TrimEnd(s, lo, |s|))
  }

  /** Python's `s.strip()`. */
  function Strip(s: string): (r: string)
    ensures r == [] <==> IsBlank(s)
    ensures r != [] ==> !IsSpace(r[0]) && !IsSpace(r[|r| - 1])
  {
    var b := StripBounds(s);
    s[b.0..b.1]
  }

  /** Strip is the only way to cut a string into blank prefix, kept part and
      blank suffix such that the kept part is empty or has non-blank ends. */
  lemma StripCharacterized(s: string, a: nat, b: nat)
    requires a <= b <= |s|
    requires IsBlank(s[..a]) && IsBlank(s[b..])
    requires a < b ==> !IsSpace(s[a]) && !IsSpace(s[b - 1])
    requires a == b ==> IsBlank(s)
    ensures s[a..b] == Strip(s)
  {
    var sb := StripBounds(s);
    assert forall k :: 0 <= k < a ==> IsSpace(s[k]) by {
      forall k | 0 <= k < a ensures IsSpace(s[k]) { assert s[..a][k] == s[k]; }
    }
    assert forall k :: b <= k < |s| ==> IsSpace(s[k]) by {
      forall k | b <= k < |s| ensures IsSpace(s[k]) { assert s[b..][k - b] == s[k]; }
    }
    if a < b {
      assert sb.0 == a;
      assert sb.1 == b;
    }
  }

  // ---------------------------------------------------------------------
  // extract_section
  // ---------------------------------------------------------------------

  /** Group 1 is inside the text. */
  predicate InBounds(text: string, h: Hit) {
    h.lo <= h.hi <= |text|
  }

  /** `match.group(1)`. */
  function Capture(text: string, h: Hit): (c: string)
    requires InBounds(text, h)
  {
    text[h.lo..h.hi]
  }

  /** Every match's group 1 is inside the text. */
  predicate AllInBounds(text: string, hits: seq<Hit>) {
    forall i :: 0 <= i < |hits| ==> InBounds(text, hits[i])
  }

  /** Every match's group 1 strips to the empty string. */
  predicate AllBlank(text: string, hits: seq<Hit>)
    requires AllInBounds(text, hits)
  {
    forall i :: 0 <= i < |hits| ==> IsBlank(Capture(text, hits[i]))
  }

  /** `hits[i]` is the first match whose group 1 does not strip to empty. */
  predicate IsFirstContent(text: string, hits: seq<Hit>, i: nat)
    requires AllInBounds(text, hits)
  {
    && i < |hits|
    && !IsBlank(Capture(text, hits[i]))
    && forall k :: 0 <= k < i ==> IsBlank(Capture(text, hits[k]))
  }

  /** The loop over the matches: the index of the first one whose stripped
      group 1 is not empty. */
  function FirstContent(text: string, hits: seq<Hit>): (r: Option<nat>)
    requires AllInBounds(text, hits)
    ensures r.Some? ==> IsFirstContent(text, hits, r.value)
    ensures r.None? <==> AllBlank(text, hits)
  {
    if hits == [] then None
    else if Strip(Capture(text, hits[0])) != [] then Some(0)
    else
      match FirstContent(text, hits[1..])
      case None => None
      case Some(i) => Some(i + 1)
  }

  lemma SliceOfSlice(s: string, lo: nat, hi: nat, a: nat, b: nat)
    requires lo <= hi <= |s| && a <= b <= hi - lo
    ensures s[lo..hi][a..b] == s[lo + a..lo + b]
  {
    assert forall i :: 0 <= i < b - a ==> s[lo..hi][a..b][i] == s[lo + a + i];
  }

  /** A section found in the text: the match it came from, and the bounds of
      its stripped group 1. */
  datatype Section = Section(hit: Hit, lo: nat, hi: nat)

  /** The section cut from the match `h`: its group 1, stripped. */
  function Trimmed(text: string, h: Hit): (s: Section)
    requires InBounds(text, h)
    ensures s.hit == h && h.lo <= s.lo <= s.hi <= h.hi
    ensures text[s.lo..s.hi] == Strip(Capture(text, h))
    ensures !IsBlank(Capture(text, h)) ==> s.lo < s.hi
  {
    var b := StripBounds(Capture(text, h));
    SliceOfSlice(text, h.lo, h.hi, b.0, b.1);
    Section(h, h.lo + b.0, h.lo + b.1)
  }

  /** The section the loop over `hits` returns: the first match whose
      stripped group 1 is not empty, with the bounds of that stripped part. */
  function FirstSection(text: string, hits: seq<Hit>): (r: Option<Section>)
    requires AllInBounds(text, hits)
    ensures r.None? <==> AllBlank(text, hits)
    ensures r.Some? ==> exists i: nat :: IsFirstContent(text, hits, i) && hits[i] == r.value.hit
    ensures r.Some? ==> InBounds(text, r.value.hit)
    ensures r.Some? ==> r.value.hit.lo <= r.value.lo < r.value.hi <= r.value.hit.hi
    ensures r.Some? ==> text[r.value.lo..r.value.hi] == Strip(Capture(text, r.value.hit))
  {
    match FirstContent(text, hits)
    case None => None
    case Some(i) => Some(Trimmed(text, hits[i]))
  }

  /** Matches are valid hits, so their groups lie inside the text. */
  lemma MatchesInBounds(text: string, kws: seq<string>, pos: nat)
    requires NonEmptyKeywords(kws)
    ensures AllInBounds(text, Matches(text, kws, pos))
  {
    MatchesAreFinditer(text, kws, pos);
  }

  /** The section `extract_section` returns when `finditer` starts at `pos`,
      or `None` when it falls through to the sentinel. */
  function SectionFrom(text: string, kws: seq<string>, pos: nat): (r: Option<Section>)
    requires NonEmptyKeywords(kws)
    ensures AllInBounds(text, Matches(text, kws, pos))
    ensures r.None? <==> AllBlank(text, Matches(text, kws, pos))
    ensures r.Some? ==> exists i: nat :: IsFirstContent(text, Matches(text, kws, pos), i)
                                   && Matches(text, kws, pos)[i] == r.value.hit
    ensures r.Some? ==> ValidHit(text, kws, r.value.hit) && pos <= r.value.hit.start
    ensures r.Some? ==> r.value.hit.lo <= r.value.lo < r.value.hi <= r.value.hit.hi
    ensures r.Some? ==> text[r.value.lo..r.value.hi] == Strip(Capture(text, r.value.hit))
  {
    MatchesAreFinditer(text, kws, pos);
    MatchesInBounds(text, kws, pos);
    FirstSection(text, Matches(text, kws, pos))
  }

  /** `extract_section(text, keywords)`. */
  function ExtractSection(text: string, kws: seq<string>): (r: string)
    requires NonEmptyKeywords(kws)
    ensures r != NotFound ==> r != [] && !IsSpace(r[0]) && !IsSpace(r[|r| - 1])
    ensures r != NotFound ==> exists a, b :: 0 <= a <= b <= |text| && text[a..b] == r
    ensures forall i :: 0 <= i < |r| - 1 ==> !(r[i] == '\n' && IsAsciiLetter(r[i + 1]))
    ensures AllInBounds(text, Matches(text, kws, 0))
    ensures AllBlank(text, Matches(text, kws, 0)) ==> r == NotFound
  {
    match SectionFrom(text, kws, 0)
    case None => NotFound
    case Some(s) =>
      SectionText(text, kws, s);
      text[s.lo..s.hi]
  }

  /** What is known of the text of a section found by `SectionFrom`. */
  lemma SectionText(text: string, kws: seq<string>, s: Section)
    requires ValidHit(text, kws, s.hit)
    requires s.hit.lo <= s.lo < s.hi <= s.hit.hi
    requires text[s.lo..s.hi] == Strip(Capture(text, s.hit))
    ensures s.hi <= |text|
    ensures
      var r := text[s.lo..s.hi];
      && r != [] && !IsSpace(r[0]) && !IsSpace(r[|r| - 1])
      && (forall i :: 0 <= i < |r| - 1 ==> !(r[i] == '\n' && IsAsciiLetter(r[i + 1])))
  {
    var r := text[s.lo..s.hi];
    var c := Strip(Capture(text, s.hit));
    assert r == c;
    assert r != [] && !IsSpace(r[0]) && !IsSpace(r[|r| - 1]);
    NoBoundaryInside(text, kws, s);
    NoPairInSlice(text, s.lo, s.hi);
  }

  lemma NoPairInSlice(text: string, lo: nat, hi: nat)
    requires lo <= hi <= |text|
    requires forall i :: lo <= i < hi - 1 ==> !(text[i] == '\n' && IsAsciiLetter(text[i + 1]))
    ensures var r := text[lo..hi]; forall i :: 0 <= i < |r| - 1 ==> !(r[i] == '\n' && IsAsciiLetter(r[i + 1]))
  {
    var r := text[lo..hi];
    forall i | 0 <= i < |r| - 1 ensures !(r[i] == '\n' && IsAsciiLetter(r[i + 1])) {
      assert r[i] == text[lo + i] && r[i + 1] == text[lo + i + 1];
    }
  }

  /** The stripped section sits strictly inside group 1, which runs up to the
      first boundary; so no newline-letter pair occurs inside it. */
  lemma NoBoundaryInside(text: string, kws: seq<string>, s: Section)
    requires ValidHit(text, kws, s.hit)
    requires s.hit.lo <= s.lo <= s.hi <= s.hit.hi
    ensures forall i :: s.lo <= i < s.hi - 1 ==> !(text[i] == '\n' && IsAsciiLetter(text[i + 1]))
  {
    forall i | s.lo <= i < s.hi - 1
      ensures !(text[i] == '\n' && IsAsciiLetter(text[i + 1]))
    {
      assert !IsBoundary(text, i);
    }
  }

  // ---------------------------------------------------------------------
  // extract_sections
  // ---------------------------------------------------------------------

  /** The five section names and the two keywords searched for each. */
  const SectionKeywords: map<string, seq<string>> := map[
    "Education" := ["Education", "Qualifications"],
    "Experience" := ["Experience", "Work History"],
    "Projects" := ["Projects", "Portfolio"],
    "Achievements" := ["Achievements", "Awards"],
    "Skills" := ["Skills", "Competencies"]
  ]

  /** Every value `extract_section` can return: the sentinel, or a non-empty
      stripped substring of the text. */
  predicate IsSectionValue(text: string, v: string) {
    || v == NotFound
    || (&& v != [] && !IsSpace(v[0]) && !IsSpace(v[|v| - 1])
        && exists a, b :: 0 <= a <= b <= |text| && text[a..b] == v)
  }

  lemma SectionKeywordsNonEmpty()
    ensures forall key :: key in SectionKeywords ==> NonEmptyKeywords(SectionKeywords[key])
  {
    forall key | key in SectionKeywords ensures NonEmptyKeywords(SectionKeywords[key]) {
      var kws := SectionKeywords[key];
      assert |kws| == 2 && |kws[0]| > 0 && |kws[1]| > 0;
    }
  }

  /** Whatever the keywords, `extract_section` returns a section value. */
  lemma AllSectionValues(text: string)
    ensures forall kws :: NonEmptyKeywords(kws) ==> IsSectionValue(text, ExtractSection(text, kws))
  {
    forall kws | NonEmptyKeywords(kws) ensures IsSectionValue(text, ExtractSection(text, kws)) {
      var r := ExtractSection(text, kws);
      if r != NotFound {
        assert r != [] && !IsSpace(r[0]) && !IsSpace(r[|r| - 1]);
      }
    }
  }

  /** The five section names. */
  lemma SectionNames()
    ensures SectionKeywords.Keys == {"Education", "Experience", "Projects", "Achievements", "Skills"}
  {
  }

  /** `extract_sections(text)`: one entry per section name, each holding a
      section value of the text. */
  function ExtractSections(text: string): (m: map<string, string>)
    ensures m.Keys == SectionKeywords.Keys
    ensures forall key :: key in m ==> IsSectionValue(text, m[key])
  {
    SectionKeywordsNonEmpty();
    AllSectionValues(text);
    map key | key in SectionKeywords :: ExtractSection(text, SectionKeywords[key])
  }

  /** The entry for a section name is what `extract_section` finds for that
      name's keywords. */
  lemma SectionEntry(text: string, key: string)
    requires key in SectionKeywords
    ensures NonEmptyKeywords(SectionKeywords[key])
    ensures ExtractSections(text)[key] == ExtractSection(text, SectionKeywords[key])
  {
    SectionKeywordsNonEmpty();
  }
}

/**
 Properties of `extract_section`: what the sentinel means, the order in which
 matches are tried, and why the case of keywords and headings is irrelevant.
 */
module CvProcessorProperties {
  import opened Base
  import opened CvProcessor

  // ---------------------------------------------------------------------
  // When the sentinel comes back
  // ---------------------------------------------------------------------

  /** No keyword occurs anywhere in the text (in any case): the result is the
      sentinel. */
  lemma NotFoundWhenKeywordsAbsent(text: string, kws: seq<string>)
    requires NonEmptyKeywords(kws)
    requires forall p: nat, j :: 0 <= j < |kws| ==> !StartsWithFold(text, p, kws[j])
    ensures ExtractSection(text, kws) == NotFound
  {
    MatchesAreFinditer(text, kws, 0);
  }

  /** No newline in the text is followed by a letter: no keyword occurrence
      can be closed off, so the result is the sentinel. */
  lemma NotFoundWithoutBoundary(text: string, kws: seq<string>)
    requires NonEmptyKeywords(kws)
    requires forall b :: !IsBoundary(text, b)
    ensures ExtractSection(text, kws) == NotFound
  {
    MatchesAreFinditer(text, kws, 0);
  }

  // ---------------------------------------------------------------------
  // Left to right, first non-empty capture wins
  // ---------------------------------------------------------------------

  /** The result is the stripped group 1 of the first match whose group 1
      does not strip to empty. */
  lemma FirstNonBlankWins(text: string, kws: seq<string>, i: nat)
    requires NonEmptyKeywords(kws)
    requires AllInBounds(text, Matches(text, kws, 0))
    requires IsFirstContent(text, Matches(text, kws, 0), i)
    ensures ExtractSection(text, kws) == Strip(Capture(text, Matches(text, kws, 0)[i]))
  {
    var ms := Matches(text, kws, 0);
    var r := SectionFrom(text, kws, 0);
    assert r.Some?;
    var j: nat :| IsFirstContent(text, ms, j) && ms[j] == r.value.hit;
    assert !IsBlank(Capture(text, ms[i])) && !IsBlank(Capture(text, ms[j]));
    assert i == j;
  }

  lemma FirstSectionSkipsBlank(text: string, h: Hit, rest: seq<Hit>)
    requires InBounds(text, h) && AllInBounds(text, rest)
    requires IsBlank(Capture(text, h))
    ensures AllInBounds(text, [h] + rest)
    ensures FirstSection(text, [h] + rest) == FirstSection(text, rest)
  {
    var hits := [h] + rest;
    assert hits[0] == h && hits[1..] == rest;
    assert forall i :: 0 <= i < |rest| ==> hits[i + 1] == rest[i];
  }

  /** No newline inside `c` is followed by a letter. */
  predicate NoHeadingInside(c: string) {
    forall i :: 0 <= i < |c| - 1 ==> !(c[i] == '\n' && IsAsciiLetter(c[i + 1]))
  }

  lemma LeadingHit(k: string, c: string, rest: string, kws: seq<string>)
    requires NonEmptyKeywords(kws) && kws[0] == k
    requires NoHeadingInside(c)
    requires |rest| > 0 && IsAsciiLetter(rest[0])
    ensures
      var text := k + c + "\n" + rest;
      && HitAt(text, kws, 0) == Some(Hit(0, 0, |k|, |k| + |c|))
      && text[|k|..|k| + |c|] == c
  {
    var text := k + c + "\n" + rest;
    var e := |k| + |c|;
    assert text[..|k|] == k;
    assert text[0..|k|] == k;
    assert forall i :: 0 <= i < |c| ==> text[|k| + i] == c[i];
    assert text[e] == '\n' && text[e + 1] == rest[0];
    assert IsBoundary(text, e);
    assert forall b :: |k| <= b < e ==> !IsBoundary(text, b) by {
      forall b | |k| <= b < e ensures !IsBoundary(text, b) {
        if b + 1 < e {
          assert text[b] == c[b - |k|] && text[b + 1] == c[b + 1 - |k|];
        } else {
          assert text[b + 1] == '\n';
        }
      }
    }
    var nb := NextBoundary(text, |k|);
    assert nb.Some? && nb.value == e;
    assert Fires(text, kws, 0, 0);
    var x := text[|k|..e];
    assert forall i :: 0 <= i < |c| ==> x[i] == text[|k| + i];
  }

  /** A match at the very start whose group 1 has content decides the
      result. */
  lemma FirstHitWins(text: string, kws: seq<string>, h: Hit)
    requires NonEmptyKeywords(kws) && 0 < |text|
    requires HitAt(text, kws, 0) == Some(h)
    requires InBounds(text, h) && !IsBlank(Capture(text, h))
    ensures ExtractSection(text, kws) == Strip(Capture(text, h))
  {
    MatchesCons(text, kws, 0, h);
    MatchesInBounds(text, kws, 0);
    var ms := Matches(text, kws, 0);
    assert ms[0] == h;
    assert IsFirstContent(text, ms, 0);
    FirstNonBlankWins(text, kws, 0);
  }

  /** A text that opens with the first keyword, followed by content with no
      heading inside it and then a line starting with a letter, yields
      exactly that content, stripped. */
  lemma LeadingSection(k: string, c: string, rest: string, kws: seq<string>)
    requires NonEmptyKeywords(kws) && kws[0] == k
    requires NoHeadingInside(c) && !IsBlank(c)
    requires |rest| > 0 && IsAsciiLetter(rest[0])
    ensures ExtractSection(k + c + "\n" + rest, kws) == Strip(c)
  {
    var text := k + c + "\n" + rest;
    LeadingHit(k, c, rest, kws);
    FirstHitWins(text, kws, Hit(0, 0, |k|, |k| + |c|));
  }

  /** A match whose group 1 is only whitespace (a keyword followed by
      whitespace and then a boundary) is skipped: the search carries on
      where that match ended. */
  lemma BlankMatchSkipped(text: string, kws: seq<string>, pos: nat)
    requires NonEmptyKeywords(kws)
    requires HitAt(text, kws, pos).Some?
    requires IsBlank(Capture(text, HitAt(text, kws, pos).value))
    ensures SectionFrom(text, kws, pos) == SectionFrom(text, kws, HitAt(text, kws, pos).value.hi)
  {
    var h := HitAt(text, kws, pos).value;
    var rest := Matches(text, kws, h.hi);
    assert Matches(text, kws, pos) == [h] + rest;
    MatchesInBounds(text, kws, h.hi);
    FirstSectionSkipsBlank(text, h, rest);
  }

  /** A position where no keyword leads to a match is passed over. */
  lemma {:induction false} NoMatchAdvances(text: string, kws: seq<string>, pos: nat)
    requires NonEmptyKeywords(kws)
    requires pos < |text| && HitAt(text, kws, pos).None?
    ensures SectionFrom(text, kws, pos) == SectionFrom(text, kws, pos + 1)
  {
    assert Matches(text, kws, pos) == Matches(text, kws, pos + 1);
  }

  // ---------------------------------------------------------------------
  // Case does not matter
  // ---------------------------------------------------------------------

  lemma BoundaryFold(text: string, text': string)
    requires FoldEq(text, text')
    ensures forall b :: IsBoundary(text, b) <==> IsBoundary(text', b)
  {
    forall b | 0 <= b && b + 1 < |text|
      ensures IsBoundary(text, b) <==> IsBoundary(text', b)
    {
      FoldPreservesClasses(text[b], text'[b]);
      FoldPreservesClasses(text[b + 1], text'[b + 1]);
    }
  }

  lemma NextBoundaryFold(text: string, text': string, from: nat)
    requires FoldEq(text, text')
    ensures NextBoundary(text, from) == NextBoundary(text', from)
  {
    BoundaryFold(text, text');
    var r, r' := NextBoundary(text, from), NextBoundary(text', from);
    assert r.Some? ==> IsBoundary(text', r.value);
    assert r'.Some? ==> IsBoundary(text, r'.value);
  }

  lemma StartsWithFoldFold(text: string, text': string, p: nat, k: string, k': string)
    requires FoldEq(text, text') && FoldEq(k, k')
    ensures StartsWithFold(text, p, k) <==> StartsWithFold(text', p, k')
  {
    if p + |k| <= |text| {
      var a, a' := text[p..p + |k|], text'[p..p + |k|];
      assert forall i :: 0 <= i < |k| ==> a[i] == text[p + i] && a'[i] == text'[p + i];
    }
  }

  lemma {:induction false} FirstFiringFold(text: string, text': string, kws: seq<string>, kws': seq<string>, p: nat, j: nat)
    requires FoldEq(text, text') && FoldEqAll(kws, kws') && j <= |kws|
    decreases |kws| - j
    ensures FirstFiring(text, kws, p, j) == FirstFiring(text', kws', p, j)
  {
    if j < |kws| {
      StartsWithFoldFold(text, text', p, kws[j], kws'[j]);
      NextBoundaryFold(text, text', p + |kws[j]|);
      FirstFiringFold(text, text', kws, kws', p, j + 1);
    }
  }

  /** `HitAt` depends only on which alternative fires first, its length,
      and where boundaries lie. */
  lemma HitAtSame(text: string, text': string, kws: seq<string>, kws': seq<string>, p: nat)
    requires |kws| == |kws'| && forall j :: 0 <= j < |kws| ==> |kws[j]| == |kws'[j]|
    requires FirstFiring(text, kws, p, 0) == FirstFiring(text', kws', p, 0)
    requires forall from: nat :: NextBoundary(text, from) == NextBoundary(text', from)
    ensures HitAt(text, kws, p) == HitAt(text', kws', p)
  {
    match FirstFiring(text, kws, p, 0)
    case None =>
      assert HitAt(text, kws, p) == None;
      assert HitAt(text', kws', p) == None;
    case Some(j) =>
      HitAtFiring(text, kws, p, j);
      HitAtFiring(text', kws', p, j);
      assert NextBoundary(text, p + |kws[j]|) == NextBoundary(text', p + |kws'[j]|);
  }

  /** The match anchored at `p` when alternative `j` fires first there. */
  lemma HitAtFiring(text: string, kws: seq<string>, p: nat, j: nat)
    requires FirstFiring(text, kws, p, 0) == Some(j)
    ensures j < |kws| && NextBoundary(text, p + |kws[j]|).Some?
    ensures HitAt(text, kws, p) == Some(Hit(p, j, p + |kws[j]|, NextBoundary(text, p + |kws[j]|).value))
  {
  }

  lemma HitAtFold(text: string, text': string, kws: seq<string>, kws': seq<string>, p: nat)
    requires FoldEq(text, text') && FoldEqAll(kws, kws')
    ensures HitAt(text, kws, p) == HitAt(text', kws', p)
  {
    FirstFiringFold(text, text', kws, kws', p, 0);
    forall from: nat ensures NextBoundary(text, from) == NextBoundary(text', from) {
      NextBoundaryFold(text, text', from);
    }
    HitAtSame(text, text', kws, kws', p);
  }

  /** `finditer` sees the text only through the match anchored at each position. */
  lemma {:induction false} MatchesSameHits(text: string, text': string, kws: seq<string>, kws': seq<string>, pos: nat)
    requires NonEmptyKeywords(kws) && NonEmptyKeywords(kws') && |text| == |text'|
    requires forall p: nat :: pos <= p < |text| ==> HitAt(text, kws, p) == HitAt(text', kws', p)
    decreases |text| - pos
    ensures Matches(text, kws, pos) == Matches(text', kws', pos)
  {
    if pos < |text| {
      HitAtSpec(text, kws, pos);
      var next := match HitAt(text, kws, pos) case None => pos + 1 case Some(h) => h.hi;
      MatchesSameHits(text, text', kws, kws', next);
      MatchesSameStep(text, text', kws, kws', pos, next);
    } else {
      MatchesEnd(text, kws, pos);
      MatchesEnd(text', kws', pos);
    }
  }

  /** One step of `MatchesSameHits`: equal hits at `pos` and equal matches
      from where `finditer` resumes give equal matches from `pos`. */
  lemma MatchesSameStep(text: string, text': string, kws: seq<string>, kws': seq<string>, pos: nat, next: nat)
    requires NonEmptyKeywords(kws) && NonEmptyKeywords(kws') && pos < |text| == |text'|
    requires HitAt(text, kws, pos) == HitAt(text', kws', pos)
    requires next == match HitAt(text, kws, pos) case None => pos + 1 case Some(h) => h.hi
    requires Matches(text, kws, next) == Matches(text', kws', next)
    ensures Matches(text, kws, pos) == Matches(text', kws', pos)
  {
    match HitAt(text, kws, pos)
    case None =>
      MatchesSkip(text, kws, pos);
      MatchesSkip(text', kws', pos);
    case Some(h) =>
      MatchesCons(text, kws, pos, h);
      MatchesCons(text', kws', pos, h);
  }

  lemma MatchesFold(text: string, text': string, kws: seq<string>, kws': seq<string>, pos: nat)
    requires NonEmptyKeywords(kws) && NonEmptyKeywords(kws')
    requires FoldEq(text, text') && FoldEqAll(kws, kws')
    ensures Matches(text, kws, pos) == Matches(text', kws', pos)
  {
    forall p: nat | pos <= p < |text| ensures HitAt(text, kws, p) == HitAt(text', kws', p) {
      HitAtFold(text, text', kws, kws', p);
    }
    MatchesSameHits(text, text', kws, kws', pos);
  }

  lemma {:induction false} SkipSpacesFold(s: string, s': string, i: nat)
    requires FoldEq(s, s') && i <= |s|
    decreases |s| - i
    ensures SkipSpaces(s, i) == SkipSpaces(s', i)
  {
    if i < |s| {
      FoldPreservesClasses(s[i], s'[i]);
      SkipSpacesFold(s, s', i + 1);
    }
  }

  lemma {:induction false} TrimEndFold(s: string, s': string, lo: nat, j: nat)
    requires FoldEq(s, s') && lo <= j <= |s|
    decreases j
    ensures TrimEnd(s, lo, j) == TrimEnd(s', lo, j)
  {
    if lo < j {
      FoldPreservesClasses(s[j - 1], s'[j - 1]);
      TrimEndFold(s, s', lo, j - 1);
    }
  }

  lemma CaptureFold(text: string, text': string, h: Hit)
    requires FoldEq(text, text') && InBounds(text, h)
    ensures FoldEq(Capture(text, h), Capture(text', h))
    ensures IsBlank(Capture(text, h)) <==> IsBlank(Capture(text', h))
    ensures StripBounds(Capture(text, h)) == StripBounds(Capture(text', h))
  {
    var c, c' := Capture(text, h), Capture(text', h);
    assert forall i :: 0 <= i < |c| ==> c[i] == text[h.lo + i] && c'[i] == text'[h.lo + i];
    forall i | 0 <= i < |c| ensures IsSpace(c[i]) <==> IsSpace(c'[i]) {
      FoldPreservesClasses(c[i], c'[i]);
    }
    SkipSpacesFold(c, c', 0);
    TrimEndFold(c, c', SkipSpaces(c, 0), |c|);
  }

  lemma FirstContentFold(text: string, text': string, hits: seq<Hit>)
    requires FoldEq(text, text') && AllInBounds(text, hits)
    ensures AllInBounds(text', hits)
    ensures FirstContent(text, hits) == FirstContent(text', hits)
  {
    forall i | 0 <= i < |hits| ensures IsBlank(Capture(text, hits[i])) <==> IsBlank(Capture(text', hits[i])) {
      CaptureFold(text, text', hits[i]);
    }
    var f, f' := FirstContent(text, hits), FirstContent(text', hits);
    assert f.Some? ==> !IsBlank(Capture(text', hits[f.value]));
    assert f'.Some? ==> !IsBlank(Capture(text, hits[f'.value]));
  }

  lemma TrimmedFold(text: string, text': string, h: Hit)
    requires FoldEq(text, text') && InBounds(text, h)
    ensures Trimmed(text, h) == Trimmed(text', h)
  {
    CaptureFold(text, text', h);
  }

  lemma FirstSectionFold(text: string, text': string, hits: seq<Hit>)
    requires FoldEq(text, text') && AllInBounds(text, hits)
    ensures AllInBounds(text', hits)
    ensures FirstSection(text, hits) == FirstSection(text', hits)
  {
    FirstContentFold(text, text', hits);
    var f := FirstContent(text, hits);
    if f.Some? {
      TrimmedFold(text, text', hits[f.value]);
    }
  }

  /** Recasing the text or the keywords leaves every match, and the section
      found, exactly where it was. */
  lemma SectionFold(text: string, text': string, kws: seq<string>, kws': seq<string>)
    requires NonEmptyKeywords(kws) && NonEmptyKeywords(kws')
    requires FoldEq(text, text') && FoldEqAll(kws, kws')
    ensures SectionFrom(text, kws, 0) == SectionFrom(text', kws', 0)
  {
    MatchesFold(text, text', kws, kws', 0);
    MatchesInBounds(text, kws, 0);
    FirstSectionFold(text, text', Matches(text, kws, 0));
  }

  /** Changing the case of the keywords does not change the result. */
  lemma KeywordCaseIgnored(text: string, kws: seq<string>, kws': seq<string>)
    requires NonEmptyKeywords(kws) && FoldEqAll(kws, kws')
    ensures NonEmptyKeywords(kws')
    ensures ExtractSection(text, kws) == ExtractSection(text, kws')
  {
    SectionFold(text, text, kws, kws');
  }

  lemma SliceFold(text: string, text': string, a: nat, b: nat)
    requires FoldEq(text, text') && a <= b <= |text|
    ensures FoldEq(text[a..b], text'[a..b])
  {
    var x, x' := text[a..b], text'[a..b];
    assert forall i :: 0 <= i < |x| ==> x[i] == text[a + i] && x'[i] == text'[a + i];
  }

  /** What `extract_section` returns, read off the section it finds. */
  lemma ExtractSectionOfSection(text: string, kws: seq<string>)
    requires NonEmptyKeywords(kws)
    ensures SectionFrom(text, kws, 0).None? ==> ExtractSection(text, kws) == NotFound
    ensures SectionFrom(text, kws, 0).Some? ==>
      var s := SectionFrom(text, kws, 0).value;
      s.lo <= s.hi <= |text| && ExtractSection(text, kws) == text[s.lo..s.hi]
  {
  }

  /** Changing the case of the letters of the text moves nothing: the same
      section is found, and the result differs at most in case. */
  lemma TextCaseIgnored(text: string, text': string, kws: seq<string>)
    requires NonEmptyKeywords(kws) && FoldEq(text, text')
    ensures SectionFrom(text, kws, 0) == SectionFrom(text', kws, 0)
    ensures FoldEq(ExtractSection(text, kws), ExtractSection(text', kws))
  {
    SectionFold(text, text', kws, kws);
    ExtractSectionOfSection(text, kws);
    ExtractSectionOfSection(text', kws);
    var r := SectionFrom(text, kws, 0);
    if r.Some? {
      SliceFold(text, text', r.value.lo, r.value.hi);
    }
  }

  /** Splicing a recased copy of `text[p..p + |w|]` into the text. */
  function Recase(text: string, p: nat, w: string): (t: string)
    requires p + |w| <= |text|
  {
    text[..p] + w + text[p + |w|..]
  }

  lemma RecaseFold(text: string, p: nat, w: string)
    requires p + |w| <= |text| && FoldEq(text[p..p + |w|], w)
    ensures FoldEq(text, Recase(text, p, w))
    ensures forall i :: 0 <= i < |text| && !(p <= i < p + |w|) ==> Recase(text, p, w)[i] == text[i]
  {
    var text' := Recase(text, p, w);
    var a := text[p..p + |w|];
    assert |text'| == |text|;
    assert forall i :: 0 <= i < p ==> text'[i] == text[i];
    assert forall i :: p <= i < p + |w| ==> text'[i] == w[i - p] && text[i] == a[i - p];
    assert forall i :: p + |w| <= i < |text| ==> text'[i] == text[i];
  }

  lemma SliceAgree(text: string, text': string, a: nat, b: nat)
    requires |text| == |text'| && a <= b <= |text|
    requires forall i :: a <= i < b ==> text[i] == text'[i]
    ensures text[a..b] == text'[a..b]
  {
    var x, x' := text[a..b], text'[a..b];
    assert forall i :: 0 <= i < |x| ==> x[i] == text[a + i] && x'[i] == text'[a + i];
  }

  /** Two texts with the same section, agreeing on its characters, give the
      same result. */
  lemma SameSectionSameResult(text: string, text': string, kws: seq<string>)
    requires NonEmptyKeywords(kws) && |text| == |text'|
    requires SectionFrom(text, kws, 0) == SectionFrom(text', kws, 0)
    requires SectionFrom(text, kws, 0).Some?
    requires forall i ::
      SectionFrom(text, kws, 0).value.lo <= i < SectionFrom(text, kws, 0).value.hi ==> text[i] == text'[i]
    ensures ExtractSection(text, kws) == ExtractSection(text', kws)
  {
    var s := SectionFrom(text, kws, 0).value;
    ExtractSectionOfSection(text, kws);
    ExtractSectionOfSection(text', kws);
    SliceAgree(text, text', s.lo, s.hi);
  }

  /** Rewriting one occurrence of a word at `p` in another case — a heading
      such as "SKILLS" written as "Skills" — gives the same result, unless
      the rewritten characters are part of the returned section itself. */
  lemma OccurrenceCaseIgnored(text: string, kws: seq<string>, p: nat, w: string)
    requires NonEmptyKeywords(kws)
    requires p + |w| <= |text| && FoldEq(text[p..p + |w|], w)
    ensures SectionFrom(text, kws, 0).None? ==> ExtractSection(Recase(text, p, w), kws) == NotFound
    ensures SectionFrom(text, kws, 0).Some? ==>
      var s := SectionFrom(text, kws, 0).value;
      (s.hi <= p || p + |w| <= s.lo) ==> ExtractSection(Recase(text, p, w), kws) == ExtractSection(text, kws)
  {
    var text' := Recase(text, p, w);
    RecaseSameSection(text, p, w, kws);
    match SectionFrom(text, kws, 0)
    case None =>
      ExtractSectionOfSection(text', kws);
    case Some(s) =>
      if s.hi <= p || p + |w| <= s.lo {
        ExtractSectionOfSection(text, kws);
        RecaseElsewhere(text, p, w, s.lo, s.hi);
        SameSectionSameResult(text, text', kws);
      }
  }

  /** Recasing one occurrence keeps the length and the section bounds. */
  lemma RecaseSameSection(text: string, p: nat, w: string, kws: seq<string>)
    requires NonEmptyKeywords(kws)
    requires p + |w| <= |text| && FoldEq(text[p..p + |w|], w)
    ensures |Recase(text, p, w)| == |text|
    ensures SectionFrom(text, kws, 0) == SectionFrom(Recase(text, p, w), kws, 0)
  {
    RecaseFold(text, p, w);
    SectionFold(text, Recase(text, p, w), kws, kws);
  }

  /** Recasing leaves every span it does not overlap as it was. */
  lemma RecaseElsewhere(text: string, p: nat, w: string, lo: nat, hi: nat)
    requires p + |w| <= |text| && lo <= hi <= |text|
    requires hi <= p || p + |w| <= lo
    ensures forall i :: lo <= i < hi ==> Recase(text, p, w)[i] == text[i]
  {
  }
}
